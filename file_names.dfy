/** getFileName: the name of an archive's scratch sub-directory. */
module FileNames {

  /** `p.split('/')[-1]`: the text after the last '/', or all of `p`. */
  function LastSegment(p: string): (r: string)
    ensures '/' !in r
    ensures |r| <= |p| && r == p[|p| - |r|..]
    ensures |r| == |p| || p[|p| - |r| - 1] == '/'
    decreases |p|
  {
    if p == [] || p[|p| - 1] == '/' then []
    else LastSegment(p[..|p| - 1]) + [p[|p| - 1]]
  }

  /** `s.rsplit('.', 1)[0]`: `s` without its last '.' and what follows it. */
  function StripLastExtension(s: string): (r: string)
    ensures '.' !in s ==> r == s
    ensures '.' in s ==> |r| < |s| && r == s[..|r|] && s[|r|] == '.' && '.' !in s[|r| + 1..]
    decreases |s|
  {
    if '.' !in s then s
    else if s[|s| - 1] == '.' then s[..|s| - 1]
    else
      assert '.' in s[..|s| - 1] by {
        var k :| 0 <= k < |s| && s[k] == '.';
        assert s[..|s| - 1][k] == '.';
      }
      StripLastExtension(s[..|s| - 1])
  }

  /** getFileName: the base name of a path with its last extension dropped. */
  function GetFileName(directory: string): (r: string)
    ensures '/' !in r
    ensures |r| <= |LastSegment(directory)| && r == LastSegment(directory)[..|r|]
  {
    var base := LastSegment(directory);
    var r := StripLastExtension(base);
    PrefixOmits(base, |r|, '/');
    r
  }

  lemma PrefixOmits(s: string, n: nat, c: char)
    requires n <= |s| && c !in s
    ensures c !in s[..n]
  {
  }

  /** Only the text from the last '.' goes: the result is fixed by the
      position of the last '.' alone. */
  lemma StripLastExtensionAt(s: string, k: nat)
    requires k < |s| && s[k] == '.' && '.' !in s[k + 1..]
    ensures StripLastExtension(s) == s[..k]
  {
  }

  /** A segment after the last '/' ends up whole in the result. */
  lemma {:induction false} LastSegmentOfJoin(prefix: string, name: string)
    requires '/' !in name
    requires prefix == [] || prefix[|prefix| - 1] == '/'
    ensures LastSegment(prefix + name) == name
    decreases |name|
  {
    if name == [] {
      assert prefix + name == prefix;
    } else {
      var p := prefix + name;
      var n := name[..|name| - 1];
      var last := name[|name| - 1];
      assert last in name;
      assert p[|p| - 1] == last && last != '/';
      assert p[..|p| - 1] == prefix + n;
      assert LastSegment(p) == LastSegment(prefix + n) + [last];
      LastSegmentOfJoin(prefix, n);
      assert name == n + [last];
    }
  }

  /** Worked examples: only the last extension is dropped, a leading '.'
      leaves nothing, a name without '.' is kept whole. */
  lemma GetFileNameDoubleExtension()
    ensures GetFileName("x/a.tar.gz") == "a.tar"
  {
    assert "x/a.tar.gz" == "x/" + "a.tar.gz";
    LastSegmentOfJoin("x/", "a.tar.gz");
    StripLastExtensionAt("a.tar.gz", 5);
    assert "a.tar.gz"[..5] == "a.tar";
  }

  lemma GetFileNameDotOnly()
    ensures GetFileName("x/.zip") == ""
  {
    assert "x/.zip" == "x/" + ".zip";
    LastSegmentOfJoin("x/", ".zip");
    StripLastExtensionAt(".zip", 0);
  }

  lemma GetFileNameNoExtension(prefix: string, name: string)
    requires '/' !in name && '.' !in name
    requires prefix == [] || prefix[|prefix| - 1] == '/'
    ensures GetFileName(prefix + name) == name
  {
    LastSegmentOfJoin(prefix, name);
  }
}

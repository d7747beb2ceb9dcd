/** searchDirFor over an in-memory directory tree: which entries are
    returned and which directories are descended into. */
module DirSearch {
  import opened Errors
  import FileNames

  /** A directory entry as `os.listdir` names it; a directory lists its
      children in the order `os.listdir` returns them. */
  datatype Entry =
    | File(name: string)
    | Dir(name: string, children: seq<Entry>)

  predicate StartsWith(s: string, prefix: string) {
    |prefix| <= |s| && s[..|prefix|] == prefix
  }

  predicate EndsWith(s: string, suffix: string) {
    |suffix| <= |s| && s[|s| - |suffix|..] == suffix
  }

  /** The name test of the listing loop: ends with `endsW` and starts with `startsW`. */
  predicate Matches(name: string, startsW: string, endsW: string) {
    EndsWith(name, endsW) && StartsWith(name, startsW)
  }

  /** `os.path.join` of a directory path and one name (POSIX rules): the
      name is appended, with a '/' between unless the directory is empty or
      already ends in one; a name that starts with '/' replaces the path. */
  function Join(directory: string, name: string): (r: string)
  {
    if |name| > 0 && name[0] == '/' then name
    else if directory == [] || directory[|directory| - 1] == '/' then directory + name
    else directory + "/" + name
  }

  /** The paths the loop has collected after the first `n` children of
      `dir`, which sits at `path`. */
  function Listed(path: string, dir: Entry, n: nat, startsW: string, endsW: string): seq<string>
    requires dir.Dir? && n <= |dir.children|
    decreases dir, n, 1
  {
    if n == 0 then []
    else Listed(path, dir, n - 1, startsW, endsW) + Visit(path, dir, n - 1, startsW, endsW)
  }

  /** What one pass of the loop appends for child `k`: a matching child is
      returned as it is; a directory that does not match is searched in
      turn; anything else adds nothing. */
  function Visit(path: string, dir: Entry, k: nat, startsW: string, endsW: string): seq<string>
    requires dir.Dir? && k < |dir.children|
    decreases dir, k + 1, 0
  {
    var c := dir.children[k];
    if Matches(c.name, startsW, endsW) then [Join(path, c.name)]
    else if c.Dir? then Listed(Join(path, c.name), c, |c.children|, startsW, endsW)
    else []
  }

  /** Everything searchDirFor returns for the directory `dir` at `path`. */
  function Found(path: string, dir: Entry, startsW: string, endsW: string): seq<string>
    requires dir.Dir?
  {
    Listed(path, dir, |dir.children|, startsW, endsW)
  }

  /** searchDirFor as the script runs it: one pass over the listing that
      appends a matching entry's path or the results of searching a
      non-matching directory. Listing a file raises NotADirectoryError. */
  method SearchDirFor(directory: string, node: Entry, startsW: string, endsW: string)
    returns (r: Result<seq<string>>)
    ensures node.File? ==> r == Err(NotADirectoryError(directory))
    ensures node.Dir? ==> r == Ok(Found(directory, node, startsW, endsW))
    decreases node
  {
    if node.File? {
      return Err(NotADirectoryError(directory));
    }
    var foundTarget: seq<string> := [];
    for i := 0 to |node.children|
      invariant foundTarget == Listed(directory, node, i, startsW, endsW)
    {
      var file := node.children[i];
      if EndsWith(file.name, endsW) && StartsWith(file.name, startsW) {
        foundTarget := foundTarget + [Join(directory, file.name)];
      } else if file.Dir? {
        var sub := SearchDirFor(Join(directory, file.name), file, startsW, endsW);
        foundTarget := foundTarget + sub.value;
      }
    }
    return Ok(foundTarget);
  }

  /** A route to an entry below a directory: the index of a child, and for
      a route that goes on, the route inside that child. */
  datatype Route = Here(index: nat) | Into(index: nat, rest: Route)

  /** The route selects an entry when the entry matches and every directory
      on the way to it does not (so a matching directory is never entered). */
  ghost predicate Selects(dir: Entry, route: Route, startsW: string, endsW: string)
    decreases route
  {
    && dir.Dir? && route.index < |dir.children|
    && var c := dir.children[route.index];
       match route
       case Here(_) => Matches(c.name, startsW, endsW)
       case Into(_, rest) => !Matches(c.name, startsW, endsW) && Selects(c, rest, startsW, endsW)
  }

  /** The path of the entry a route leads to, from `dir` at `path`. */
  ghost function RoutePath(path: string, dir: Entry, route: Route, startsW: string, endsW: string): string
    requires Selects(dir, route, startsW, endsW)
    decreases route
  {
    var c := dir.children[route.index];
    match route
    case Here(_) => Join(path, c.name)
    case Into(_, rest) => RoutePath(Join(path, c.name), c, rest, startsW, endsW)
  }

  /** Every path the search returns is the path of a selected entry. */
  lemma {:induction false} ListedSound(path: string, dir: Entry, n: nat, startsW: string, endsW: string, p: string)
    returns (route: Route)
    requires dir.Dir? && n <= |dir.children|
    requires p in Listed(path, dir, n, startsW, endsW)
    ensures Selects(dir, route, startsW, endsW) && route.index < n
    ensures RoutePath(path, dir, route, startsW, endsW) == p
    decreases dir, n
  {
    var c := dir.children[n - 1];
    if p in Listed(path, dir, n - 1, startsW, endsW) {
      route := ListedSound(path, dir, n - 1, startsW, endsW, p);
    } else if Matches(c.name, startsW, endsW) {
      route := Here(n - 1);
    } else {
      var inner := ListedSound(Join(path, c.name), c, |c.children|, startsW, endsW, p);
      route := Into(n - 1, inner);
    }
  }

  /** The path of every selected entry is among those the search returns. */
  lemma {:induction false} ListedComplete(path: string, dir: Entry, n: nat, startsW: string, endsW: string, route: Route)
    requires dir.Dir? && n <= |dir.children|
    requires Selects(dir, route, startsW, endsW) && route.index < n
    ensures RoutePath(path, dir, route, startsW, endsW) in Listed(path, dir, n, startsW, endsW)
    decreases dir, n
  {
    var c := dir.children[n - 1];
    if route.index < n - 1 {
      ListedComplete(path, dir, n - 1, startsW, endsW, route);
    } else if route.Into? {
      ListedComplete(Join(path, c.name), c, |c.children|, startsW, endsW, route.rest);
    }
  }

  /** searchDirFor returns exactly the paths of the selected entries:
      matching entries whose every enclosing directory below the start
      does not match. */
  lemma FoundIffSelected(path: string, dir: Entry, startsW: string, endsW: string, p: string)
    requires dir.Dir?
    ensures p in Found(path, dir, startsW, endsW) <==>
            exists route :: Selects(dir, route, startsW, endsW) && RoutePath(path, dir, route, startsW, endsW) == p
  {
    if p in Found(path, dir, startsW, endsW) {
      var route := ListedSound(path, dir, |dir.children|, startsW, endsW, p);
    }
    forall route | Selects(dir, route, startsW, endsW)
      ensures RoutePath(path, dir, route, startsW, endsW) in Found(path, dir, startsW, endsW)
    {
      ListedComplete(path, dir, |dir.children|, startsW, endsW, route);
    }
  }

  /** Route `a` comes before route `b` in depth-first listing order: at the
      first level where they differ, `a` takes an earlier child. */
  ghost predicate RouteBefore(a: Route, b: Route)
    decreases a
  {
    || a.index < b.index
    || (a.index == b.index && a.Into? && b.Into? && RouteBefore(a.rest, b.rest))
  }

  /** Depth-first order never puts two routes each before the other. */
  lemma {:induction false} RouteBeforeAsymmetric(a: Route, b: Route)
    ensures !(RouteBefore(a, b) && RouteBefore(b, a))
    decreases a
  {
    if a.index == b.index && a.Into? && b.Into? {
      RouteBeforeAsymmetric(a.rest, b.rest);
    }
  }

  /** No route comes before itself. */
  lemma {:induction false} RouteBeforeIrreflexive(a: Route)
    ensures !RouteBefore(a, a)
    decreases a
  {
    if a.Into? {
      RouteBeforeIrreflexive(a.rest);
    }
  }

  /** The selected routes in the order the loop visits them, parallel to `Listed`. */
  ghost function RoutesListed(dir: Entry, n: nat, startsW: string, endsW: string): seq<Route>
    requires dir.Dir? && n <= |dir.children|
    decreases dir, n, 1
  {
    if n == 0 then []
    else RoutesListed(dir, n - 1, startsW, endsW) + ChildRoutes(dir, n - 1, startsW, endsW)
  }

  /** The selected routes that start at child `k`. */
  ghost function ChildRoutes(dir: Entry, k: nat, startsW: string, endsW: string): seq<Route>
    requires dir.Dir? && k < |dir.children|
    decreases dir, k + 1, 0
  {
    var c := dir.children[k];
    if Matches(c.name, startsW, endsW) then [Here(k)]
    else if c.Dir? then Prefixed(k, RoutesListed(c, |c.children|, startsW, endsW))
    else []
  }

  /** Each route of a child's directory, entered through child `k`. */
  ghost function Prefixed(k: nat, routes: seq<Route>): seq<Route>
  {
    seq(|routes|, i requires 0 <= i < |routes| => Into(k, routes[i]))
  }

  /** The routes and the paths come in the same number. */
  lemma {:induction false} RoutesListedLength(path: string, dir: Entry, n: nat, startsW: string, endsW: string)
    requires dir.Dir? && n <= |dir.children|
    ensures |RoutesListed(dir, n, startsW, endsW)| == |Listed(path, dir, n, startsW, endsW)|
    decreases dir, n
  {
    if n > 0 {
      var c := dir.children[n - 1];
      RoutesListedLength(path, dir, n - 1, startsW, endsW);
      if !Matches(c.name, startsW, endsW) && c.Dir? {
        RoutesListedLength(Join(path, c.name), c, |c.children|, startsW, endsW);
      }
    }
  }

  /** The route at index `i` starts at one of the first `n` children. */
  lemma {:induction false} RoutesListedIndex(dir: Entry, n: nat, startsW: string, endsW: string, i: nat)
    requires dir.Dir? && n <= |dir.children|
    requires i < |RoutesListed(dir, n, startsW, endsW)|
    ensures RoutesListed(dir, n, startsW, endsW)[i].index < n
    decreases dir, n
  {
    if i < |RoutesListed(dir, n - 1, startsW, endsW)| {
      RoutesListedIndex(dir, n - 1, startsW, endsW, i);
    }
  }

  /** The route at index `i` is selected and leads to the path at index `i`. */
  lemma {:induction false} RoutesListedAt(path: string, dir: Entry, n: nat, startsW: string, endsW: string, i: nat)
    requires dir.Dir? && n <= |dir.children|
    requires i < |RoutesListed(dir, n, startsW, endsW)|
    ensures Selects(dir, RoutesListed(dir, n, startsW, endsW)[i], startsW, endsW)
    ensures i < |Listed(path, dir, n, startsW, endsW)|
    ensures RoutePath(path, dir, RoutesListed(dir, n, startsW, endsW)[i], startsW, endsW) == Listed(path, dir, n, startsW, endsW)[i]
    decreases dir, n, 1
  {
    var m := |RoutesListed(dir, n - 1, startsW, endsW)|;
    RoutesListedLength(path, dir, n - 1, startsW, endsW);
    if i < m {
      RoutesListedAt(path, dir, n - 1, startsW, endsW, i);
    } else {
      ChildRoutesAt(path, dir, n - 1, startsW, endsW, i - m);
    }
  }

  /** The same for the routes that start at child `k` and what the loop
      appends for it. */
  lemma {:induction false} ChildRoutesAt(path: string, dir: Entry, k: nat, startsW: string, endsW: string, j: nat)
    requires dir.Dir? && k < |dir.children|
    requires j < |ChildRoutes(dir, k, startsW, endsW)|
    ensures Selects(dir, ChildRoutes(dir, k, startsW, endsW)[j], startsW, endsW)
    ensures j < |Visit(path, dir, k, startsW, endsW)|
    ensures RoutePath(path, dir, ChildRoutes(dir, k, startsW, endsW)[j], startsW, endsW) == Visit(path, dir, k, startsW, endsW)[j]
    decreases dir, k + 1, 0
  {
    var c := dir.children[k];
    if !Matches(c.name, startsW, endsW) {
      var inner := RoutesListed(c, |c.children|, startsW, endsW);
      assert ChildRoutes(dir, k, startsW, endsW)[j] == Into(k, inner[j]);
      RoutesListedAt(Join(path, c.name), c, |c.children|, startsW, endsW, j);
      RoutePathInto(path, dir, k, inner[j], startsW, endsW);
    }
  }

  /** A route into child `k`, a directory that does not match, extends a
      route inside it and leads to the path that route leads to from there. */
  lemma RoutePathInto(path: string, dir: Entry, k: nat, route: Route, startsW: string, endsW: string)
    requires dir.Dir? && k < |dir.children|
    requires !Matches(dir.children[k].name, startsW, endsW)
    requires Selects(dir.children[k], route, startsW, endsW)
    ensures Selects(dir, Into(k, route), startsW, endsW)
    ensures RoutePath(path, dir, Into(k, route), startsW, endsW) ==
            RoutePath(Join(path, dir.children[k].name), dir.children[k], route, startsW, endsW)
  {
  }

  /** Every selected route is listed. */
  lemma {:induction false} RoutesListedComplete(dir: Entry, n: nat, startsW: string, endsW: string, route: Route)
    requires dir.Dir? && n <= |dir.children|
    requires Selects(dir, route, startsW, endsW) && route.index < n
    ensures route in RoutesListed(dir, n, startsW, endsW)
    decreases dir, n
  {
    var c := dir.children[n - 1];
    if route.index < n - 1 {
      RoutesListedComplete(dir, n - 1, startsW, endsW, route);
    } else if route.Into? {
      RoutesListedComplete(c, |c.children|, startsW, endsW, route.rest);
      var inner := RoutesListed(c, |c.children|, startsW, endsW);
      var k :| 0 <= k < |inner| && inner[k] == route.rest;
      assert ChildRoutes(dir, n - 1, startsW, endsW)[k] == route;
    } else {
      assert ChildRoutes(dir, n - 1, startsW, endsW) == [route];
    }
  }

  /** The listed routes are in strictly increasing depth-first order. */
  lemma {:induction false} RoutesListedSorted(dir: Entry, n: nat, startsW: string, endsW: string, i: nat, k: nat)
    requires dir.Dir? && n <= |dir.children|
    requires i < k < |RoutesListed(dir, n, startsW, endsW)|
    ensures RouteBefore(RoutesListed(dir, n, startsW, endsW)[i], RoutesListed(dir, n, startsW, endsW)[k])
    decreases dir, n, 1
  {
    var m := |RoutesListed(dir, n - 1, startsW, endsW)|;
    if k < m {
      RoutesListedSorted(dir, n - 1, startsW, endsW, i, k);
    } else if i < m {
      RoutesListedIndex(dir, n - 1, startsW, endsW, i);
    } else {
      ChildRoutesSorted(dir, n - 1, startsW, endsW, i - m, k - m);
    }
  }

  /** The same for the routes that start at child `k`. */
  lemma {:induction false} ChildRoutesSorted(dir: Entry, k: nat, startsW: string, endsW: string, i: nat, l: nat)
    requires dir.Dir? && k < |dir.children|
    requires i < l < |ChildRoutes(dir, k, startsW, endsW)|
    ensures RouteBefore(ChildRoutes(dir, k, startsW, endsW)[i], ChildRoutes(dir, k, startsW, endsW)[l])
    decreases dir, k + 1, 0
  {
    var c := dir.children[k];
    var inner := RoutesListed(c, |c.children|, startsW, endsW);
    assert !Matches(c.name, startsW, endsW) && c.Dir?;
    assert ChildRoutes(dir, k, startsW, endsW)[i] == Into(k, inner[i]);
    assert ChildRoutes(dir, k, startsW, endsW)[l] == Into(k, inner[l]);
    RoutesListedSorted(c, |c.children|, startsW, endsW, i, l);
  }

  /** The result of searchDirFor is the paths of all the selected routes,
      each once, taken in strictly increasing depth-first order. */
  lemma FoundFollowsRoutes(path: string, dir: Entry, startsW: string, endsW: string)
    requires dir.Dir?
    ensures var routes := RoutesListed(dir, |dir.children|, startsW, endsW);
            var found := Found(path, dir, startsW, endsW);
            && |found| == |routes|
            && (forall i :: 0 <= i < |routes| ==>
                  Selects(dir, routes[i], startsW, endsW) && RoutePath(path, dir, routes[i], startsW, endsW) == found[i])
            && (forall i, k :: 0 <= i < k < |routes| ==> RouteBefore(routes[i], routes[k]))
            && (forall r :: Selects(dir, r, startsW, endsW) ==> r in routes)
  {
    var n := |dir.children|;
    RoutesListedLength(path, dir, n, startsW, endsW);
    forall i | 0 <= i < |RoutesListed(dir, n, startsW, endsW)|
      ensures Selects(dir, RoutesListed(dir, n, startsW, endsW)[i], startsW, endsW)
      ensures RoutePath(path, dir, RoutesListed(dir, n, startsW, endsW)[i], startsW, endsW) == Listed(path, dir, n, startsW, endsW)[i]
    {
      RoutesListedAt(path, dir, n, startsW, endsW, i);
    }
    forall i, k | 0 <= i < k < |RoutesListed(dir, n, startsW, endsW)|
      ensures RouteBefore(RoutesListed(dir, n, startsW, endsW)[i], RoutesListed(dir, n, startsW, endsW)[k])
    {
      RoutesListedSorted(dir, n, startsW, endsW, i, k);
    }
    forall r | Selects(dir, r, startsW, endsW)
      ensures r in RoutesListed(dir, n, startsW, endsW)
    {
      RoutesListedComplete(dir, n, startsW, endsW, r);
    }
  }

  /** searchDirFor returns the paths of the selected entries in depth-first
      listing order: of two selected routes, the one that comes first has
      its path at an earlier position of the result. */
  lemma FoundInRouteOrder(path: string, dir: Entry, startsW: string, endsW: string, a: Route, b: Route)
    requires dir.Dir?
    requires Selects(dir, a, startsW, endsW) && Selects(dir, b, startsW, endsW)
    requires RouteBefore(a, b)
    ensures exists i, k :: 0 <= i < k < |Found(path, dir, startsW, endsW)| &&
              Found(path, dir, startsW, endsW)[i] == RoutePath(path, dir, a, startsW, endsW) &&
              Found(path, dir, startsW, endsW)[k] == RoutePath(path, dir, b, startsW, endsW)
  {
    var n := |dir.children|;
    var routes := RoutesListed(dir, n, startsW, endsW);
    RoutesListedComplete(dir, n, startsW, endsW, a);
    RoutesListedComplete(dir, n, startsW, endsW, b);
    var i :| 0 <= i < |routes| && routes[i] == a;
    var k :| 0 <= k < |routes| && routes[k] == b;
    RoutesListedAt(path, dir, n, startsW, endsW, i);
    RoutesListedAt(path, dir, n, startsW, endsW, k);
    RouteBeforeAsymmetric(a, b);
    RouteBeforeIrreflexive(a);
    if k < i {
      RoutesListedSorted(dir, n, startsW, endsW, k, i);
    }
    assert i < k;
    assert Found(path, dir, startsW, endsW) == Listed(path, dir, n, startsW, endsW);
  }

  /** Names from a listing, at every depth below `e`: none holds a '/'. */
  ghost predicate NamesWellFormed(e: Entry)
    decreases e
  {
    && '/' !in e.name
    && (e.Dir? ==> forall i :: 0 <= i < |e.children| ==> NamesWellFormed(e.children[i]))
  }

  /** Every returned path's final name starts with `startsW` and ends with `endsW`. */
  lemma {:induction false} ListedNameMatches(path: string, dir: Entry, n: nat, startsW: string, endsW: string, p: string)
    requires dir.Dir? && n <= |dir.children|
    requires forall i :: 0 <= i < |dir.children| ==> NamesWellFormed(dir.children[i])
    requires p in Listed(path, dir, n, startsW, endsW)
    ensures Matches(FileNames.LastSegment(p), startsW, endsW)
    decreases dir, n
  {
    var c := dir.children[n - 1];
    if p in Listed(path, dir, n - 1, startsW, endsW) {
      ListedNameMatches(path, dir, n - 1, startsW, endsW, p);
    } else if Matches(c.name, startsW, endsW) {
      assert p == Join(path, c.name);
      assert NamesWellFormed(c);
      assert '/' !in c.name;
      JoinLastSegment(path, c.name);
    } else {
      assert c.Dir? && NamesWellFormed(c);
      ListedNameMatches(Join(path, c.name), c, |c.children|, startsW, endsW, p);
    }
  }

  /** Joining a name without '/' onto a directory path ends the path in that name. */
  lemma JoinLastSegment(path: string, name: string)
    requires '/' !in name
    ensures FileNames.LastSegment(Join(path, name)) == name
  {
    if path == [] || path[|path| - 1] == '/' {
      FileNames.LastSegmentOfJoin(path, name);
    } else {
      assert path + "/" + name == (path + "/") + name;
      FileNames.LastSegmentOfJoin(path + "/", name);
    }
  }
}

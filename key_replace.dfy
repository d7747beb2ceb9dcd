/** The recursive key replace of JSONsInZIPsEditor.py (searchAndReplace). */
module KeyReplace {
  import opened Errors
  import opened JsonValues

  const NotContainerMessage: string :=
    "Input not a dict or list (the only dicts and lists are suported)"

  /** The value the walk leaves in a container, given what is there now:
      the whole tree of `j` with every reached entry keyed `key` set to `v`. */
  function Replace(j: Json, key: string, v: Json): Json
    requires IsContainer(j)
    decreases j, 0
  {
    match j
    case Obj(es) => Obj(seq(|es|, i requires 0 <= i < |es| => EntryStep(es[i].0, es[i].1, key, v)))
    case Arr(xs) => Arr(seq(|xs|, i requires 0 <= i < |xs| => ItemStep(xs[i], key, v)))
  }

  /** One pass of the dict loop: a matching key gets `v` as it is, a
      container under another key is walked, anything else is kept. */
  function EntryStep(k: string, val: Json, key: string, v: Json): (string, Json)
    decreases val, 1
  {
    if k == key then (k, v)
    else if IsContainer(val) then (k, Replace(val, key, v))
    else (k, val)
  }

  /** One pass of the list loop: containers are walked, scalars kept. */
  function ItemStep(x: Json, key: string, v: Json): Json
    decreases x, 1
  {
    if IsContainer(x) then Replace(x, key, v) else x
  }

  /** Every entry the walk reaches whose key is `key` holds `v`; values
      under such an entry are not looked at. */
  ghost predicate Settled(j: Json, key: string, v: Json)
    decreases j
  {
    match j
    case Obj(es) =>
      forall i :: 0 <= i < |es| ==> if es[i].0 == key then es[i].1 == v else Settled(es[i].1, key, v)
    case Arr(xs) => forall i :: 0 <= i < |xs| ==> Settled(xs[i], key, v)
    case _ => true
  }

  /** `b` has the shape of `a`: the same kind at every reached position,
      objects with the same keys in the same order, arrays of the same
      length, equal scalars; only values under entries keyed `key` may differ. */
  ghost predicate SameOutside(a: Json, b: Json, key: string)
    decreases a
  {
    match a
    case Obj(es) =>
      && b.Obj? && |b.entries| == |es|
      && forall i :: 0 <= i < |es| ==>
           && b.entries[i].0 == es[i].0
           && (es[i].0 != key ==> SameOutside(es[i].1, b.entries[i].1, key))
    case Arr(xs) =>
      && b.Arr? && |b.items| == |xs|
      && forall i :: 0 <= i < |xs| ==> SameOutside(xs[i], b.items[i], key)
    case _ => b == a
  }

  /** No object anywhere in `j` has an entry keyed `key`. */
  ghost predicate KeyAbsent(j: Json, key: string)
    decreases j
  {
    match j
    case Obj(es) => forall i :: 0 <= i < |es| ==> es[i].0 != key && KeyAbsent(es[i].1, key)
    case Arr(xs) => forall i :: 0 <= i < |xs| ==> KeyAbsent(xs[i], key)
    case _ => true
  }

  /** searchAndReplace: a container comes back walked; any other root raises TypeError. */
  function SearchAndReplace(j: Json, key: string, v: Json): (r: Result<Json>)
    ensures r.Err? <==> !IsContainer(j)
    ensures r.Err? ==> r.error == TypeError(NotContainerMessage)
    ensures r.Ok? ==> r.value.Obj? == j.Obj? && r.value.Arr? == j.Arr?
    ensures r.Ok? ==> SameOutside(j, r.value, key) && Settled(r.value, key, v)
  {
    if IsContainer(j) then
      ReplaceKeepsShape(j, key, v);
      ReplaceSettles(j, key, v);
      Ok(Replace(j, key, v))
    else
      Err(TypeError(NotContainerMessage))
  }

  /** Only values under matched keys change. */
  lemma {:induction false} ReplaceKeepsShape(j: Json, key: string, v: Json)
    requires IsContainer(j)
    ensures SameOutside(j, Replace(j, key, v), key)
    decreases j
  {
    match j
    case Obj(es) =>
      var r := Replace(j, key, v);
      assert |r.entries| == |es| && forall i :: 0 <= i < |es| ==> r.entries[i] == EntryStep(es[i].0, es[i].1, key, v);
      forall i | 0 <= i < |es| && es[i].0 != key
        ensures SameOutside(es[i].1, r.entries[i].1, key)
      {
        if IsContainer(es[i].1) {
          ReplaceKeepsShape(es[i].1, key, v);
        } else {
          SameOutsideRefl(es[i].1, key);
        }
      }
    case Arr(xs) =>
      var r := Replace(j, key, v);
      assert |r.items| == |xs| && forall i :: 0 <= i < |xs| ==> r.items[i] == ItemStep(xs[i], key, v);
      forall i | 0 <= i < |xs|
        ensures SameOutside(xs[i], r.items[i], key)
      {
        if IsContainer(xs[i]) {
          ReplaceKeepsShape(xs[i], key, v);
        } else {
          SameOutsideRefl(xs[i], key);
        }
      }
  }

  lemma {:induction false} SameOutsideRefl(a: Json, key: string)
    ensures SameOutside(a, a, key)
    decreases a
  {
    match a
    case Obj(es) =>
      forall i | 0 <= i < |es| ensures SameOutside(es[i].1, es[i].1, key) {
        SameOutsideRefl(es[i].1, key);
      }
    case Arr(xs) =>
      forall i | 0 <= i < |xs| ensures SameOutside(xs[i], xs[i], key) {
        SameOutsideRefl(xs[i], key);
      }
    case _ =>
  }

  /** After the walk no reached entry keyed `key` holds anything but `v`. */
  lemma {:induction false} ReplaceSettles(j: Json, key: string, v: Json)
    requires IsContainer(j)
    ensures Settled(Replace(j, key, v), key, v)
    decreases j
  {
    match j
    case Obj(es) =>
      var r := Replace(j, key, v);
      assert |r.entries| == |es| && forall i :: 0 <= i < |es| ==> r.entries[i] == EntryStep(es[i].0, es[i].1, key, v);
      forall i | 0 <= i < |es| && es[i].0 != key && IsContainer(es[i].1)
        ensures Settled(r.entries[i].1, key, v)
      {
        ReplaceSettles(es[i].1, key, v);
      }
    case Arr(xs) =>
      var r := Replace(j, key, v);
      assert |r.items| == |xs| && forall i :: 0 <= i < |xs| ==> r.items[i] == ItemStep(xs[i], key, v);
      forall i | 0 <= i < |xs| && IsContainer(xs[i])
        ensures Settled(r.items[i], key, v)
      {
        ReplaceSettles(xs[i], key, v);
      }
  }

  /** A settled container is left exactly as it was. */
  lemma {:induction false} SettledIsFixpoint(j: Json, key: string, v: Json)
    requires IsContainer(j) && Settled(j, key, v)
    ensures Replace(j, key, v) == j
    decreases j
  {
    match j
    case Obj(es) =>
      var r := Replace(j, key, v);
      assert |r.entries| == |es| && forall i :: 0 <= i < |es| ==> r.entries[i] == EntryStep(es[i].0, es[i].1, key, v);
      forall i | 0 <= i < |es| ensures r.entries[i] == es[i] {
        if es[i].0 != key && IsContainer(es[i].1) {
          SettledIsFixpoint(es[i].1, key, v);
        }
      }
      assert r.entries == es;
    case Arr(xs) =>
      var r := Replace(j, key, v);
      assert |r.items| == |xs| && forall i :: 0 <= i < |xs| ==> r.items[i] == ItemStep(xs[i], key, v);
      forall i | 0 <= i < |xs| ensures r.items[i] == xs[i] {
        if IsContainer(xs[i]) {
          SettledIsFixpoint(xs[i], key, v);
        }
      }
      assert r.items == xs;
  }

  /** The walk changes nothing exactly when the container is already settled. */
  lemma ReplaceUnchangedIff(j: Json, key: string, v: Json)
    requires IsContainer(j)
    ensures Replace(j, key, v) == j <==> Settled(j, key, v)
  {
    if Settled(j, key, v) {
      SettledIsFixpoint(j, key, v);
    } else {
      ReplaceSettles(j, key, v);
    }
  }

  /** A second walk with the same request changes nothing. */
  lemma ReplaceIdempotent(j: Json, key: string, v: Json)
    requires IsContainer(j)
    ensures IsContainer(Replace(j, key, v))
    ensures Replace(Replace(j, key, v), key, v) == Replace(j, key, v)
  {
    ReplaceSettles(j, key, v);
    SettledIsFixpoint(Replace(j, key, v), key, v);
  }

  lemma ItemStepIdempotent(x: Json, key: string, v: Json)
    ensures ItemStep(ItemStep(x, key, v), key, v) == ItemStep(x, key, v)
  {
    if IsContainer(x) {
      ReplaceIdempotent(x, key, v);
    }
  }

  /** `Replace(j)` is the one value that keeps the shape of `j` and is settled. */
  lemma {:induction false} ReplaceCharacterized(j: Json, b: Json, key: string, v: Json)
    requires IsContainer(j)
    ensures b == Replace(j, key, v) <==> SameOutside(j, b, key) && Settled(b, key, v)
  {
    if b == Replace(j, key, v) {
      ReplaceKeepsShape(j, key, v);
      ReplaceSettles(j, key, v);
    } else if SameOutside(j, b, key) && Settled(b, key, v) {
      ShapeAndSettledDetermine(j, b, key, v);
    }
  }

  lemma {:induction false} ShapeAndSettledDetermine(j: Json, b: Json, key: string, v: Json)
    requires IsContainer(j) && SameOutside(j, b, key) && Settled(b, key, v)
    ensures b == Replace(j, key, v)
    decreases j
  {
    match j
    case Obj(es) =>
      var r := Replace(j, key, v);
      assert |r.entries| == |es| && forall i :: 0 <= i < |es| ==> r.entries[i] == EntryStep(es[i].0, es[i].1, key, v);
      forall i | 0 <= i < |es| ensures r.entries[i] == b.entries[i] {
        if es[i].0 != key && IsContainer(es[i].1) {
          ShapeAndSettledDetermine(es[i].1, b.entries[i].1, key, v);
        }
      }
      assert r.entries == b.entries;
    case Arr(xs) =>
      var r := Replace(j, key, v);
      assert |r.items| == |xs| && forall i :: 0 <= i < |xs| ==> r.items[i] == ItemStep(xs[i], key, v);
      forall i | 0 <= i < |xs| ensures r.items[i] == b.items[i] {
        if IsContainer(xs[i]) {
          ShapeAndSettledDetermine(xs[i], b.items[i], key, v);
        }
      }
      assert r.items == b.items;
  }

  lemma {:induction false} KeyAbsentSettled(j: Json, key: string, v: Json)
    requires KeyAbsent(j, key)
    ensures Settled(j, key, v)
    decreases j
  {
    match j
    case Obj(es) =>
      forall i | 0 <= i < |es| ensures Settled(es[i].1, key, v) {
        KeyAbsentSettled(es[i].1, key, v);
      }
    case Arr(xs) =>
      forall i | 0 <= i < |xs| ensures Settled(xs[i], key, v) {
        KeyAbsentSettled(xs[i], key, v);
      }
    case _ =>
  }

  /** When the key occurs nowhere the document comes back unchanged. */
  lemma KeyAbsentUnchanged(j: Json, key: string, v: Json)
    requires IsContainer(j) && KeyAbsent(j, key)
    ensures SearchAndReplace(j, key, v) == Ok(j)
  {
    KeyAbsentSettled(j, key, v);
    SettledIsFixpoint(j, key, v);
  }

  /** Unique keys survive the walk when the new value has them too. */
  lemma {:induction false} ReplaceKeepsUniqueKeys(j: Json, key: string, v: Json)
    requires IsContainer(j) && UniqueKeys(j) && UniqueKeys(v)
    ensures UniqueKeys(Replace(j, key, v))
    decreases j
  {
    match j
    case Obj(es) =>
      var r := Replace(j, key, v);
      assert |r.entries| == |es| && forall i :: 0 <= i < |es| ==> r.entries[i] == EntryStep(es[i].0, es[i].1, key, v);
      forall i | 0 <= i < |es| ensures UniqueKeys(r.entries[i].1) {
        if es[i].0 != key && IsContainer(es[i].1) {
          ReplaceKeepsUniqueKeys(es[i].1, key, v);
        }
      }
    case Arr(xs) =>
      var r := Replace(j, key, v);
      assert |r.items| == |xs| && forall i :: 0 <= i < |xs| ==> r.items[i] == ItemStep(xs[i], key, v);
      forall i | 0 <= i < |xs| ensures UniqueKeys(r.items[i]) {
        if IsContainer(xs[i]) {
          ReplaceKeepsUniqueKeys(xs[i], key, v);
        }
      }
  }

  /** `{"level": 1, "nested": {"level": 2}}` with key "level" and value 9
      becomes `{"level": 9, "nested": {"level": 9}}`. */
  lemma NestedLevelExample()
    ensures SearchAndReplace(Obj([("level", Int(1)), ("nested", Obj([("level", Int(2))]))]), "level", Int(9))
         == Ok(Obj([("level", Int(9)), ("nested", Obj([("level", Int(9))]))]))
  {
    var inner := Obj([("level", Int(2))]);
    var ri := Replace(inner, "level", Int(9));
    assert ri.entries[0] == ("level", Int(9));
    assert ri.entries == [("level", Int(9))];
    var j := Obj([("level", Int(1)), ("nested", inner)]);
    var r := Replace(j, "level", Int(9));
    assert r.entries[0] == EntryStep(j.entries[0].0, j.entries[0].1, "level", Int(9));
    assert r.entries[1] == EntryStep(j.entries[1].0, j.entries[1].1, "level", Int(9));
    assert r.entries[0] == ("level", Int(9));
    assert r.entries[1] == ("nested", ri);
    assert r.entries == [("level", Int(9)), ("nested", ri)];
  }

  /** The new value goes in as it is and the old one is dropped unread:
      `{"a": {"a": 1}}` with value `{"a": 5}` becomes `{"a": {"a": 5}}`,
      and the key inside the new value is not visited. */
  lemma NewValueNotRescannedExample()
    ensures SearchAndReplace(Obj([("a", Obj([("a", Int(1))]))]), "a", Obj([("a", Int(5))]))
         == Ok(Obj([("a", Obj([("a", Int(5))]))]))
  {
    var v := Obj([("a", Int(5))]);
    var r := Replace(Obj([("a", Obj([("a", Int(1))]))]), "a", v);
    assert r.entries[0] == ("a", v);
    assert r.entries == [("a", v)];
  }

  /** `list.index`: the position of the first element equal to `x`. */
  function IndexOf(s: seq<Json>, x: Json): (i: nat)
    requires x in s
    ensures i < |s| && s[i] == x
    ensures forall k :: 0 <= k < i ==> s[k] != x
  {
    if s[0] == x then 0 else 1 + IndexOf(s[1..], x)
  }

  /** searchAndReplace as the script runs it: the dict loop assigns each
      slot in key order; the list loop finds each element's slot again
      with `var.index(item)` and assigns there. */
  method SearchAndReplaceInPlace(tree: Json, searchKey: string, newValue: Json) returns (r: Result<Json>)
    ensures r == SearchAndReplace(tree, searchKey, newValue)
    decreases tree
  {
    match tree
    case Obj(es) =>
      var entries := es;
      for n := 0 to |es|
        invariant |entries| == |es|
        invariant forall k :: 0 <= k < n ==> entries[k] == EntryStep(es[k].0, es[k].1, searchKey, newValue)
        invariant forall k :: n <= k < |es| ==> entries[k] == es[k]
      {
        var (key, val) := entries[n];
        if key == searchKey {
          entries := entries[n := (key, newValue)];
        } else if IsContainer(val) {
          assert val == es[n].1;
          var sub := SearchAndReplaceInPlace(val, searchKey, newValue);
          entries := entries[n := (key, sub.value)];
        }
      }
      assert entries == Replace(tree, searchKey, newValue).entries;
      r := Ok(Obj(entries));
    case Arr(xs) =>
      var items := xs;
      for n := 0 to |xs|
        invariant |items| == |xs|
        invariant forall k :: 0 <= k < n ==> items[k] == ItemStep(xs[k], searchKey, newValue)
        invariant forall k :: n <= k < |xs| ==> items[k] == xs[k]
      {
        var item := items[n];
        var i := IndexOf(items, item);
        if IsContainer(items[i]) {
          assert items[i] == xs[n];
          var sub := SearchAndReplaceInPlace(items[i], searchKey, newValue);
          if i < n {
            // the slot found holds an already walked element equal to this
            // one, so both are fixed points of the walk
            ItemStepIdempotent(xs[i], searchKey, newValue);
          }
          items := items[i := sub.value];
        }
      }
      assert items == Replace(tree, searchKey, newValue).items;
      r := Ok(Arr(items));
    case _ =>
      r := Err(TypeError(NotContainerMessage));
  }
}

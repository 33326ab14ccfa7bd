// Flattening of nested Dgraph results into dotted keys.

module DgraphFlatten {
  import opened Numerals

  /** A JSON value; scalars are leaves. A dictionary is its entries in order. */
  datatype Json = Leaf(text: string) | List(items: seq<Json>) | Dict(fields: seq<(string, Json)>)

  function Size(v: Json): nat {
    match v
    case Leaf(_) => 0
    case List(items) => |items|
    case Dict(fields) => |fields|
  }

  /** The key component of child i: its index in a list, its key in a dictionary. */
  function Label(v: Json, i: nat): string
    requires i < Size(v)
  {
    match v
    case List(_) => Show(i)
    case Dict(fields) => fields[i].0
  }

  function Child(v: Json, i: nat): (c: Json)
    requires i < Size(v)
    ensures c < v
  {
    match v
    case List(items) => items[i]
    case Dict(fields) => fields[i].1
  }

  /** The keys of a dictionary are distinct. */
  ghost predicate WellFormed(v: Json)
    decreases v
  {
    && (v.Dict? ==> forall i, j :: 0 <= i < j < |v.fields| ==> v.fields[i].0 != v.fields[j].0)
    && forall i :: 0 <= i < Size(v) ==> WellFormed(Child(v, i))
  }

  /** No dictionary key holds a dot. */
  ghost predicate DotFree(v: Json)
    decreases v
  {
    forall i :: 0 <= i < Size(v) ==> '.' !in Label(v, i) && DotFree(Child(v, i))
  }

  /** The leaves in order, each with the path of labels that leads to it. */
  function Leaves(v: Json): seq<(seq<string>, Json)>
    decreases v, Size(v) + 1
  {
    if v.Leaf? then [([], v)] else LeavesOf(v, Size(v))
  }

  function LeavesOf(v: Json, n: nat): seq<(seq<string>, Json)>
    requires n <= Size(v)
    decreases v, n
  {
    if n == 0 then [] else LeavesOf(v, n - 1) + Under(Label(v, n - 1), Leaves(Child(v, n - 1)))
  }

  lemma LeavesInSteps(v: Json, n: nat)
    requires n <= Size(v)
    ensures LeavesOf(v, n) ==
      if n == 0 then [] else LeavesOf(v, n - 1) + Under(Label(v, n - 1), Leaves(Child(v, n - 1)))
  {
  }

  /** The same leaves one level further down. */
  function Under(component: string, leaves: seq<(seq<string>, Json)>): (r: seq<(seq<string>, Json)>)
    ensures |r| == |leaves|
    ensures forall i :: 0 <= i < |r| ==> r[i] == ([component] + leaves[i].0, leaves[i].1)
  {
    if leaves == [] then [] else [([component] + leaves[0].0, leaves[0].1)] + Under(component, leaves[1..])
  }

  /** The flattened key of a path. */
  function Dotted(key: string, path: seq<string>): string
    decreases |path|
  {
    if path == [] then key else Dotted(key + "." + path[0], path[1..])
  }

  /** A dictionary after the leaves are written under their flattened keys, in order. */
  function Written(before: map<string, Json>, key: string, leaves: seq<(seq<string>, Json)>): map<string, Json> {
    if leaves == [] then before
    else
      var last := leaves[|leaves| - 1];
      Written(before, key, leaves[..|leaves| - 1])[Dotted(key, last.0) := last.1]
  }

  lemma {:induction false} WrittenInTwo(before: map<string, Json>, key: string, xs: seq<(seq<string>, Json)>,
                                        ys: seq<(seq<string>, Json)>)
    ensures Written(before, key, xs + ys) == Written(Written(before, key, xs), key, ys)
    decreases |ys|
  {
    if ys == [] {
      assert xs + ys == xs;
    } else {
      var front := ys[..|ys| - 1];
      WrittenInTwo(before, key, xs, front);
      assert (xs + ys)[..|xs + ys| - 1] == xs + front;
    }
  }

  lemma {:induction false} WrittenUnder(before: map<string, Json>, key: string, component: string,
                                        leaves: seq<(seq<string>, Json)>)
    ensures Written(before, key, Under(component, leaves)) == Written(before, key + "." + component, leaves)
    decreases |leaves|
  {
    if leaves != [] {
      var front := leaves[..|leaves| - 1];
      WrittenUnder(before, key, component, front);
      assert Under(component, leaves)[..|leaves| - 1] == Under(component, front);
      var path := leaves[|leaves| - 1].0;
      assert ([component] + path)[1..] == path;
    }
  }

  /** The shared dictionary that the recursion writes into. */
  class ReducedItem {
    var entries: map<string, Json>

    constructor ()
      ensures entries == map[]
    {
      entries := map[];
    }
  }

  method ReduceItem(reduced: ReducedItem, key: string, value: Json)
    modifies reduced
    ensures reduced.entries == Written(old(reduced.entries), key, Leaves(value))
    decreases value
  {
    hide Written, LeavesOf;
    ghost var before := reduced.entries;
    WrittenNone(before, key, value);
    match value
    case Leaf(_) =>
      reduced.entries := reduced.entries[key := value];
    case List(items) =>
      for i := 0 to |items|
        invariant reduced.entries == Written(before, key, LeavesOf(value, i))
      {
        WrittenStep(before, key, value, i);
        ReduceItem(reduced, key + "." + Show(i), items[i]);
      }
    case Dict(fields) =>
      for i := 0 to |fields|
        invariant reduced.entries == Written(before, key, LeavesOf(value, i))
      {
        WrittenStep(before, key, value, i);
        ReduceItem(reduced, key + "." + fields[i].0, fields[i].1);
      }
  }

  lemma WrittenNone(before: map<string, Json>, key: string, v: Json)
    ensures Written(before, key, LeavesOf(v, 0)) == before
    ensures v.Leaf? ==> Written(before, key, Leaves(v)) == before[key := v]
  {
    if v.Leaf? {
      assert Leaves(v)[..0] == [];
    }
  }

  lemma WrittenStep(before: map<string, Json>, key: string, v: Json, i: nat)
    requires i < Size(v)
    ensures Written(before, key, LeavesOf(v, i + 1)) ==
      Written(Written(before, key, LeavesOf(v, i)), key + "." + Label(v, i), Leaves(Child(v, i)))
  {
    WrittenInTwo(before, key, LeavesOf(v, i), Under(Label(v, i), Leaves(Child(v, i))));
    WrittenUnder(Written(before, key, LeavesOf(v, i)), key, Label(v, i), Leaves(Child(v, i)));
  }

  // ----- Every leaf keeps its own key -----

  ghost predicate DistinctPaths(leaves: seq<(seq<string>, Json)>) {
    forall i, j :: 0 <= i < j < |leaves| ==> leaves[i].0 != leaves[j].0
  }

  lemma LabelsDiffer(v: Json, i: nat, j: nat)
    requires WellFormed(v) && i < j < Size(v)
    ensures Label(v, i) != Label(v, j)
  {
    if v.List? && Show(i) == Show(j) {
      ShowIsInjective(i, j);
    }
  }

  /** A leaf below the first n children of a node is a leaf of one of them. */
  lemma {:induction false} LeafBelow(v: Json, n: nat, k: nat) returns (c: nat, m: nat)
    requires n <= Size(v) && k < |LeavesOf(v, n)|
    ensures c < n && m < |Leaves(Child(v, c))|
    ensures LeavesOf(v, n)[k] == ([Label(v, c)] + Leaves(Child(v, c))[m].0, Leaves(Child(v, c))[m].1)
    decreases n
  {
    hide Leaves, LeavesOf, Under;
    LeavesInSteps(v, n);
    if k < |LeavesOf(v, n - 1)| {
      c, m := LeafBelow(v, n - 1, k);
    } else {
      c, m := n - 1, k - |LeavesOf(v, n - 1)|;
    }
  }

  lemma {:induction false} PathsDiffer(v: Json)
    requires WellFormed(v)
    ensures DistinctPaths(Leaves(v))
    decreases v, Size(v) + 1
  {
    if !v.Leaf? {
      PathsDifferUpTo(v, Size(v));
    }
  }

  lemma {:induction false} PathsDifferUpTo(v: Json, n: nat)
    requires WellFormed(v) && n <= Size(v)
    ensures DistinctPaths(LeavesOf(v, n))
    decreases v, n
  {
    hide Leaves, LeavesOf;
    LeavesInSteps(v, n);
    if n > 0 {
      PathsDifferUpTo(v, n - 1);
      PathsDiffer(Child(v, n - 1));
      var xs, ys := LeavesOf(v, n - 1), Leaves(Child(v, n - 1));
      UnderKeepsPathsDistinct(Label(v, n - 1), ys);
      forall i | 0 <= i < |xs|
        ensures xs[i].0 != [] && xs[i].0[0] != Label(v, n - 1)
      {
        var c, m := LeafBelow(v, n - 1, i);
        LabelsDiffer(v, c, n - 1);
      }
    }
  }

  lemma UnderKeepsPathsDistinct(component: string, leaves: seq<(seq<string>, Json)>)
    requires DistinctPaths(leaves)
    ensures DistinctPaths(Under(component, leaves))
  {
    hide Under;
    forall i, j | 0 <= i < j < |leaves|
      ensures Under(component, leaves)[i].0 != Under(component, leaves)[j].0
    {
      assert ([component] + leaves[i].0)[1..] == leaves[i].0;
      assert ([component] + leaves[j].0)[1..] == leaves[j].0;
    }
  }

  /** The key component that follows position i in a flattened key. */
  function Component(s: string, i: nat): string
    requires i <= |s|
    decreases |s| - i
  {
    if i == |s| || s[i] == '.' then "" else [s[i]] + Component(s, i + 1)
  }

  /** The path read back from a flattened key. */
  function PathOf(s: string, i: nat): seq<string>
    decreases |s| - i
  {
    if i >= |s| then []
    else
      var c := Component(s, i + 1);
      [c] + PathOf(s, i + 1 + |c|)
  }

  ghost predicate Plain(path: seq<string>) {
    forall k :: 0 <= k < |path| ==> '.' !in path[k]
  }

  lemma {:induction false} DottedExtends(key: string, path: seq<string>)
    ensures key <= Dotted(key, path)
    ensures path != [] ==> |key| + 1 + |path[0]| <= |Dotted(key, path)| && key + "." + path[0] <= Dotted(key, path)
    ensures path == [] <==> |Dotted(key, path)| == |key|
    ensures |path| > 1 ==>
              |Dotted(key, path)| > |key| + 1 + |path[0]| && Dotted(key, path)[|key| + 1 + |path[0]|] == '.'
    decreases |path|
  {
    if path != [] {
      DottedExtends(key + "." + path[0], path[1..]);
      if |path| > 1 {
        var k := key + "." + path[0];
        assert (k + "." + path[1])[|k|] == '.';
      }
    }
  }

  lemma {:induction false} ComponentIs(s: string, i: nat, c: string)
    requires '.' !in c && i + |c| <= |s| && s[i..i + |c|] == c
    requires i + |c| == |s| || s[i + |c|] == '.'
    ensures Component(s, i) == c
    decreases |c|
  {
    if c != "" {
      assert s[i] == c[0] && c[0] in c;
      assert s[i + 1..i + 1 + |c[1..]|] == c[1..];
      ComponentIs(s, i + 1, c[1..]);
      assert c == [c[0]] + c[1..];
    }
  }

  /** The path of a leaf is recoverable from its flattened key. */
  lemma {:induction false} PathIsRecoverable(key: string, path: seq<string>)
    requires Plain(path)
    ensures |key| <= |Dotted(key, path)| && PathOf(Dotted(key, path), |key|) == path
    decreases |path|
  {
    DottedExtends(key, path);
    hide Component, Dotted;
    if path == [] {
      NothingAppended(key);
    } else {
      var longer := key + "." + path[0];
      OneComponent(key, path);
      PathIsRecoverable(longer, path[1..]);
      assert path == [path[0]] + path[1..];
    }
  }

  lemma NothingAppended(key: string)
    ensures Dotted(key, []) == key
  {
  }

  /** The first component of the path is the first one read back. */
  lemma OneComponent(key: string, path: seq<string>)
    requires path != [] && Plain(path)
    ensures var s, longer := Dotted(key, path), key + "." + path[0];
      s == Dotted(longer, path[1..]) && PathOf(s, |key|) == [path[0]] + PathOf(s, |longer|)
  {
    hide PathOf, Component;
    var s, longer, c := Dotted(key, path), key + "." + path[0], path[0];
    DottedExtends(key, path);
    DottedExtends(longer, path[1..]);
    assert |longer| == |key| + 1 + |c|;
    EndOf(key, c);
    SliceOfPrefix(s, longer, |key| + 1, c);
    ReadAt(s, |key|, c);
  }

  lemma EndOf(key: string, c: string)
    ensures (key + "." + c)[|key| + 1..] == c
  {
  }

  lemma SliceOfPrefix(s: string, t: string, n: nat, c: string)
    requires t <= s && |t| == n + |c| && t[n..] == c
    ensures s[n..n + |c|] == c
  {
    forall i | 0 <= i < |c|
      ensures s[n + i] == c[i]
    {
      assert t[n..][i] == t[n + i];
    }
  }

  lemma ReadAt(s: string, i: nat, c: string)
    requires i + 1 + |c| <= |s| && s[i + 1..i + 1 + |c|] == c && '.' !in c
    requires |s| == i + 1 + |c| || s[i + 1 + |c|] == '.'
    ensures PathOf(s, i) == [c] + PathOf(s, i + 1 + |c|)
  {
    hide PathOf, Component;
    ComponentIs(s, i + 1, c);
    PathInSteps(s, i);
  }

  lemma PathInSteps(s: string, i: nat)
    requires i < |s|
    ensures PathOf(s, i) == [Component(s, i + 1)] + PathOf(s, i + 1 + |Component(s, i + 1)|)
  {
  }

  lemma {:induction false} PathsArePlain(v: Json, k: nat)
    requires DotFree(v) && k < |Leaves(v)|
    ensures Plain(Leaves(v)[k].0)
    decreases v, Size(v) + 1
  {
    if !v.Leaf? {
      PathsArePlainUpTo(v, Size(v), k);
    }
  }

  lemma {:induction false} PathsArePlainUpTo(v: Json, n: nat, k: nat)
    requires DotFree(v) && n <= Size(v) && k < |LeavesOf(v, n)|
    ensures Plain(LeavesOf(v, n)[k].0)
    decreases v, n
  {
    hide Leaves, LeavesOf, Under, Plain;
    LeavesInSteps(v, n);
    var m := |LeavesOf(v, n - 1)|;
    if k < m {
      PathsArePlainUpTo(v, n - 1, k);
    } else {
      var component, child := Label(v, n - 1), Child(v, n - 1);
      PathsArePlain(child, k - m);
      OneMoreComponent(component, Leaves(child)[k - m].0);
    }
  }

  lemma OneMoreComponent(component: string, path: seq<string>)
    requires '.' !in component && Plain(path)
    ensures Plain([component] + path)
  {
  }

  ghost predicate DistinctKeys(key: string, leaves: seq<(seq<string>, Json)>) {
    forall i, j :: 0 <= i < j < |leaves| ==> Dotted(key, leaves[i].0) != Dotted(key, leaves[j].0)
  }

  // ----- Which trees lose leaves -----

  /** What a path adds to the key it starts from. */
  function Spelt(path: seq<string>): string
    decreases |path|
  {
    if path == [] then "" else "." + path[0] + Spelt(path[1..])
  }

  lemma {:induction false} DottedIsSpelt(key: string, path: seq<string>)
    ensures Dotted(key, path) == key + Spelt(path)
    decreases |path|
  {
    if path == [] {
      assert key + "" == key;
    } else {
      DottedIsSpelt(key + "." + path[0], path[1..]);
      assert key + "." + path[0] + Spelt(path[1..]) == key + ("." + path[0] + Spelt(path[1..]));
    }
  }

  /** The key b continues the key a by a dot. */
  predicate Continues(a: string, b: string) {
    a + "." <= b
  }

  lemma ContinuationHasDot(a: string, b: string)
    requires Continues(a, b)
    ensures |a| < |b| && b[|a|] == '.'
  {
    assert b[|a|] == (a + ".")[|a|];
  }

  /** After the continued key a, the path p spells the rest of the continuing key b, and then q. */
  predicate Rejoins(a: string, p: seq<string>, b: string, q: seq<string>) {
    Continues(a, b) && Spelt(p) == b[|a|..] + Spelt(q)
  }

  /** Where the paths part, the key of q continues the key of p by a dot, and p spells out the difference. */
  predicate PartAtDot(p: seq<string>, q: seq<string>)
    decreases |p|
  {
    && p != [] && q != []
    && if p[0] == q[0] then PartAtDot(p[1..], q[1..]) else Rejoins(p[0], p[1..], q[0], q[1..])
  }

  lemma SpeltStart(path: seq<string>)
    ensures Spelt(path) == "" || Spelt(path)[0] == '.'
  {
  }

  /** Two components with the same continuation are equal, or one continues the other by a dot. */
  lemma ComponentsPart(a: string, p: seq<string>, b: string, q: seq<string>)
    requires a + Spelt(p) == b + Spelt(q) && |a| < |b|
    ensures Rejoins(a, p, b, q)
  {
    hide Spelt;
    var s, t := a + Spelt(p), b + Spelt(q);
    SpeltStart(p);
    assert t[..|b|] == b && s[..|a|] == a;
    assert b[|a|] == s[|a|] == '.';
    assert b[..|a|] == a;
    assert b == a + b[|a|..];
    assert s[|a|..] == Spelt(p);
    assert t[|a|..] == b[|a|..] + Spelt(q);
  }

  lemma RejoinedAgree(a: string, p: seq<string>, b: string, q: seq<string>)
    requires Rejoins(a, p, b, q)
    ensures a + Spelt(p) == b + Spelt(q)
  {
    hide Spelt;
    assert b == a + b[|a|..];
  }

  lemma SameLength(a: string, x: string, b: string, y: string)
    requires a + x == b + y && |a| == |b|
    ensures a == b
  {
    assert (a + x)[..|a|] == a && (b + y)[..|b|] == b;
  }

  /** Different components: the rest of one path makes up for the difference. */
  lemma DifferentComponents(a: string, p: seq<string>, b: string, q: seq<string>)
    requires a != b
    ensures a + Spelt(p) == b + Spelt(q) <==> Rejoins(a, p, b, q) || Rejoins(b, q, a, p)
  {
    hide Spelt, Rejoins;
    if a + Spelt(p) == b + Spelt(q) {
      if |a| < |b| {
        ComponentsPart(a, p, b, q);
      } else if |b| < |a| {
        ComponentsPart(b, q, a, p);
      } else {
        SameLength(a, Spelt(p), b, Spelt(q));
      }
    } else if Rejoins(a, p, b, q) {
      RejoinedAgree(a, p, b, q);
    } else if Rejoins(b, q, a, p) {
      RejoinedAgree(b, q, a, p);
    }
  }

  lemma SameStart(a: string, x: string, b: string, y: string)
    ensures "." + a + x == "." + b + y <==> a + x == b + y
    ensures a == b ==> (a + x == b + y <==> x == y)
  {
    assert ("." + a + x)[1..] == a + x && ("." + b + y)[1..] == b + y;
    assert "." + a + x == "." + (a + x) && "." + b + y == "." + (b + y);
    assert (a + x)[|a|..] == x;
    if a == b {
      assert (b + y)[|a|..] == y;
    }
  }

  lemma {:induction false} SpeltAlikeExactly(p: seq<string>, q: seq<string>)
    requires p != q
    ensures Spelt(p) == Spelt(q) <==> PartAtDot(p, q) || PartAtDot(q, p)
    decreases |p|
  {
    if p != [] && q != [] {
      hide Rejoins;
      SameStart(p[0], Spelt(p[1..]), q[0], Spelt(q[1..]));
      if p[0] == q[0] {
        assert p == [p[0]] + p[1..] && q == [q[0]] + q[1..];
        SpeltAlikeExactly(p[1..], q[1..]);
      } else {
        DifferentComponents(p[0], p[1..], q[0], q[1..]);
      }
    }
  }

  /**
   * Two different paths share a flattened key exactly when, where they part, one has a component a
   * and the other a component a.r, and the first goes on to spell r and then the rest of the second.
   */
  lemma KeysCoincideExactly(key: string, p: seq<string>, q: seq<string>)
    requires p != q
    ensures Dotted(key, p) == Dotted(key, q) <==> PartAtDot(p, q) || PartAtDot(q, p)
  {
    DottedIsSpelt(key, p);
    DottedIsSpelt(key, q);
    assert (key + Spelt(p))[|key|..] == Spelt(p) && (key + Spelt(q))[|key|..] == Spelt(q);
    SpeltAlikeExactly(p, q);
  }

  /** A leaf below x, reached under the key a, meets a leaf below y, reached under the key b. */
  ghost predicate Meet(a: string, x: Json, b: string, y: Json) {
    exists i, j :: 0 <= i < |Leaves(x)| && 0 <= j < |Leaves(y)| && Rejoins(a, Leaves(x)[i].0, b, Leaves(y)[j].0)
  }

  /** No two entries of the dictionary meet. */
  ghost predicate Apart(fields: seq<(string, Json)>) {
    forall i, j :: 0 <= i < |fields| && 0 <= j < |fields| ==>
      !Meet(fields[i].0, fields[i].1, fields[j].0, fields[j].1)
  }

  /** In no dictionary of the tree do two entries meet. */
  ghost predicate Separate(v: Json)
    decreases v
  {
    (v.Dict? ==> Apart(v.fields)) && forall i :: 0 <= i < Size(v) ==> Separate(Child(v, i))
  }

  /** k is the flattened key of one of the leaves. */
  ghost predicate KeyOfSome(key: string, leaves: seq<(seq<string>, Json)>, k: string) {
    exists i :: 0 <= i < |leaves| && Dotted(key, leaves[i].0) == k
  }

  lemma KeysInTwo(key: string, front: seq<(seq<string>, Json)>, last: (seq<string>, Json))
    ensures forall k :: KeyOfSome(key, front + [last], k) <==> KeyOfSome(key, front, k) || k == Dotted(key, last.0)
    ensures DistinctKeys(key, front + [last]) <==>
      DistinctKeys(key, front) && !KeyOfSome(key, front, Dotted(key, last.0))
  {
    hide Dotted;
    var all := front + [last];
    assert forall i :: 0 <= i < |front| ==> all[i] == front[i];
    forall k
      ensures KeyOfSome(key, all, k) <==> KeyOfSome(key, front, k) || k == Dotted(key, last.0)
    {
      if KeyOfSome(key, front, k) {
        var i :| 0 <= i < |front| && Dotted(key, front[i].0) == k;
        assert Dotted(key, all[i].0) == k;
      }
      assert all[|front|] == last;
    }
    if DistinctKeys(key, all) {
      forall i, j | 0 <= i < j < |front|
        ensures Dotted(key, front[i].0) != Dotted(key, front[j].0)
      {
        assert Dotted(key, all[i].0) != Dotted(key, all[j].0);
      }
      forall i | 0 <= i < |front|
        ensures Dotted(key, front[i].0) != Dotted(key, last.0)
      {
        assert Dotted(key, all[i].0) != Dotted(key, all[|front|].0);
      }
    }
  }

  /** Writing into an empty dictionary keeps one entry per flattened key. */
  lemma {:induction false} OneEntryPerKey(key: string, leaves: seq<(seq<string>, Json)>)
    ensures |Written(map[], key, leaves)| <= |leaves|
    ensures |Written(map[], key, leaves)| == |leaves| <==> DistinctKeys(key, leaves)
    ensures forall k :: k in Written(map[], key, leaves) <==> KeyOfSome(key, leaves, k)
    decreases |leaves|
  {
    hide Dotted, KeyOfSome, DistinctKeys;
    if leaves == [] {
      NoKeys(key);
    } else {
      var front, last := leaves[..|leaves| - 1], leaves[|leaves| - 1];
      OneEntryPerKey(key, front);
      assert leaves == front + [last];
      KeysInTwo(key, front, last);
      var before, k := Written(map[], key, front), Dotted(key, last.0);
      assert before[k := last.1].Keys == before.Keys + {k};
    }
  }

  lemma NoKeys(key: string)
    ensures DistinctKeys(key, []) && forall k :: !KeyOfSome(key, [], k)
  {
  }

  /** With distinct keys every leaf is found under its own key. */
  lemma {:induction false} EveryLeafIsKept(before: map<string, Json>, key: string,
                                           leaves: seq<(seq<string>, Json)>, i: nat)
    requires DistinctKeys(key, leaves) && i < |leaves|
    ensures Dotted(key, leaves[i].0) in Written(before, key, leaves)
    ensures Written(before, key, leaves)[Dotted(key, leaves[i].0)] == leaves[i].1
    decreases |leaves|
  {
    if i < |leaves| - 1 {
      var front := leaves[..|leaves| - 1];
      assert forall k, l :: 0 <= k < l < |front| ==> Dotted(key, leaves[k].0) != Dotted(key, leaves[l].0);
      EveryLeafIsKept(before, key, front, i);
      assert Dotted(key, leaves[i].0) != Dotted(key, leaves[|leaves| - 1].0);
    }
  }

  // ----- The condition is exact -----

  /** No leaf of the first list spells like one of the second. */
  ghost predicate Cross(xs: seq<(seq<string>, Json)>, ys: seq<(seq<string>, Json)>) {
    forall i, j :: 0 <= i < |xs| && 0 <= j < |ys| ==> Spelt(xs[i].0) != Spelt(ys[j].0)
  }

  ghost predicate DistinctSpelt(leaves: seq<(seq<string>, Json)>) {
    forall i, j :: 0 <= i < j < |leaves| ==> Spelt(leaves[i].0) != Spelt(leaves[j].0)
  }

  lemma DistinctInTwo(xs: seq<(seq<string>, Json)>, ys: seq<(seq<string>, Json)>)
    ensures DistinctSpelt(xs + ys) <==> DistinctSpelt(xs) && DistinctSpelt(ys) && Cross(xs, ys)
  {
    hide Spelt;
    var zs := xs + ys;
    assert forall i :: 0 <= i < |xs| ==> zs[i] == xs[i];
    assert forall j :: 0 <= j < |ys| ==> zs[|xs| + j] == ys[j];
    if DistinctSpelt(zs) {
      assert DistinctSpelt(ys) by {
        forall i, j | 0 <= i < j < |ys|
          ensures Spelt(ys[i].0) != Spelt(ys[j].0)
        {
          assert Spelt(zs[|xs| + i].0) != Spelt(zs[|xs| + j].0);
        }
      }
      assert Cross(xs, ys) by {
        forall i, j | 0 <= i < |xs| && 0 <= j < |ys|
          ensures Spelt(xs[i].0) != Spelt(ys[j].0)
        {
          assert Spelt(zs[i].0) != Spelt(zs[|xs| + j].0);
        }
      }
    }
  }

  lemma CrossInTwo(xs: seq<(seq<string>, Json)>, ys: seq<(seq<string>, Json)>, zs: seq<(seq<string>, Json)>)
    ensures Cross(xs + ys, zs) <==> Cross(xs, zs) && Cross(ys, zs)
  {
    hide Spelt;
    var all := xs + ys;
    assert forall i :: 0 <= i < |xs| ==> all[i] == xs[i];
    assert forall j :: 0 <= j < |ys| ==> all[|xs| + j] == ys[j];
    if Cross(all, zs) {
      forall j, k | 0 <= j < |ys| && 0 <= k < |zs|
        ensures Spelt(ys[j].0) != Spelt(zs[k].0)
      {
        assert Spelt(all[|xs| + j].0) != Spelt(zs[k].0);
      }
    }
  }

  lemma SpeltBelow(a: string, p: seq<string>)
    ensures Spelt([a] + p) == "." + a + Spelt(p)
  {
    assert ([a] + p)[1..] == p;
  }

  lemma BelowAlike(a: string, p: seq<string>, b: string, q: seq<string>)
    ensures a == b ==> (Spelt([a] + p) == Spelt([b] + q) <==> Spelt(p) == Spelt(q))
    ensures a != b ==> (Spelt([a] + p) == Spelt([b] + q) <==> Rejoins(a, p, b, q) || Rejoins(b, q, a, p))
  {
    SpeltBelow(a, p);
    SpeltBelow(b, q);
    hide Spelt, Rejoins;
    SameStart(a, Spelt(p), b, Spelt(q));
    if a != b {
      DifferentComponents(a, p, b, q);
    }
  }

  lemma UnderKeepsDistinct(a: string, leaves: seq<(seq<string>, Json)>)
    ensures DistinctSpelt(Under(a, leaves)) <==> DistinctSpelt(leaves)
  {
    hide Spelt, Under;
    forall i, j | 0 <= i < j < |leaves|
      ensures Spelt(Under(a, leaves)[i].0) == Spelt(Under(a, leaves)[j].0) <==> Spelt(leaves[i].0) == Spelt(leaves[j].0)
    {
      BelowAlike(a, leaves[i].0, a, leaves[j].0);
    }
  }

  lemma CrossUnder(a: string, x: Json, b: string, y: Json)
    requires a != b
    ensures Cross(Under(a, Leaves(x)), Under(b, Leaves(y))) <==> !Meet(a, x, b, y) && !Meet(b, y, a, x)
  {
    hide Spelt, Under, Leaves, Rejoins;
    var xs, ys := Leaves(x), Leaves(y);
    forall i, j | 0 <= i < |xs| && 0 <= j < |ys|
      ensures Spelt(Under(a, xs)[i].0) == Spelt(Under(b, ys)[j].0) <==>
                Rejoins(a, xs[i].0, b, ys[j].0) || Rejoins(b, ys[j].0, a, xs[i].0)
    {
      BelowAlike(a, xs[i].0, b, ys[j].0);
    }
  }

  ghost predicate MeetEither(v: Json, i: nat, j: nat)
    requires i < Size(v) && j < Size(v)
  {
    Meet(Label(v, i), Child(v, i), Label(v, j), Child(v, j)) || Meet(Label(v, j), Child(v, j), Label(v, i), Child(v, i))
  }

  /** Child n meets none of the first m. */
  ghost predicate ApartFrom(v: Json, m: nat, n: nat)
    requires m <= n < Size(v)
  {
    forall i :: 0 <= i < m ==> !MeetEither(v, i, n)
  }

  lemma {:induction false} CrossChildren(v: Json, m: nat, n: nat)
    requires WellFormed(v) && m <= n < Size(v)
    ensures Cross(LeavesOf(v, m), Under(Label(v, n), Leaves(Child(v, n)))) <==> ApartFrom(v, m, n)
    decreases m
  {
    hide Cross, MeetEither, Under, Leaves, LeavesOf;
    var zs := Under(Label(v, n), Leaves(Child(v, n)));
    LeavesInSteps(v, m);
    if m == 0 {
      NothingCrosses(zs);
    } else {
      CrossChildren(v, m - 1, n);
      CrossInTwo(LeavesOf(v, m - 1), Under(Label(v, m - 1), Leaves(Child(v, m - 1))), zs);
      CrossTwo(v, m - 1, n);
    }
  }

  lemma CrossTwo(v: Json, i: nat, j: nat)
    requires WellFormed(v) && i < j < Size(v)
    ensures Cross(Under(Label(v, i), Leaves(Child(v, i))), Under(Label(v, j), Leaves(Child(v, j)))) <==>
            !MeetEither(v, i, j)
  {
    LabelsDiffer(v, i, j);
    CrossUnder(Label(v, i), Child(v, i), Label(v, j), Child(v, j));
  }

  lemma NothingCrosses(zs: seq<(seq<string>, Json)>)
    ensures Cross([], zs) && DistinctSpelt([])
  {
  }

  lemma {:induction false} SpeltApart(v: Json)
    requires WellFormed(v)
    ensures DistinctSpelt(Leaves(v)) <==> Separate(v)
    decreases v, Size(v) + 1
  {
    if !v.Leaf? {
      SpeltApartUpTo(v, Size(v));
      MeetingEntries(v);
    }
  }

  /** The first n children have separate leaves, each on its own and between two of them. */
  ghost predicate ApartUpTo(v: Json, n: nat)
    requires n <= Size(v)
  {
    && (forall i :: 0 <= i < n ==> Separate(Child(v, i)))
    && (forall i, j :: 0 <= i < j < n ==> !MeetEither(v, i, j))
  }

  lemma ApartInSteps(v: Json, n: nat)
    requires n <= Size(v)
    ensures n == 0 ==> ApartUpTo(v, n)
    ensures n > 0 ==>
      (ApartUpTo(v, n) <==> ApartUpTo(v, n - 1) && Separate(Child(v, n - 1)) && ApartFrom(v, n - 1, n - 1))
  {
    hide Separate, MeetEither;
  }

  lemma {:induction false} SpeltApartUpTo(v: Json, n: nat)
    requires WellFormed(v) && n <= Size(v)
    ensures DistinctSpelt(LeavesOf(v, n)) <==> ApartUpTo(v, n)
    decreases v, n
  {
    hide DistinctSpelt, Cross, MeetEither, Under, Leaves, LeavesOf, Separate, ApartUpTo, ApartFrom;
    LeavesInSteps(v, n);
    ApartInSteps(v, n);
    if n == 0 {
      NothingCrosses([]);
    } else {
      var last := Child(v, n - 1);
      SpeltApartUpTo(v, n - 1);
      SpeltApart(last);
      DistinctInTwo(LeavesOf(v, n - 1), Under(Label(v, n - 1), Leaves(last)));
      UnderKeepsDistinct(Label(v, n - 1), Leaves(last));
      CrossChildren(v, n - 1, n - 1);
    }
  }

  lemma NoDotInList(v: Json, i: nat, j: nat)
    requires v.List? && i < Size(v) && j < Size(v)
    ensures !MeetEither(v, i, j)
  {
    NumeralsDoNotContinue(i, j);
    NumeralsDoNotContinue(j, i);
  }

  lemma NumeralsDoNotContinue(i: nat, j: nat)
    ensures !Continues(Show(i), Show(j))
  {
    if Continues(Show(i), Show(j)) {
      ContinuationHasDot(Show(i), Show(j));
    }
  }

  /** Only the entries of a dictionary can meet, and no entry meets itself. */
  lemma MeetingEntries(v: Json)
    requires !v.Leaf?
    ensures (v.Dict? ==> Apart(v.fields)) <==> forall i, j :: 0 <= i < j < Size(v) ==> !MeetEither(v, i, j)
  {
    hide Rejoins;
    if v.List? {
      forall i, j | 0 <= i < j < Size(v)
        ensures !MeetEither(v, i, j)
      {
        NoDotInList(v, i, j);
      }
    } else {
      forall i | 0 <= i < Size(v)
        ensures !Meet(v.fields[i].0, v.fields[i].1, v.fields[i].0, v.fields[i].1)
      {
        NotWithItself(v.fields[i].0, v.fields[i].1);
      }
      EntriesApart(v);
    }
  }

  lemma NotWithItself(a: string, x: Json)
    ensures !Meet(a, x, a, x)
  {
  }

  lemma EntriesApart(v: Json)
    requires v.Dict?
    requires forall i :: 0 <= i < Size(v) ==> !Meet(v.fields[i].0, v.fields[i].1, v.fields[i].0, v.fields[i].1)
    ensures Apart(v.fields) <==> forall i, j :: 0 <= i < j < Size(v) ==> !MeetEither(v, i, j)
  {
    hide Meet;
    if forall i, j :: 0 <= i < j < Size(v) ==> !MeetEither(v, i, j) {
      forall i, j | 0 <= i < |v.fields| && 0 <= j < |v.fields|
        ensures !Meet(v.fields[i].0, v.fields[i].1, v.fields[j].0, v.fields[j].1)
      {
        if i < j {
          assert !MeetEither(v, i, j);
        } else if j < i {
          assert !MeetEither(v, j, i);
        }
      }
    }
  }

  lemma KeysApart(key: string, v: Json)
    requires WellFormed(v)
    ensures DistinctKeys(key, Leaves(v)) <==> Separate(v)
  {
    SpeltApart(v);
    hide Spelt, Dotted, Separate, Leaves;
    var leaves := Leaves(v);
    forall i, j | 0 <= i < j < |leaves|
      ensures Dotted(key, leaves[i].0) == Dotted(key, leaves[j].0) <==> Spelt(leaves[i].0) == Spelt(leaves[j].0)
    {
      DottedAlike(key, leaves[i].0, leaves[j].0);
    }
  }

  lemma DottedAlike(key: string, p: seq<string>, q: seq<string>)
    ensures Dotted(key, p) == Dotted(key, q) <==> Spelt(p) == Spelt(q)
  {
    DottedIsSpelt(key, p);
    DottedIsSpelt(key, q);
    assert (key + Spelt(p))[|key|..] == Spelt(p) && (key + Spelt(q))[|key|..] == Spelt(q);
  }

  /**
   * Flattening into an empty dictionary keeps one entry per leaf exactly when in no dictionary of the
   * tree an entry under a key a and one under a key a.r lead to leaves that spell the same.
   */
  lemma NothingOverwrittenExactly(key: string, v: Json)
    requires WellFormed(v)
    ensures |Written(map[], key, Leaves(v))| == |Leaves(v)| <==> Separate(v)
  {
    KeysApart(key, v);
    OneEntryPerKey(key, Leaves(v));
  }

  /** The paths part at a dictionary below v, where the key of q continues that of p and p rejoins it. */
  ghost predicate PartInside(v: Json, p: seq<string>, q: seq<string>)
    decreases |p|
  {
    && p != [] && q != []
    && if p[0] == q[0] then InSameChild(v, p, q) else v.Dict? && Rejoins(p[0], p[1..], q[0], q[1..])
  }

  ghost predicate InSameChild(v: Json, p: seq<string>, q: seq<string>)
    requires p != [] && q != []
    decreases |p|, 0
  {
    exists c :: 0 <= c < Size(v) && Label(v, c) == p[0] && PartInside(Child(v, c), p[1..], q[1..])
  }

  lemma SameLabelSameChild(v: Json, c: nat, d: nat)
    requires WellFormed(v) && c < Size(v) && d < Size(v) && Label(v, c) == Label(v, d)
    ensures c == d
  {
    if c < d {
      LabelsDiffer(v, c, d);
    } else if d < c {
      LabelsDiffer(v, d, c);
    }
  }

  lemma {:induction false} PartInsideExactly(v: Json, k: nat, l: nat)
    requires WellFormed(v) && k < |Leaves(v)| && l < |Leaves(v)|
    ensures PartInside(v, Leaves(v)[k].0, Leaves(v)[l].0) <==> PartAtDot(Leaves(v)[k].0, Leaves(v)[l].0)
    decreases v
  {
    if !v.Leaf? {
      var c, m := LeafBelow(v, Size(v), k);
      var d, n := LeafBelow(v, Size(v), l);
      var p, q := Leaves(Child(v, c))[m].0, Leaves(Child(v, d))[n].0;
      PathsBelow(v, c, p, d, q);
      if c == d {
        PartInsideExactly(Child(v, c), m, n);
      }
    }
  }

  lemma PathsBelow(v: Json, c: nat, p: seq<string>, d: nat, q: seq<string>)
    requires WellFormed(v) && c < Size(v) && d < Size(v)
    ensures var a, b := [Label(v, c)] + p, [Label(v, d)] + q;
      if c == d then
        (PartInside(v, a, b) <==> PartInside(Child(v, c), p, q)) && (PartAtDot(a, b) <==> PartAtDot(p, q))
      else
        PartInside(v, a, b) <==> PartAtDot(a, b)
  {
    hide Rejoins;
    var a, b := [Label(v, c)] + p, [Label(v, d)] + q;
    assert a[1..] == p && b[1..] == q;
    if c == d {
      forall e | 0 <= e < Size(v) && Label(v, e) == a[0]
        ensures e == c
      {
        SameLabelSameChild(v, e, c);
      }
    } else {
      if a[0] == b[0] {
        SameLabelSameChild(v, c, d);
      }
      if v.List? {
        NumeralsDoNotRejoin(c, p, d, q);
      }
    }
  }

  lemma NumeralsDoNotRejoin(i: nat, p: seq<string>, j: nat, q: seq<string>)
    ensures !Rejoins(Show(i), p, Show(j), q)
  {
    NumeralsDoNotContinue(i, j);
  }

  /**
   * Two leaves of a tree share a flattened key exactly when their paths part at a dictionary that has
   * a key a and a key a.r, and the path through a goes on to spell r and then the rest of the other.
   */
  lemma LeafKeysCoincideExactly(key: string, v: Json, k: nat, l: nat)
    requires WellFormed(v) && k < l < |Leaves(v)|
    ensures var p, q := Leaves(v)[k].0, Leaves(v)[l].0;
      Dotted(key, p) == Dotted(key, q) <==> PartInside(v, p, q) || PartInside(v, q, p)
  {
    PathsDiffer(v);
    PartInsideExactly(v, k, l);
    PartInsideExactly(v, l, k);
    KeysCoincideExactly(key, Leaves(v)[k].0, Leaves(v)[l].0);
  }

  /** No dictionary holds a key that continues another of its keys by a dot. */
  ghost predicate NoKeyContinued(v: Json)
    decreases v
  {
    && (v.Dict? ==> forall i, j :: 0 <= i < |v.fields| && 0 <= j < |v.fields| ==>
         !Continues(v.fields[i].0, v.fields[j].0))
    && forall i :: 0 <= i < Size(v) ==> NoKeyContinued(Child(v, i))
  }

  lemma {:induction false} NoKeyContinuedIsSeparate(v: Json)
    requires NoKeyContinued(v)
    ensures Separate(v)
    decreases v
  {
    forall i | 0 <= i < Size(v)
      ensures Separate(Child(v, i))
    {
      NoKeyContinuedIsSeparate(Child(v, i));
    }
  }

  /** Keys may hold dots: as long as none continues a sibling, every leaf keeps an entry of its own. */
  lemma SiblingsWithoutContinuationKeepAll(key: string, v: Json, i: nat)
    requires WellFormed(v) && NoKeyContinued(v) && i < |Leaves(v)|
    ensures var flat := Written(map[], key, Leaves(v));
      var k := Dotted(key, Leaves(v)[i].0);
      |flat| == |Leaves(v)| && k in flat && flat[k] == Leaves(v)[i].1
  {
    NoKeyContinuedIsSeparate(v);
    NothingOverwrittenExactly(key, v);
    KeysApart(key, v);
    EveryLeafIsKept(map[], key, Leaves(v), i);
  }

  lemma {:induction false} DotFreeIsNotContinued(v: Json)
    requires DotFree(v)
    ensures NoKeyContinued(v)
    decreases v
  {
    if v.Dict? {
      forall i, j | 0 <= i < |v.fields| && 0 <= j < |v.fields|
        ensures !Continues(v.fields[i].0, v.fields[j].0)
      {
        NoDotNoContinuation(v.fields[i].0, Label(v, j));
      }
    }
    forall i | 0 <= i < Size(v)
      ensures NoKeyContinued(Child(v, i))
    {
      DotFreeIsNotContinued(Child(v, i));
    }
  }

  lemma NoDotNoContinuation(a: string, b: string)
    requires '.' !in b
    ensures !Continues(a, b)
  {
    if Continues(a, b) {
      ContinuationHasDot(a, b);
    }
  }

  /** Without dots in the keys flattening loses nothing: one entry per leaf, each under its own key. */
  lemma FlatteningIsFaithful(key: string, v: Json, i: nat)
    requires WellFormed(v) && DotFree(v) && i < |Leaves(v)|
    ensures var flat := Written(map[], key, Leaves(v));
      var k := Dotted(key, Leaves(v)[i].0);
      |flat| == |Leaves(v)| && k in flat && flat[k] == Leaves(v)[i].1 && PathOf(k, |key|) == Leaves(v)[i].0
  {
    DotFreeIsNotContinued(v);
    SiblingsWithoutContinuationKeepAll(key, v, i);
    PathsArePlain(v, i);
    PathIsRecoverable(key, Leaves(v)[i].0);
  }

  lemma SingleLeaf(component: string, text: string)
    ensures Under(component, Leaves(Leaf(text))) == [([component], Leaf(text))]
  {
    assert [component] + [] == [component];
  }

  const COLLIDING := Dict([("a.b", Leaf("1")), ("a", Dict([("b", Leaf("2"))]))])

  lemma CollidingLeaves()
    ensures Leaves(COLLIDING) == [(["a.b"], Leaf("1")), (["a", "b"], Leaf("2"))]
  {
    var inner, v := Dict([("b", Leaf("2"))]), COLLIDING;
    SingleLeaf("b", "2");
    SingleLeaf("a.b", "1");
    hide Under;
    LeavesInSteps(inner, 1);
    LeavesInSteps(v, 1);
    LeavesInSteps(v, 2);
    assert Leaves(inner) == [(["b"], Leaf("2"))];
    assert ["a"] + ["b"] == ["a", "b"];
    assert Under("a", Leaves(inner))[0] == (["a", "b"], Leaf("2"));
  }

  /** With a dot in a key two leaves can collide, and one is lost. */
  lemma DottedKeysCollide()
    ensures |Leaves(COLLIDING)| == 2 && |Written(map[], "q", Leaves(COLLIDING))| < 2
  {
    hide Leaves, Written, Spelt, Dotted;
    CollidingLeaves();
    SpeltAlike();
    DottedAlike("q", ["a.b"], ["a", "b"]);
    OneEntryPerKey("q", Leaves(COLLIDING));
    assert Dotted("q", Leaves(COLLIDING)[0].0) == Dotted("q", Leaves(COLLIDING)[1].0);
  }

  lemma SpeltAlike()
    ensures Spelt(["a.b"]) == Spelt(["a", "b"])
  {
    assert ["a", "b"][1..] == ["b"] && ["b"][1..] == [] && ["a.b"][1..] == [];
    assert Spelt(["b"]) == ".b";
    assert Spelt(["a", "b"]) == ".a" + ".b";
    assert Spelt(["a.b"]) == ".a.b";
  }

  // ----- Which paths lead to which leaves -----

  /** Following the path from v, numerals into lists and keys into dictionaries, ends at the leaf. */
  ghost predicate LeadsTo(v: Json, path: seq<string>, leaf: Json)
    decreases v, 1
  {
    if path == [] then v == leaf && v.Leaf? else Enters(v, path, leaf)
  }

  ghost predicate Enters(v: Json, path: seq<string>, leaf: Json)
    requires path != []
    decreases v, 0
  {
    match v
    case Leaf(_) => false
    case List(items) => exists i :: 0 <= i < |items| && path[0] == Show(i) && LeadsTo(items[i], path[1..], leaf)
    case Dict(fields) =>
      exists i :: 0 <= i < |fields| && path[0] == fields[i].0 && LeadsTo(fields[i].1, path[1..], leaf)
  }

  lemma EntersChild(v: Json, path: seq<string>, leaf: Json)
    requires path != []
    ensures Enters(v, path, leaf) <==>
      exists i :: 0 <= i < Size(v) && path[0] == Label(v, i) && LeadsTo(Child(v, i), path[1..], leaf)
  {
    hide LeadsTo;
    match v
    case Leaf(_) =>
    case List(items) =>
      assert forall i :: 0 <= i < |items| ==> Label(v, i) == Show(i) && Child(v, i) == items[i];
    case Dict(fields) =>
      assert forall i :: 0 <= i < |fields| ==> Label(v, i) == fields[i].0 && Child(v, i) == fields[i].1;
  }

  lemma {:induction false} LeafIsReached(v: Json, k: nat)
    requires k < |Leaves(v)|
    ensures LeadsTo(v, Leaves(v)[k].0, Leaves(v)[k].1)
    decreases v
  {
    if !v.Leaf? {
      var c, m := LeafBelow(v, Size(v), k);
      var path, leaf := Leaves(v)[k].0, Leaves(v)[k].1;
      LeafIsReached(Child(v, c), m);
      hide Leaves, LeavesOf, Enters;
      assert path[1..] == Leaves(Child(v, c))[m].0;
      EntersChild(v, path, leaf);
    }
  }

  lemma {:induction false} ReachedIsLeaf(v: Json, path: seq<string>, leaf: Json)
    requires LeadsTo(v, path, leaf)
    ensures (path, leaf) in Leaves(v)
    decreases v
  {
    if !v.Leaf? {
      EntersChild(v, path, leaf);
      var c :| 0 <= c < Size(v) && path[0] == Label(v, c) && LeadsTo(Child(v, c), path[1..], leaf);
      ReachedIsLeaf(Child(v, c), path[1..], leaf);
      assert path == [Label(v, c)] + path[1..];
      BelowIsLeaf(v, Size(v), c, (path[1..], leaf));
    }
  }

  /** What is written are the leaves of the tree, each under the path of numerals and keys that leads to it. */
  lemma LeavesExactly(v: Json, path: seq<string>, leaf: Json)
    ensures (path, leaf) in Leaves(v) <==> LeadsTo(v, path, leaf)
  {
    hide Leaves, LeadsTo;
    if (path, leaf) in Leaves(v) {
      var k :| 0 <= k < |Leaves(v)| && Leaves(v)[k] == (path, leaf);
      LeafIsReached(v, k);
    }
    if LeadsTo(v, path, leaf) {
      ReachedIsLeaf(v, path, leaf);
    }
  }

  lemma {:induction false} BelowIsLeaf(v: Json, n: nat, c: nat, below: (seq<string>, Json))
    requires c < n <= Size(v) && below in Leaves(Child(v, c))
    ensures ([Label(v, c)] + below.0, below.1) in LeavesOf(v, n)
    decreases n
  {
    hide Leaves, LeavesOf, Under;
    LeavesInSteps(v, n);
    if c < n - 1 {
      BelowIsLeaf(v, n - 1, c, below);
    } else {
      var leaves := Leaves(Child(v, c));
      var m :| 0 <= m < |leaves| && leaves[m] == below;
      assert Under(Label(v, c), leaves)[m] == ([Label(v, c)] + below.0, below.1);
    }
  }
}

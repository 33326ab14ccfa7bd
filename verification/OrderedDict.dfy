// Insertion-ordered dictionaries: assignment keeps a key's first position and its last value.

module OrderedDict {

  /** d[key] = value. */
  function Put<K(==), V>(d: seq<(K, V)>, key: K, value: V): seq<(K, V)> {
    if d == [] then [(key, value)]
    else if d[0].0 == key then [(key, value)] + d[1..]
    else [d[0]] + Put(d[1..], key, value)
  }

  ghost predicate DistinctKeys<K, V>(d: seq<(K, V)>) {
    forall k, l :: 0 <= k < l < |d| ==> d[k].0 != d[l].0
  }

  ghost predicate HasKey<K, V>(d: seq<(K, V)>, key: K) {
    exists k :: 0 <= k < |d| && d[k].0 == key
  }

  /** The dictionary that assigning the entries one after the other builds. */
  function Collect<K(==), V>(entries: seq<(K, V)>): seq<(K, V)> {
    if entries == [] then []
    else
      var last := entries[|entries| - 1];
      Put(Collect(entries[..|entries| - 1]), last.0, last.1)
  }

  lemma {:induction false} PutShape<K, V>(d: seq<(K, V)>, key: K, value: V) returns (p: nat)
    requires DistinctKeys(d)
    ensures p <= |d| && forall k :: 0 <= k < |d| && k != p ==> d[k].0 != key
    ensures if p < |d| then d[p].0 == key && Put(d, key, value) == d[p := (key, value)]
            else Put(d, key, value) == d + [(key, value)]
    ensures DistinctKeys(Put(d, key, value))
  {
    if d == [] || d[0].0 == key {
      p := 0;
    } else {
      var rest := d[1..];
      p := PutShape(rest, key, value);
      p := p + 1;
      assert forall k :: 1 <= k < |d| ==> d[k] == rest[k - 1];
    }
  }

  /** Entry i is the last one with its key. */
  ghost predicate IsLast<K, V>(entries: seq<(K, V)>, i: int) {
    0 <= i < |entries| && forall j :: i < j < |entries| ==> entries[j].0 != entries[i].0
  }

  /** Position k of the dictionary holds entry picked[k], the last with its key. */
  ghost predicate Picks<K, V>(entries: seq<(K, V)>, d: seq<(K, V)>, picked: seq<int>) {
    && |picked| == |d|
    && forall k :: 0 <= k < |picked| ==> IsLast(entries, picked[k]) && d[k] == entries[picked[k]]
  }

  ghost predicate Covers<K, V>(entries: seq<(K, V)>, d: seq<(K, V)>) {
    forall i :: 0 <= i < |entries| ==> HasKey(d, entries[i].0)
  }

  lemma PutKeepsKeys<K, V>(d: seq<(K, V)>, key: K, value: V)
    requires DistinctKeys(d)
    ensures HasKey(Put(d, key, value), key)
    ensures forall x :: HasKey(d, x) ==> HasKey(Put(d, key, value), x)
  {
    hide Put;
    var p := PutShape(d, key, value);
    var after := Put(d, key, value);
    assert after[p].0 == key;
    forall x | HasKey(d, x)
      ensures HasKey(after, x)
    {
      var k :| 0 <= k < |d| && d[k].0 == x;
      assert after[k].0 == x;
    }
  }

  lemma PutPicks<K, V>(entries: seq<(K, V)>, d: seq<(K, V)>, picked: seq<int>, key: K, value: V)
    returns (picked': seq<int>)
    requires DistinctKeys(d) && Picks(entries, d, picked)
    ensures Picks(entries + [(key, value)], Put(d, key, value), picked')
  {
    hide Put;
    var n, more := |entries|, entries + [(key, value)];
    var p := PutShape(d, key, value);
    picked' := if p < |d| then picked[p := n] else picked + [n];
    assert IsLast(more, n);
    forall k | 0 <= k < |picked| && k != p
      ensures IsLast(more, picked[k])
    {
      assert IsLast(entries, picked[k]);
    }
  }

  /**
   * A collected dictionary has every key of the entries, each once, with the value of the last entry
   * that has it.
   */
  lemma {:induction false} CollectKeepsLast<K, V>(entries: seq<(K, V)>) returns (picked: seq<int>)
    ensures DistinctKeys(Collect(entries))
    ensures Picks(entries, Collect(entries), picked)
    ensures Covers(entries, Collect(entries))
    decreases |entries|
  {
    hide Put, Picks, HasKey;
    if entries == [] {
      picked := [];
      NothingPicked<K, V>();
    } else {
      var n := |entries| - 1;
      var front, last := entries[..n], entries[n];
      picked := CollectKeepsLast(front);
      var p := PutShape(Collect(front), last.0, last.1);
      picked := PutPicks(front, Collect(front), picked, last.0, last.1);
      PutKeepsKeys(Collect(front), last.0, last.1);
      assert entries == front + [(last.0, last.1)];
      assert forall i :: 0 <= i < n ==> entries[i] == front[i];
    }
  }

  lemma NothingPicked<K, V>()
    ensures Picks<K, V>([], [], [])
  {
  }
}

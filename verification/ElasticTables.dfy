// From Elasticsearch responses to the rows and columns they show.

module ElasticTables {
  import opened Outcomes
  import opened ElasticResults

  predicate Scalar(v: Json) {
    !v.JList? && !v.JObj?
  }

  /** The first n entries hold scalars. */
  predicate ScalarsUpTo(entries: seq<(string, Json)>, n: nat)
    requires n <= |entries|
  {
    forall k :: 0 <= k < n ==> Scalar(entries[k].1)
  }

  /** Scalar entries leave the table and the row alone. */
  lemma {:induction false} ScalarsCollectNothing(s: Sheet, fields: Fields, parent: string, data: Json, n: nat,
                                                 row: Option<nat>)
    requires data.JObj? && n <= |data.fields| && ScalarsUpTo(data.fields, n)
    requires row.Some? ==> row.value < |s.rows|
    ensures CollectEntries(s, fields, parent, data, n, row) == (s, Ok(row))
    decreases n
  {
    hide Evolves, CollectEntry;
    if n > 0 {
      ScalarsCollectNothing(s, fields, parent, data, n - 1, row);
      ScalarEntry(s, fields, parent, data.fields[n - 1].0, data.fields[n - 1].1, row);
    }
  }

  lemma ScalarEntry(s: Sheet, fields: Fields, parent: string, key: string, v: Json, row: Option<nat>)
    requires Scalar(v) && (row.Some? ==> row.value < |s.rows|)
    ensures CollectEntry(s, fields, parent, key, v, row) == (s, Ok(row))
  {
    hide Evolves;
  }

  /** What later entries of an object do to a table in which it has no row yet. */
  lemma {:induction false} LaterEntries(s: Sheet, fields: Fields, parent: string, data: Json, m: nat, n: nat)
    requires data.JObj? && m <= n <= |data.fields|
    requires CollectEntries(s, fields, parent, data, m, None).1 == Ok(None)
    ensures var t := CollectEntries(s, fields, parent, data, m, None).0;
      var r := CollectEntries(s, fields, parent, data, n, None);
      && Evolves(fields, None, t, r.0)
      && (r.1.Ok? ==> RowAfter(None, r.1.value, t, r.0))
    decreases n
  {
    hide Evolves, CollectEntry;
    var t := CollectEntries(s, fields, parent, data, m, None).0;
    if m == n {
      EvolvesSelf(fields, None, t);
    } else {
      LaterEntries(s, fields, parent, data, m, n - 1);
      var before := CollectEntries(s, fields, parent, data, n - 1, None);
      if before.1.Ok? {
        var next := CollectEntry(before.0, fields, parent, data.fields[n - 1].0, data.fields[n - 1].1, before.1.value);
        Chain(fields, None, before.1.value, t, before.0, next.0);
        RowsOf(fields, None, t, before.0);
        RowsOf(fields, before.1.value, before.0, next.0);
      }
    }
  }

  /** A named aggregation: its buckets, if any, are a list under the key "buckets", with only scalars before. */
  predicate HoldsBuckets(data: Json, b: nat) {
    && data.JObj? && b < |data.fields|
    && data.fields[b].0 == "buckets" && data.fields[b].1.JList?
    && ScalarsUpTo(data.fields, b)
  }

  /** The buckets of an aggregation are collected under the aggregation's own name. */
  lemma BucketsAreCollected(s: Sheet, fields: Fields, name: string, data: Json, b: nat)
    requires HoldsBuckets(data, b) && Collect(s, fields, name, data, None).1.Ok?
    ensures var list := data.fields[b].1;
      var walked := CollectItems(s, fields, name, list, |list.items|, None);
      walked.1 && Evolves(fields, None, walked.0, Collect(s, fields, name, data, None).0)
  {
    hide Evolves, CollectOwn, CollectEntry;
    var list := data.fields[b].1;
    var walked := CollectItems(s, fields, name, list, |list.items|, None);
    ScalarsCollectNothing(s, fields, name, data, b, None);
    if CollectEntries(s, fields, name, data, b + 1, None).1.Err? {
      EntriesStop(s, fields, name, data, b + 1, |data.fields|, None);
    }
    BucketsEntry(s, fields, name, list);
    assert CollectEntries(s, fields, name, data, b + 1, None) ==
           CollectEntry(s, fields, name, data.fields[b].0, data.fields[b].1, None);
    LaterEntries(s, fields, name, data, b + 1, |data.fields|);
    OwnValueEvolves(s, fields, name, data, walked.0);
  }

  /** Below the entry "buckets" the name of the aggregation is kept. */
  lemma BucketsEntry(s: Sheet, fields: Fields, name: string, list: Json)
    requires list.JList?
    ensures var walked := CollectItems(s, fields, name, list, |list.items|, None);
      CollectEntry(s, fields, name, "buckets", list, None) ==
        (walked.0, if walked.1 then Ok(None) else Err(TypeError))
  {
    hide Evolves, CollectItems;
  }

  lemma OwnValueEvolves(s: Sheet, fields: Fields, name: string, data: Json, t: Sheet)
    requires data.JObj?
    requires var r := CollectEntries(s, fields, name, data, |data.fields|, None);
      Evolves(fields, None, t, r.0) && r.1.Ok? && RowAfter(None, r.1.value, t, r.0)
    ensures Evolves(fields, None, t, Collect(s, fields, name, data, None).0)
  {
    hide Evolves, CollectOwn, CollectEntries;
    var r := CollectEntries(s, fields, name, data, |data.fields|, None);
    var first := CollectOwn(r.0, fields, data.fields, "value", r.1.value);
    Chain(fields, None, r.1.value, t, r.0, first.0);
    if first.1.None? {
      RowsOf(fields, r.1.value, r.0, first.0);
      var second := CollectOwn(first.0, fields, data.fields, "doc_count", r.1.value);
      Chain(fields, None, r.1.value, t, first.0, second.0);
    }
  }

  /** One aggregation of a response: what precedes it, and that what follows leaves its rows alone. */
  lemma {:induction false} OneOfAll(s: Sheet, fields: Fields, aggregations: seq<(string, Json)>, a: nat, n: nat)
    requires a < n <= |aggregations| && CollectAll(s, fields, aggregations, n).1
    ensures CollectAll(s, fields, aggregations, a).1
    ensures var before := CollectAll(s, fields, aggregations, a).0;
      var own := Collect(before, fields, aggregations[a].0, aggregations[a].1, None);
      own.1.Ok? && Evolves(fields, None, own.0, CollectAll(s, fields, aggregations, n).0)
    decreases n
  {
    hide Evolves, Collect;
    var before := CollectAll(s, fields, aggregations, n - 1).0;
    var last := Collect(before, fields, aggregations[n - 1].0, aggregations[n - 1].1, None);
    if a == n - 1 {
      EvolvesSelf(fields, None, last.0);
    } else {
      OneOfAll(s, fields, aggregations, a, n - 1);
      var own := Collect(CollectAll(s, fields, aggregations, a).0, fields, aggregations[a].0, aggregations[a].1, None);
      EvolvesTwice(fields, None, own.0, before, last.0);
    }
  }

  /** The row of member i: opened empty, filled from below, then given the count and the key; later ones leave it. */
  lemma {:induction false} ItemRow(s: Sheet, fields: Fields, parent: string, data: Json, n: nat, i: nat)
    returns (start: Sheet)
    requires data.JList? && i < n <= |data.items| && CollectItems(s, fields, parent, data, n, None).1
    ensures var r := |s.rows| + i;
      && |start.rows| == r + 1 && start.rows[r] == map[]
      && Collect(start, fields, parent, data.items[i], Some(r)).1.Ok?
      && var below := Collect(start, fields, parent, data.items[i], Some(r)).0;
         && |below.rows| == r + 1
         && var t := CollectItems(s, fields, parent, data, n, None).0;
            && |t.rows| == |s.rows| + n
            && CollectBucket(below, fields, parent, data.items[i], r).1
            && |CollectBucket(below, fields, parent, data.items[i], r).0.rows| == r + 1
            && t.rows[r] == CollectBucket(below, fields, parent, data.items[i], r).0.rows[r]
    decreases n
  {
    hide CollectBucket, Collect, Evolves;
    var before := CollectItems(s, fields, parent, data, n - 1, None);
    assert before.1;
    var r := |before.0.rows|;
    var widened := before.0.(rows := before.0.rows + [map[]]);
    var below := Collect(widened, fields, parent, data.items[n - 1], Some(r));
    RowsOf(fields, Some(r), widened, below.0);
    var t := CollectBucket(below.0, fields, parent, data.items[n - 1], r).0;
    RowsOf(fields, Some(r), below.0, t);
    if i == n - 1 {
      start := widened;
    } else {
      start := ItemRow(s, fields, parent, data, n - 1, i);
    }
  }

  // ----- What one bucket shows -----

  /** An object of scalars without a key that carries a value or else a count. */
  predicate Metric(v: Json) {
    && v.JObj? && ScalarsUpTo(v.fields, |v.fields|) && Get(v.fields, "key").None?
    && (Get(v.fields, "value").Some? || Get(v.fields, "doc_count").Some?)
  }

  function MetricValue(v: Json): Json
    requires Metric(v)
  {
    var value := Get(v.fields, "value");
    if value.Some? then value.value else Get(v.fields, "doc_count").value
  }

  function Cell(row: Row, fields: Fields, name: Name, value: Json): Row {
    if Wanted(fields, name) then row[name := value] else row
  }

  lemma ValueIsOneCell(s: Sheet, fields: Fields, i: nat, key: Json, value: Json, kind: string)
    requires i < |s.rows| && AsName(key).Some?
    ensures var (t, ok) := CollectValue(s, fields, Some(i), key, value, kind);
      ok && t.rows == s.rows[i := Cell(s.rows[i], fields, AsName(key).value, value)]
  {
    hide Wanted;
  }

  /** A stored value opens a column of its kind, unless there is one. */
  lemma ValueOpensColumn(s: Sheet, fields: Fields, i: nat, name: string, value: Json, kind: string)
    requires i < |s.rows| && Wanted(fields, NStr(name))
    ensures CollectValue(s, fields, Some(i), JStr(name), value, kind) ==
      (Sheet(s.mappings[NStr(name) := kind],
             if NStr(name) in s.index then s.columns else s.columns + [Column(NStr(name), kind)],
             s.index + {NStr(name)},
             s.rows[i := s.rows[i][NStr(name) := value]]), true)
  {
    assert NStr(name) in s.index ==> s.index + {NStr(name)} == s.index;
  }

  lemma MetricIsReturned(s: Sheet, fields: Fields, parent: string, v: Json, row: Option<nat>)
    requires Metric(v) && (row.Some? ==> row.value < |s.rows|)
    ensures Collect(s, fields, parent, v, row) == (s, Ok(Some(MetricValue(v))))
  {
    hide Evolves, CollectEntries;
    ScalarsCollectNothing(s, fields, parent, v, |v.fields|, row);
  }

  /**
   * A value or count that comes back from below an entry is stored under that entry's key: in the row
   * in use, or in a new one. Zero, empty and false are not stored.
   */
  lemma MetricIsStored(s: Sheet, fields: Fields, parent: string, key: string, v: Json, row: Option<nat>)
    requires Metric(v) && (row.Some? ==> row.value < |s.rows|)
    ensures var (t, r) := CollectEntry(s, fields, parent, key, v, row);
      if !Truthy(MetricValue(v)) then t == s && r == Ok(row)
      else if row.None? then
        t.rows == s.rows + [Cell(map[], fields, NStr(key), MetricValue(v))] && r == Ok(Some(|s.rows|))
      else
        t.rows == s.rows[row.value := Cell(s.rows[row.value], fields, NStr(key), MetricValue(v))] && r == Ok(row)
    ensures Truthy(MetricValue(v)) && Wanted(fields, NStr(key)) ==>
      CollectEntry(s, fields, parent, key, v, row).0.columns ==
        if NStr(key) in s.index then s.columns else s.columns + [Column(NStr(key), "long")]
  {
    hide Evolves, Collect, CollectValue, Truthy, MetricValue, Wanted;
    MetricIsReturned(s, fields, if key == "buckets" then parent else key, v, row);
    var (widened, i) := OpenRow(s, row);
    ValueIsOneCell(widened, fields, i, JStr(key), MetricValue(v), "long");
    if Wanted(fields, NStr(key)) {
      ValueOpensColumn(widened, fields, i, key, MetricValue(v), "long");
    }
  }

  /** A bucket of scalars and metrics, with a scalar key. */
  predicate Flat(v: Json) {
    && KeyedBucket(v) && Scalar(Get(v.fields, "key").value)
    && forall k :: 0 <= k < |v.fields| ==> Scalar(v.fields[k].1) || Metric(v.fields[k].1)
  }

  /** The cells of the metrics among the first n entries. */
  function MetricCells(fields: Fields, entries: seq<(string, Json)>, n: nat): Row
    requires n <= |entries|
  {
    if n == 0 then map[]
    else
      var before, key, v := MetricCells(fields, entries, n - 1), entries[n - 1].0, entries[n - 1].1;
      if Metric(v) && Truthy(MetricValue(v)) then Cell(before, fields, NStr(key), MetricValue(v)) else before
  }

  /** What a bucket of a key and one number shows of it under the key itself. */
  function LoneNumber(entries: seq<(string, Json)>): Option<Json> {
    if |entries| != 2 then None
    else if Get(entries, "value").Some? then Get(entries, "value") else Get(entries, "doc_count")
  }

  /**
   * The row of a flat bucket: its metrics under their names, a lone number under the bucket's key, the
   * document count, and the key under the name of the aggregation.
   */
  function FlatRow(fields: Fields, name: string, v: Json): Row
    requires Flat(v)
  {
    var metrics := MetricCells(fields, v.fields, |v.fields|);
    var lone, count := LoneNumber(v.fields), Get(v.fields, "doc_count");
    var numbered :=
      if lone.Some? then Cell(metrics, fields, AsName(Get(v.fields, "key").value).value, lone.value) else metrics;
    var counted := if count.Some? then Cell(numbered, fields, NStr("doc_count"), count.value) else numbered;
    Cell(counted, fields, NStr(name), BucketKey(v))
  }

  lemma {:induction false} MetricsOfBucket(s: Sheet, fields: Fields, parent: string, v: Json, n: nat, i: nat)
    requires Flat(v) && n <= |v.fields| && i < |s.rows| && s.rows[i] == map[]
    ensures var (t, r) := CollectEntries(s, fields, parent, v, n, Some(i));
      r == Ok(Some(i)) && t.rows == s.rows[i := MetricCells(fields, v.fields, n)]
    decreases n
  {
    hide Evolves, CollectEntry, Truthy, MetricValue, Metric, Cell;
    if n > 0 {
      MetricsOfBucket(s, fields, parent, v, n - 1, i);
      var before := CollectEntries(s, fields, parent, v, n - 1, Some(i)).0;
      EntryOfBucket(before, fields, parent, v.fields[n - 1].0, v.fields[n - 1].1, i);
    }
  }

  lemma EntryOfBucket(s: Sheet, fields: Fields, parent: string, key: string, v: Json, i: nat)
    requires i < |s.rows| && (Scalar(v) || Metric(v))
    ensures var (t, r) := CollectEntry(s, fields, parent, key, v, Some(i));
      && r == Ok(Some(i))
      && t.rows == if Metric(v) && Truthy(MetricValue(v))
                   then s.rows[i := Cell(s.rows[i], fields, NStr(key), MetricValue(v))] else s.rows
  {
    hide Evolves, Truthy, MetricValue, Cell;
    if Metric(v) {
      MetricIsStored(s, fields, parent, key, v, Some(i));
    }
  }

  /** Reading a flat bucket fills its row with its metrics and its lone number. */
  lemma BelowBucket(s: Sheet, fields: Fields, parent: string, v: Json, i: nat)
    requires Flat(v) && i < |s.rows| && s.rows[i] == map[]
    ensures var (t, r) := Collect(s, fields, parent, v, Some(i));
      var metrics := MetricCells(fields, v.fields, |v.fields|);
      && r.Ok?
      && t.rows == s.rows[i :=
           if LoneNumber(v.fields).Some?
           then Cell(metrics, fields, AsName(Get(v.fields, "key").value).value, LoneNumber(v.fields).value)
           else metrics]
  {
    hide Evolves, CollectEntries, CollectOwn, MetricCells, Cell;
    MetricsOfBucket(s, fields, parent, v, |v.fields|, i);
    var walked := CollectEntries(s, fields, parent, v, |v.fields|, Some(i)).0;
    OwnOfBucket(walked, fields, v, "value", i);
    OwnOfBucket(CollectOwn(walked, fields, v.fields, "value", Some(i)).0, fields, v, "doc_count", i);
    if |v.fields| == 2 && Get(v.fields, "value").Some? {
      NoThirdKey(v.fields, "key", "value", "doc_count");
    }
  }

  lemma NoThirdKey(entries: seq<(string, Json)>, a: string, b: string, c: string)
    requires |entries| == 2 && a != b && a != c && b != c && Get(entries, a).Some? && Get(entries, b).Some?
    ensures Get(entries, c).None?
  {
    var x, y := entries[0].0, entries[1].0;
    assert forall k :: Get(entries[1..], k).Some? <==> y == k;
    assert forall k :: Get(entries, k).Some? <==> x == k || y == k;
  }

  lemma OwnOfBucket(s: Sheet, fields: Fields, v: Json, name: string, i: nat)
    requires Flat(v) && i < |s.rows| && name != "key_as_string" && name != "key"
    ensures var (t, r) := CollectOwn(s, fields, v.fields, name, Some(i));
      var own := Get(v.fields, name);
      if own.None? then t == s && r == None
      else if |v.fields| != 2 then t == s && r == Some(Ok(own))
      else
        r == None && t.rows == s.rows[i := Cell(s.rows[i], fields, AsName(Get(v.fields, "key").value).value, own.value)]
  {
    hide Evolves, Cell, CollectValue;
    if Get(v.fields, name).Some? && |v.fields| == 2 {
      NoThirdKey(v.fields, "key", name, "key_as_string");
      ValueIsOneCell(s, fields, i, Get(v.fields, "key").value, Get(v.fields, name).value, "long");
    }
  }

  /** The count and the key of a bucket are two cells. */
  lemma NamedBucket(s: Sheet, fields: Fields, name: string, v: Json, i: nat)
    requires KeyedBucket(v) && i < |s.rows|
    ensures var (t, ok) := CollectBucket(s, fields, name, v, i);
      var count := Get(v.fields, "doc_count");
      var counted := if count.Some? then Cell(s.rows[i], fields, NStr("doc_count"), count.value) else s.rows[i];
      ok && t.rows == s.rows[i := Cell(counted, fields, NStr(name), BucketKey(v))]
  {
    hide Evolves, CollectMember, Cell;
    MemberCell(s, fields, "doc_count", v, "doc_count", "integer", i);
    var counted := CollectMember(s, fields, "doc_count", v, "doc_count", "integer", i).0;
    MemberCell(counted, fields, "key_as_string", v, name, "string", i);
    MemberCell(counted, fields, "key", v, name, "string", i);
  }

  lemma MemberCell(s: Sheet, fields: Fields, name: string, v: Json, column: string, kind: string, i: nat)
    requires v.JObj? && i < |s.rows|
    ensures var (t, ok) := CollectMember(s, fields, name, v, column, kind, i);
      var own := Get(v.fields, name);
      ok && t.rows == if own.Some? then s.rows[i := Cell(s.rows[i], fields, NStr(column), own.value)] else s.rows
  {
    hide Evolves, Cell, CollectValue;
    if Get(v.fields, name).Some? {
      ValueIsOneCell(s, fields, i, JStr(column), Get(v.fields, name).value, kind);
    }
  }

  // ----- From a response to its rows -----

  /** The row shows the bucket's key under the aggregation's name and its count under doc_count, if wanted. */
  predicate ShowsBucket(row: Row, fields: Fields, name: string, v: Json)
    requires KeyedBucket(v)
  {
    && (Wanted(fields, NStr(name)) ==>
         NStr(name) in row &&
         row[NStr(name)] == if Get(v.fields, "key_as_string").Some? then Get(v.fields, "key_as_string").value
                            else Get(v.fields, "key").value)
    && (Wanted(fields, NStr("doc_count")) && name != "doc_count" && Get(v.fields, "doc_count").Some? ==>
         NStr("doc_count") in row && row[NStr("doc_count")] == Get(v.fields, "doc_count").value)
  }

  /**
   * A parsed aggregation of buckets: from some first row on there is one row for each bucket, in order,
   * that shows the bucket's key under the name of the aggregation and its count under doc_count.
   */
  lemma BucketsBecomeRows(s: Sheet, fields: Fields, aggregations: seq<(string, Json)>, a: nat, b: nat)
    returns (first: nat)
    requires a < |aggregations| && HoldsBuckets(aggregations[a].1, b)
    requires Parse(s, fields, Aggregations(aggregations)).1
    ensures var name, items := aggregations[a].0, aggregations[a].1.fields[b].1.items;
      var rows := Parse(s, fields, Aggregations(aggregations)).0.rows;
      && |s.rows| <= first && first + |items| <= |rows| && (a == 0 ==> first == |s.rows|)
      && forall i :: 0 <= i < |items| ==>
           (Flat(items[i]) ==> rows[first + i] == FlatRow(fields, name, items[i])) &&
           (KeyedBucket(items[i]) ==> ShowsBucket(rows[first + i], fields, name, items[i]))
  {
    hide Evolves, CollectAll, Collect, CollectItems, FlatRow, ShowsBucket, Flat;
    var name, data := aggregations[a].0, aggregations[a].1;
    var list := data.fields[b].1;
    var headed := AddFields(s.(index := NamesOf(s.columns)), fields, |fields|);
    OneOfAll(headed, fields, aggregations, a, |aggregations|);
    var before := CollectAll(headed, fields, aggregations, a).0;
    var own := Collect(before, fields, name, data, None).0;
    var walked := CollectItems(before, fields, name, list, |list.items|, None).0;
    var final := CollectAll(headed, fields, aggregations, |aggregations|).0;
    BucketsAreCollected(before, fields, name, data, b);
    RowsOf(fields, None, headed, before);
    RowsOf(fields, None, walked, own);
    RowsOf(fields, None, own, final);
    if a == 0 {
      NothingCollectedYet(headed, fields, aggregations);
    }
    first := |before.rows|;
    forall i | 0 <= i < |list.items|
      ensures Flat(list.items[i]) ==> final.rows[first + i] == FlatRow(fields, name, list.items[i])
      ensures KeyedBucket(list.items[i]) ==> ShowsBucket(final.rows[first + i], fields, name, list.items[i])
    {
      BucketRow(before, fields, name, list, i);
      assert final.rows[first + i] == walked.rows[first + i];
    }
  }

  lemma NothingCollectedYet(s: Sheet, fields: Fields, aggregations: seq<(string, Json)>)
    ensures CollectAll(s, fields, aggregations, 0).0 == s
  {
  }

  lemma BucketRow(s: Sheet, fields: Fields, name: string, list: Json, i: nat)
    requires list.JList? && i < |list.items| && CollectItems(s, fields, name, list, |list.items|, None).1
    ensures var rows := CollectItems(s, fields, name, list, |list.items|, None).0.rows;
      && |rows| == |s.rows| + |list.items|
      && (Flat(list.items[i]) ==> rows[|s.rows| + i] == FlatRow(fields, name, list.items[i]))
      && (KeyedBucket(list.items[i]) ==> ShowsBucket(rows[|s.rows| + i], fields, name, list.items[i]))
  {
    hide Evolves, Collect, CollectItems, CollectBucket, MetricCells, Wanted;
    var v, r := list.items[i], |s.rows| + i;
    var start := ItemRow(s, fields, name, list, |list.items|, i);
    var below := Collect(start, fields, name, v, Some(r)).0;
    if KeyedBucket(v) {
      NamedBucket(below, fields, name, v, r);
    }
    if Flat(v) {
      BelowBucket(start, fields, name, v, r);
    }
  }

  /** A value or count directly under an aggregation's name opens no row: what it returns is dropped. */
  lemma TopLevelMetricIsDropped(s: Sheet, fields: Fields, name: string, v: Json)
    requires Metric(v)
    ensures var (t, ok) := Parse(s, fields, Aggregations([(name, v)]));
      ok && t.rows == s.rows
  {
    hide Evolves, Collect;
    var headed := AddFields(s.(index := NamesOf(s.columns)), fields, |fields|);
    MetricIsReturned(headed, fields, name, v, None);
    NothingCollectedYet(headed, fields, [(name, v)]);
    assert CollectAll(headed, fields, [(name, v)], 1) ==
           (Collect(CollectAll(headed, fields, [(name, v)], 0).0, fields, name, v, None).0, true);
  }

  /** The object around the buckets holds nothing but scalars beside them. */
  predicate OnlyBuckets(data: Json, b: nat) {
    && HoldsBuckets(data, b) && Get(data.fields, "key").None?
    && forall k :: b < k < |data.fields| ==> Scalar(data.fields[k].1)
  }

  /** A response of one such aggregation gives exactly one row a bucket. */
  lemma OneRowABucket(s: Sheet, fields: Fields, name: string, data: Json, b: nat)
    requires OnlyBuckets(data, b) && Parse(s, fields, Aggregations([(name, data)])).1
    ensures |Parse(s, fields, Aggregations([(name, data)])).0.rows| == |s.rows| + |data.fields[b].1.items|
  {
    hide Evolves, Collect, CollectItems;
    var headed := AddFields(s.(index := NamesOf(s.columns)), fields, |fields|);
    var list := data.fields[b].1;
    OneOfAll(headed, fields, [(name, data)], 0, 1);
    NothingCollectedYet(headed, fields, [(name, data)]);
    BucketsAreCollected(headed, fields, name, data, b);
    CollectOnlyBuckets(headed, fields, name, data, b);
    assert CollectAll(headed, fields, [(name, data)], 1).0 ==
           Collect(CollectAll(headed, fields, [(name, data)], 0).0, fields, name, data, None).0;
  }

  lemma CollectOnlyBuckets(s: Sheet, fields: Fields, name: string, data: Json, b: nat)
    requires OnlyBuckets(data, b)
    requires var list := data.fields[b].1; CollectItems(s, fields, name, list, |list.items|, None).1
    ensures var list := data.fields[b].1;
      Collect(s, fields, name, data, None).0 == CollectItems(s, fields, name, list, |list.items|, None).0
  {
    hide Evolves, CollectItems, CollectEntry, CollectEntries;
    EntriesOfOnlyBuckets(s, fields, name, data, b, |data.fields|);
  }

  lemma {:induction false} EntriesOfOnlyBuckets(s: Sheet, fields: Fields, name: string, data: Json, b: nat, n: nat)
    requires OnlyBuckets(data, b) && b < n <= |data.fields|
    requires var list := data.fields[b].1; CollectItems(s, fields, name, list, |list.items|, None).1
    ensures var list := data.fields[b].1;
      CollectEntries(s, fields, name, data, n, None) ==
        (CollectItems(s, fields, name, list, |list.items|, None).0, Ok(None))
    decreases n
  {
    hide Evolves, CollectItems, CollectEntry;
    if n == b + 1 {
      ScalarsCollectNothing(s, fields, name, data, b, None);
      BucketsEntry(s, fields, name, data.fields[b].1);
    } else {
      EntriesOfOnlyBuckets(s, fields, name, data, b, n - 1);
      var t := CollectEntries(s, fields, name, data, n - 1, None).0;
      ScalarEntry(t, fields, name, data.fields[n - 1].0, data.fields[n - 1].1, None);
    }
  }

  // ----- An example -----

  const OK_BUCKET := JObj([("key", JStr("ok")), ("doc_count", JNum(3.0))])
  const BY_STATUS := JObj([("buckets", JList([OK_BUCKET]))])

  /** The bucket "ok" with three documents, read into an empty row. */
  lemma OkBucket(s: Sheet)
    requires s.rows == [map[]] && s.columns == [] && s.index == {}
    ensures var (t, r) := Collect(s, [], "by_status", OK_BUCKET, Some(0));
      && r.Ok? && t.rows == [map[NStr("ok") := JNum(3.0)]]
      && t.columns == [Column(NStr("ok"), "long")] && t.index == {NStr("ok")}
  {
    hide Evolves, CollectEntries, CollectValue;
    ScalarsCollectNothing(s, [], "by_status", OK_BUCKET, 2, Some(0));
    var entries := OK_BUCKET.fields;
    assert entries[1..][0].0 == "doc_count" && entries[1..][1..] == [];
    assert Get(entries, "value").None? && Get(entries, "key_as_string").None?;
    assert Get(entries, "key") == Some(JStr("ok")) && Get(entries, "doc_count") == Some(JNum(3.0));
    ValueOpensColumn(s, [], 0, "ok", JNum(3.0), "long");
  }

  lemma NamedOkBucket(s: Sheet)
    requires s.rows == [map[NStr("ok") := JNum(3.0)]]
    requires s.columns == [Column(NStr("ok"), "long")] && s.index == {NStr("ok")}
    ensures var (t, ok) := CollectBucket(s, [], "by_status", OK_BUCKET, 0);
      && ok
      && t.rows == [map[NStr("ok") := JNum(3.0), NStr("doc_count") := JNum(3.0), NStr("by_status") := JStr("ok")]]
      && t.columns == [Column(NStr("ok"), "long"), Column(NStr("doc_count"), "integer"),
                       Column(NStr("by_status"), "string")]
  {
    hide Evolves, CollectValue;
    var entries := OK_BUCKET.fields;
    assert entries[1..][0].0 == "doc_count" && entries[1..][1..] == [];
    assert Get(entries, "key_as_string").None?;
    assert Get(entries, "key") == Some(JStr("ok")) && Get(entries, "doc_count") == Some(JNum(3.0));
    ValueOpensColumn(s, [], 0, "doc_count", JNum(3.0), "integer");
    var counted := CollectValue(s, [], Some(0), JStr("doc_count"), JNum(3.0), "integer").0;
    ValueOpensColumn(counted, [], 0, "by_status", JStr("ok"), "string");
  }

  /** One aggregation by_status with one bucket ok of three documents, from an empty table. */
  lemma ByStatus()
    ensures var (t, ok) := Parse(Sheet(map[], [], {}, []), [], Aggregations([("by_status", BY_STATUS)]));
      && ok
      && t.rows == [map[NStr("ok") := JNum(3.0), NStr("doc_count") := JNum(3.0), NStr("by_status") := JStr("ok")]]
      && t.columns == [Column(NStr("ok"), "long"), Column(NStr("doc_count"), "integer"),
                       Column(NStr("by_status"), "string")]
  {
    hide Evolves, Collect, CollectBucket, CollectItems;
    var s := Sheet(map[], [], {}, []);
    var list := JList([OK_BUCKET]);
    ByStatusItems(s);
    ByStatusShape();
    assert s.(index := NamesOf(s.columns)) == s;
    assert AddFields(s, [], 0) == s;
    var walked := CollectItems(s, [], "by_status", list, 1, None).0;
    CollectOnlyBuckets(s, [], "by_status", BY_STATUS, 0);
    ByStatusSucceeds(s);
    NothingCollectedYet(s, [], [("by_status", BY_STATUS)]);
    assert CollectAll(s, [], [("by_status", BY_STATUS)], 1).0 ==
           Collect(CollectAll(s, [], [("by_status", BY_STATUS)], 0).0, [], "by_status", BY_STATUS, None).0;
  }

  lemma ByStatusItems(s: Sheet)
    requires s == Sheet(map[], [], {}, [])
    ensures var (t, ok) := CollectItems(s, [], "by_status", JList([OK_BUCKET]), 1, None);
      && ok
      && t.rows == [map[NStr("ok") := JNum(3.0), NStr("doc_count") := JNum(3.0), NStr("by_status") := JStr("ok")]]
      && t.columns == [Column(NStr("ok"), "long"), Column(NStr("doc_count"), "integer"),
                       Column(NStr("by_status"), "string")]
  {
    hide Evolves, Collect, CollectBucket;
    var widened := s.(rows := s.rows + [map[]]);
    assert CollectItems(s, [], "by_status", JList([OK_BUCKET]), 0, None) == (s, true);
    OkBucket(widened);
    NamedOkBucket(Collect(widened, [], "by_status", OK_BUCKET, Some(0)).0);
  }

  lemma ByStatusSucceeds(s: Sheet)
    requires CollectItems(s, [], "by_status", JList([OK_BUCKET]), 1, None).1
    ensures Collect(s, [], "by_status", BY_STATUS, None).1.Ok?
  {
    hide Evolves, CollectItems, CollectEntries;
    ByStatusShape();
    EntriesOfOnlyBuckets(s, [], "by_status", BY_STATUS, 0, 1);
  }

  lemma ByStatusShape()
    ensures OnlyBuckets(BY_STATUS, 0)
    ensures forall key :: key != "buckets" ==> Get(BY_STATUS.fields, key) == None
  {
    assert BY_STATUS.fields[1..] == [];
  }

  // ----- Hits -----

  /** The row of a hit: each wanted entry in its cell, a list of one value as that value, and nothing else. */
  ghost predicate ShowsHit(row: Row, fields: Fields, hit: seq<(string, Json)>) {
    && (forall j :: 0 <= j < |hit| && Wanted(fields, NStr(hit[j].0)) ==>
         NStr(hit[j].0) in row &&
         row[NStr(hit[j].0)] ==
           if hit[j].1.JList? && |hit[j].1.items| == 1 then hit[j].1.items[0] else hit[j].1)
    && forall x :: x in row ==> Carries(hit, |hit|, x) && Wanted(fields, x)
  }

  lemma {:induction false} HitsInOrder(s: Sheet, fields: Fields, hits: seq<seq<(string, Json)>>, n: nat, k: nat)
    requires k < n <= |hits| && DistinctEntries(hits[k])
    ensures ShowsHit(CollectHits(s, fields, hits, n).rows[|s.rows| + k], fields, hits[k])
    decreases n
  {
    hide Evolves, CollectHit, ShowsHit;
    var before := CollectHits(s, fields, hits, n - 1);
    if k == n - 1 {
      OneHit(before, fields, hits[k]);
    } else {
      HitsInOrder(s, fields, hits, n - 1, k);
    }
  }

  lemma OneHit(s: Sheet, fields: Fields, hit: seq<(string, Json)>)
    requires DistinctEntries(hit)
    ensures ShowsHit(CollectHit(s, fields, hit, |hit|).1, fields, hit)
  {
    hide Evolves, CollectHit, Wanted;
    HitRowIsExact(s, fields, hit, |hit|);
  }

  /** Hits become rows one by one, in order, after the rows that were there. */
  lemma HitsBecomeRows(s: Sheet, fields: Fields, hits: seq<seq<(string, Json)>>, k: nat)
    requires k < |hits| && DistinctEntries(hits[k])
    ensures var (t, ok) := Parse(s, fields, Hits(hits));
      && ok && |t.rows| == |s.rows| + |hits| && s.rows <= t.rows
      && ShowsHit(t.rows[|s.rows| + k], fields, hits[k])
  {
    hide CollectHits, ShowsHit, AddFields, Consistent;
    var headed := AddFields(s.(index := NamesOf(s.columns)), fields, |fields|);
    HitsInOrder(headed, fields, hits, |hits|, k);
  }

  /** New columns have the kind that the mappings give their names, else string; the mappings stay. */
  predicate Mapped(s: Sheet, t: Sheet) {
    && t.mappings == s.mappings && s.columns <= t.columns
    && forall k :: |s.columns| <= k < |t.columns| ==>
         var name := t.columns[k].name;
         t.columns[k].kind == if name in s.mappings then s.mappings[name] else "string"
  }

  lemma {:induction false} FieldsAreMapped(s: Sheet, fields: Fields, n: nat)
    requires n <= |fields|
    ensures Mapped(s, AddFields(s, fields, n))
    ensures forall k :: 0 <= k < n ==> fields[k] in AddFields(s, fields, n).index
    decreases n
  {
    hide Evolves;
    if n > 0 {
      FieldsAreMapped(s, fields, n - 1);
    }
  }

  lemma {:induction false} HitIsMapped(s: Sheet, fields: Fields, hit: seq<(string, Json)>, n: nat)
    requires n <= |hit|
    ensures Mapped(s, CollectHit(s, fields, hit, n).0)
    decreases n
  {
    hide Evolves;
    if n > 0 {
      HitIsMapped(s, fields, hit, n - 1);
    }
  }

  lemma {:induction false} HitsAreMapped(s: Sheet, fields: Fields, hits: seq<seq<(string, Json)>>, n: nat)
    requires n <= |hits|
    ensures Mapped(s, CollectHits(s, fields, hits, n))
    decreases n
  {
    hide Evolves, CollectHit;
    if n > 0 {
      HitsAreMapped(s, fields, hits, n - 1);
      var before := CollectHits(s, fields, hits, n - 1);
      HitIsMapped(before, fields, hits[n - 1], |hits[n - 1]|);
    }
  }

  /** Parsing hits opens columns of the mapped kinds. */
  lemma HitColumnsAreMapped(s: Sheet, fields: Fields, hits: seq<seq<(string, Json)>>)
    ensures Mapped(s, Parse(s, fields, Hits(hits)).0)
  {
    hide Evolves, AddFields, CollectHits;
    var t := s.(index := NamesOf(s.columns));
    FieldsAreMapped(t, fields, |fields|);
    HitsAreMapped(AddFields(t, fields, |fields|), fields, hits, |hits|);
  }

  /** Every requested field has its column, whether or not any row shows it. */
  lemma RequestedFieldsHaveColumns(s: Sheet, fields: Fields, response: Response, k: nat)
    requires Tabular(s) && k < |fields| && (response.Hits? || response.Aggregations?)
    ensures exists c :: c in Parse(s, fields, response).0.columns && c.name == fields[k]
  {
    hide CollectAll, CollectHits, AddFields;
    var t := s.(index := NamesOf(s.columns));
    var headed, final := AddFields(t, fields, |fields|), Parse(s, fields, response).0;
    ConsistentIsTabular(s);
    FieldsAreMapped(t, fields, |fields|);
    assert Evolves(fields, None, headed, final);
    var c :| c in headed.columns && c.name == fields[k];
    assert c in final.columns;
  }

  /** A response that is an error or of no known shape raises and leaves rows and columns as they were. */
  lemma UnusableResponseRaises(s: Sheet, fields: Fields, response: Response)
    requires response.Failed? || response.Unrecognized?
    ensures Parse(s, fields, response) == (s.(index := NamesOf(s.columns)), false)
  {
  }

  // ----- What is stored, and what is skipped -----

  /** Python's falsy JSON values. */
  lemma TruthyExactly(v: Json)
    ensures Truthy(v) <==>
      v != JNull && v != JBool(false) && v != JNum(0.0) && v != JStr("") && v != JList([]) && v != JObj([])
  {
  }

  /** When fields are requested, no other name opens a column or fills a cell. */
  lemma OnlyRequestedFieldsAreShown(s: Sheet, fields: Fields, response: Response)
    requires fields != []
    ensures var t := Parse(s, fields, response).0;
      && s.columns <= t.columns && s.rows <= t.rows
      && (forall k :: |s.columns| <= k < |t.columns| ==> t.columns[k].name in fields)
      && (forall k :: |s.rows| <= k < |t.rows| ==> forall x :: x in t.rows[k] ==> x in fields)
  {
    hide Parse, Consistent;
    assert Evolves(fields, None, s.(index := NamesOf(s.columns)), Parse(s, fields, response).0);
  }

  predicate StandsAt(s: string, part: string, i: int) {
    0 <= i && i + |part| <= |s| && s[i..i + |part|] == part
  }

  ghost predicate Contains(s: string, part: string) {
    exists i :: StandsAt(s, part, i)
  }

  lemma {:induction false} OccursInExactly(part: string, s: string)
    requires part != ""
    ensures OccursIn(part, s) <==> Contains(s, part)
    decreases |s|
  {
    if s != "" {
      OccursInExactly(part, s[1..]);
      hide OccursIn, StandsAt;
      assert OccursIn(part, s) <==> part <= s || OccursIn(part, s[1..]) by {
        OccursInSteps(part, s);
      }
      ContainsInSteps(part, s);
    }
  }

  lemma OccursInSteps(part: string, s: string)
    requires s != ""
    ensures OccursIn(part, s) <==> part <= s || OccursIn(part, s[1..])
  {
  }

  lemma ContainsInSteps(part: string, s: string)
    requires part != "" && s != ""
    ensures Contains(s, part) <==> part <= s || Contains(s[1..], part)
  {
    if Contains(s, part) {
      var i :| StandsAt(s, part, i);
      if i > 0 {
        assert s[1..][i - 1..i - 1 + |part|] == s[i..i + |part|];
        assert StandsAt(s[1..], part, i - 1);
      }
    }
    if Contains(s[1..], part) {
      var i :| StandsAt(s[1..], part, i);
      assert s[i + 1..i + 1 + |part|] == s[1..][i..i + |part|];
      assert StandsAt(s, part, i + 1);
    }
    if part <= s {
      assert StandsAt(s, part, 0);
    }
  }

  /** A member of a list that is no object: a number or null raises, a string if it spells one of the keys. */
  lemma ScalarBucketRaisesExactly(s: Sheet, fields: Fields, name: string, v: Json, i: nat)
    requires Scalar(v) && i < |s.rows|
    ensures CollectBucket(s, fields, name, v, i) ==
            (s, v.JStr? && !Contains(v.s, "doc_count") && !Contains(v.s, "key"))
  {
    hide Evolves, OccursIn;
    if v.JStr? {
      OccursInExactly("doc_count", v.s);
      OccursInExactly("key", v.s);
    }
  }

  /** The number that Python takes a boolean for. */
  function NumberOf(v: Json): Json {
    match v
    case JBool(b) => JNum(if b then 1.0 else 0.0)
    case _ => v
  }

  /** Two values name the same column exactly when they are the same scalar, booleans counting as numbers. */
  lemma SameNameExactly(v: Json, w: Json)
    ensures AsName(v).Some? <==> Scalar(v)
    ensures Scalar(v) && Scalar(w) ==> (AsName(v) == AsName(w) <==> NumberOf(v) == NumberOf(w))
    ensures forall s :: AsName(JStr(s)) == Some(NStr(s))
  {
  }
}

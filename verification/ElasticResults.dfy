// Elasticsearch responses as a table: columns and rows collected from aggregations or hits.

module ElasticResults {
  import opened Outcomes

  /** A JSON value. An object is its entries in order; its keys are distinct. */
  datatype Json =
    | JNull
    | JBool(b: bool)
    | JNum(n: real)
    | JStr(s: string)
    | JList(items: seq<Json>)
    | JObj(fields: seq<(string, Json)>)

  /** A dictionary key: a scalar. True and False are the numbers one and zero, as their hashes and equality have it. */
  datatype Name = NNull | NNum(n: real) | NStr(s: string)

  datatype Column = Column(name: Name, kind: string)

  type Row = map<Name, Json>

  /** The accumulators that one or several responses are parsed into. */
  datatype Sheet = Sheet(mappings: map<Name, string>, columns: seq<Column>, index: set<Name>, rows: seq<Row>)

  /** The requested fields; an empty list asks for all. */
  type Fields = seq<Name>

  function AsName(v: Json): Option<Name> {
    match v
    case JNull => Some(NNull)
    case JBool(b) => Some(NNum(if b then 1.0 else 0.0))
    case JNum(n) => Some(NNum(n))
    case JStr(s) => Some(NStr(s))
    case JList(_) => None
    case JObj(_) => None
  }

  function Truthy(v: Json): bool {
    match v
    case JNull => false
    case JBool(b) => b
    case JNum(n) => n != 0.0
    case JStr(s) => s != ""
    case JList(items) => items != []
    case JObj(fields) => fields != []
  }

  function Get(fields: seq<(string, Json)>, key: string): Option<Json> {
    if fields == [] then None
    else if fields[0].0 == key then Some(fields[0].1)
    else Get(fields[1..], key)
  }

  function Wanted(fields: Fields, name: Name): bool {
    fields == [] || name in fields
  }

  // ----- The table stays consistent -----

  predicate DistinctNames(columns: seq<Column>) {
    forall i, j :: 0 <= i < j < |columns| ==> columns[i].name != columns[j].name
  }

  function NamesOf(columns: seq<Column>): set<Name> {
    set c | c in columns :: c.name
  }

  /** Column names are distinct, the index knows exactly them, and every cell lies in a column. */
  ghost predicate Consistent(s: Sheet) {
    && DistinctNames(s.columns)
    && s.index == NamesOf(s.columns)
    && forall i :: 0 <= i < |s.rows| ==> s.rows[i].Keys <= s.index
  }

  /**
   * What collecting into row may do to a table: consistency is kept, columns and rows are only added,
   * no cell vanishes, only the given row changes, and everything new was asked for.
   */
  ghost predicate Evolves(fields: Fields, row: Option<nat>, s: Sheet, t: Sheet) {
    && (Consistent(s) ==> Consistent(t))
    && s.columns <= t.columns
    && |s.rows| <= |t.rows|
    && (row.Some? ==> |s.rows| == |t.rows|)
    && (forall k :: 0 <= k < |s.rows| && row != Some(k) ==> t.rows[k] == s.rows[k])
    && (forall k :: 0 <= k < |s.rows| ==> s.rows[k].Keys <= t.rows[k].Keys)
    && (forall k :: 0 <= k < |s.rows| ==> forall x :: x in t.rows[k] ==> x in s.rows[k] || Wanted(fields, x))
    && (forall k :: |s.rows| <= k < |t.rows| ==> forall x :: x in t.rows[k] ==> Wanted(fields, x))
    && (forall k :: |s.columns| <= k < |t.columns| ==> Wanted(fields, t.columns[k].name))
  }

  lemma EvolvesSelf(fields: Fields, row: Option<nat>, s: Sheet)
    ensures Evolves(fields, row, s, s)
  {
  }

  lemma EvolvesTwice(fields: Fields, row: Option<nat>, s: Sheet, t: Sheet, u: Sheet)
    requires Evolves(fields, row, s, t) && Evolves(fields, row, t, u)
    ensures Evolves(fields, row, s, u)
  {
  }

  /** A row that was opened on the way is new to the earlier table. */
  lemma EvolvesOpened(fields: Fields, s: Sheet, t: Sheet, u: Sheet, i: nat)
    requires Evolves(fields, None, s, t) && |s.rows| <= i < |t.rows|
    requires Evolves(fields, Some(i), t, u)
    requires forall x :: x in t.rows[i] ==> Wanted(fields, x)
    ensures Evolves(fields, None, s, u)
  {
  }

  function AddColumn(s: Sheet, name: Name): Sheet {
    if name in s.index then s
    else
      s.(columns := s.columns + [Column(name, if name in s.mappings then s.mappings[name] else "string")],
         index := s.index + {name})
  }

  lemma AddColumnEvolves(fields: Fields, row: Option<nat>, s: Sheet, name: Name)
    requires Wanted(fields, name)
    ensures Evolves(fields, row, s, AddColumn(s, name))
    ensures Consistent(s) ==> name in AddColumn(s, name).index
  {
    var t := AddColumn(s, name);
    if Consistent(s) && name !in s.index {
      var c := t.columns[|s.columns|];
      assert t.columns == s.columns + [c];
      assert forall i :: 0 <= i < |s.columns| ==> s.columns[i] in s.columns;
      assert NamesOf(t.columns) == NamesOf(s.columns) + {name};
    }
  }

  /** The row to write to: the given one, or a new one at the end. */
  function OpenRow(s: Sheet, row: Option<nat>): (Sheet, nat) {
    match row
    case Some(i) => (s, i)
    case None => (s.(rows := s.rows + [map[]]), |s.rows|)
  }

  /**
   * Stores a value under a key in a row and adds the column. An unhashable key or a missing row
   * raises; in the latter case the column has been added already.
   */
  function CollectValue(s: Sheet, fields: Fields, row: Option<nat>, key: Json, value: Json, kind: string)
    : (r: (Sheet, bool))
    requires row.Some? ==> row.value < |s.rows|
  {
    match AsName(key)
    case None => (s, false)
    case Some(name) =>
      if !Wanted(fields, name) then (s, true)
      else
        var t := AddColumn(s.(mappings := s.mappings[name := kind]), name);
        if row.None? then (t, false)
        else (t.(rows := t.rows[row.value := t.rows[row.value][name := value]]), true)
  }

  lemma CollectValueEvolves(s: Sheet, fields: Fields, row: Option<nat>, key: Json, value: Json, kind: string)
    requires row.Some? ==> row.value < |s.rows|
    ensures Evolves(fields, row, s, CollectValue(s, fields, row, key, value, kind).0)
  {
    var name := AsName(key);
    if name.Some? && Wanted(fields, name.value) {
      var m := s.(mappings := s.mappings[name.value := kind]);
      AddColumnEvolves(fields, row, m, name.value);
    }
  }

  lemma OpenRowEvolves(fields: Fields, s: Sheet, row: Option<nat>)
    ensures Evolves(fields, row, s, OpenRow(s, row).0)
  {
  }

  /** Steps that write to row, or to a row opened since s, evolve s as writing to row does. */
  lemma Chain(fields: Fields, row: Option<nat>, current: Option<nat>, s: Sheet, t: Sheet, u: Sheet)
    requires Evolves(fields, row, s, t) && Evolves(fields, current, t, u)
    requires current == row || (row.None? && |s.rows| <= current.value < |t.rows|)
    ensures Evolves(fields, row, s, u)
  {
    if current == row {
      EvolvesTwice(fields, row, s, t, u);
    } else {
      EvolvesOpened(fields, s, t, u, current.value);
    }
  }

  // ----- Aggregations -----

  predicate OccursIn(part: string, s: string) {
    part <= s || (s != "" && OccursIn(part, s[1..]))
  }

  /** `name in value` for a member of a list: keys of an object, elements of a list, parts of a string. */
  function Has(name: string, value: Json): Result<bool> {
    match value
    case JObj(fields) => Ok(Get(fields, name).Some?)
    case JList(items) => Ok(JStr(name) in items)
    case JStr(s) => Ok(OccursIn(name, s))
    case JNull => Err(TypeError)
    case JBool(_) => Err(TypeError)
    case JNum(_) => Err(TypeError)
  }

  /** The document count and the key of a bucket, in its row. */
  function CollectBucket(s: Sheet, fields: Fields, parent: string, value: Json, i: nat): (r: (Sheet, bool))
    requires i < |s.rows|
    ensures Evolves(fields, Some(i), s, r.0)
  {
    EvolvesSelf(fields, Some(i), s);
    var counted := CollectMember(s, fields, "doc_count", value, "doc_count", "integer", i);
    if !counted.1 then counted
    else
      var named :=
        if value.JObj? && Get(value.fields, "key").Some? && Get(value.fields, "key_as_string").Some?
        then CollectMember(counted.0, fields, "key_as_string", value, parent, "string", i)
        else CollectMember(counted.0, fields, "key", value, parent, "string", i);
      EvolvesTwice(fields, Some(i), s, counted.0, named.0);
      named
  }

  /** Stores member `name` of the value under column, if the value has it; only objects can be read by name. */
  function CollectMember(s: Sheet, fields: Fields, name: string, value: Json, column: string, kind: string, i: nat)
    : (r: (Sheet, bool))
    requires i < |s.rows|
    ensures Evolves(fields, Some(i), s, r.0)
  {
    EvolvesSelf(fields, Some(i), s);
    match Has(name, value)
    case Err(_) => (s, false)
    case Ok(false) => (s, true)
    case Ok(true) =>
      if !value.JObj? then (s, false)
      else
        CollectValueEvolves(s, fields, Some(i), JStr(column), Get(value.fields, name).value, kind);
        CollectValue(s, fields, Some(i), JStr(column), Get(value.fields, name).value, kind)
  }

  /** One of the two keys that end an object: a value to return, or, beside a lone key, a cell to store. */
  function CollectOwn(s: Sheet, fields: Fields, entries: seq<(string, Json)>, name: string, row: Option<nat>)
    : (r: (Sheet, Option<Result<Option<Json>>>))
    requires row.Some? ==> row.value < |s.rows|
    ensures Evolves(fields, row, s, r.0)
  {
    EvolvesSelf(fields, row, s);
    var own := Get(entries, name);
    if own.None? then (s, None)
    else if Get(entries, "key").Some? && |entries| == 2 then
      var text := Get(entries, "key_as_string");
      var key := if text.None? then Get(entries, "key").value else text.value;
      var kind := if text.None? then "long" else "string";
      CollectValueEvolves(s, fields, row, key, own.value, kind);
      var stored := CollectValue(s, fields, row, key, own.value, kind);
      (stored.0, if stored.1 then None else Some(Err(TypeError)))
    else (s, Some(Ok(own)))
  }

  /** collect_aggregations: the table afterwards and the value returned, if any. */
  function Collect(s: Sheet, fields: Fields, parent: string, data: Json, row: Option<nat>)
    : (r: (Sheet, Result<Option<Json>>))
    requires row.Some? ==> row.value < |s.rows|
    ensures Evolves(fields, row, s, r.0)
    decreases data, 2, 0
  {
    EvolvesSelf(fields, row, s);
    match data
    case JObj(entries) =>
      var walked := CollectEntries(s, fields, parent, data, |entries|, row);
      (match walked.1
       case Err(e) => (walked.0, Err(e))
       case Ok(current) =>
         var first := CollectOwn(walked.0, fields, entries, "value", current);
         Chain(fields, row, current, s, walked.0, first.0);
         if first.1.Some? then (first.0, first.1.value)
         else
           var second := CollectOwn(first.0, fields, entries, "doc_count", current);
           Chain(fields, row, current, s, first.0, second.0);
           (second.0, if second.1.Some? then second.1.value else Ok(None)))
    case JList(items) =>
      var walked := CollectItems(s, fields, parent, data, |items|, row);
      (walked.0, if walked.1 then Ok(None) else Err(TypeError))
    case _ => (s, Ok(None))
  }

  /** The first n entries of an object; also the row in use afterwards. */
  function CollectEntries(s: Sheet, fields: Fields, parent: string, data: Json, n: nat, row: Option<nat>)
    : (r: (Sheet, Result<Option<nat>>))
    requires data.JObj? && n <= |data.fields|
    requires row.Some? ==> row.value < |s.rows|
    ensures Evolves(fields, row, s, r.0)
    ensures r.1.Ok? ==> RowAfter(row, r.1.value, s, r.0)
    decreases data, 1, n
  {
    EvolvesSelf(fields, row, s);
    if n == 0 then (s, Ok(row))
    else
      var before := CollectEntries(s, fields, parent, data, n - 1, row);
      match before.1
      case Err(e) => before
      case Ok(current) =>
        var next := CollectEntry(before.0, fields, parent, data.fields[n - 1].0, data.fields[n - 1].1, current);
        Chain(fields, row, current, s, before.0, next.0);
        next
  }

  /** The row in use after a step: the same one, or, when there was none, one opened by the step. */
  predicate RowAfter(row: Option<nat>, current: Option<nat>, s: Sheet, t: Sheet) {
    && (current.Some? ==> current.value < |t.rows|)
    && (current == row || (row.None? && |s.rows| <= current.value))
  }

  /** One entry of an object: what it collects below, and its own value if there is one to store. */
  function CollectEntry(s: Sheet, fields: Fields, parent: string, key: string, value: Json, row: Option<nat>)
    : (r: (Sheet, Result<Option<nat>>))
    requires row.Some? ==> row.value < |s.rows|
    ensures Evolves(fields, row, s, r.0)
    ensures r.1.Ok? ==> RowAfter(row, r.1.value, s, r.0)
    decreases value, 3, 0
  {
    var inner := Collect(s, fields, if key == "buckets" then parent else key, value, row);
    match inner.1
    case Err(e) => (inner.0, Err(e))
    case Ok(found) =>
      if found.None? || !Truthy(found.value) then (inner.0, Ok(row))
      else
        var (widened, i) := OpenRow(inner.0, row);
        OpenRowEvolves(fields, inner.0, row);
        Chain(fields, row, row, s, inner.0, widened);
        CollectValueEvolves(widened, fields, Some(i), JStr(key), found.value, "long");
        var stored := CollectValue(widened, fields, Some(i), JStr(key), found.value, "long");
        Chain(fields, row, Some(i), s, widened, stored.0);
        (stored.0, if stored.1 then Ok(Some(i)) else Err(TypeError))
  }

  /** The first n members of a list; without a row each gets a row of its own. */
  function CollectItems(s: Sheet, fields: Fields, parent: string, data: Json, n: nat, row: Option<nat>)
    : (r: (Sheet, bool))
    requires data.JList? && n <= |data.items|
    requires row.Some? ==> row.value < |s.rows|
    ensures Evolves(fields, row, s, r.0)
    ensures row.None? && r.1 ==> |r.0.rows| == |s.rows| + n
    decreases data, 1, n
  {
    EvolvesSelf(fields, row, s);
    if n == 0 then (s, true)
    else
      var before := CollectItems(s, fields, parent, data, n - 1, row);
      if !before.1 then before
      else
        var value := data.items[n - 1];
        var (widened, i) := OpenRow(before.0, row);
        OpenRowEvolves(fields, before.0, row);
        Chain(fields, row, row, s, before.0, widened);
        var inner := Collect(widened, fields, parent, value, Some(i));
        Chain(fields, row, Some(i), s, widened, inner.0);
        if inner.1.Err? then (inner.0, false)
        else
          var bucket := CollectBucket(inner.0, fields, parent, value, i);
          Chain(fields, row, Some(i), s, inner.0, bucket.0);
          bucket
  }

  /** The first n aggregations of a response, each starting without a row. */
  function CollectAll(s: Sheet, fields: Fields, aggregations: seq<(string, Json)>, n: nat): (r: (Sheet, bool))
    requires n <= |aggregations|
    ensures Evolves(fields, None, s, r.0)
  {
    EvolvesSelf(fields, None, s);
    if n == 0 then (s, true)
    else
      var before := CollectAll(s, fields, aggregations, n - 1);
      if !before.1 then before
      else
        var next := Collect(before.0, fields, aggregations[n - 1].0, aggregations[n - 1].1, None);
        EvolvesTwice(fields, None, s, before.0, next.0);
        (next.0, next.1.Ok?)
  }

  // ----- Hits -----

  /** A list of one value is shown as that value. */
  function CellOf(v: Json): Json {
    if v.JList? && |v.items| == 1 then v.items[0] else v
  }

  /** The columns and the row of the first n entries of a hit. */
  function CollectHit(s: Sheet, fields: Fields, hit: seq<(string, Json)>, n: nat): (r: (Sheet, Row))
    requires n <= |hit|
    ensures Evolves(fields, None, s, r.0) && r.0.rows == s.rows
    ensures Consistent(s) ==> r.1.Keys <= r.0.index
    ensures forall x :: x in r.1 ==> Wanted(fields, x)
  {
    EvolvesSelf(fields, None, s);
    if n == 0 then (s, map[])
    else
      var (t, row) := CollectHit(s, fields, hit, n - 1);
      var name := NStr(hit[n - 1].0);
      if !Wanted(fields, name) then (t, row)
      else
        AddColumnEvolves(fields, None, t, name);
        EvolvesTwice(fields, None, s, t, AddColumn(t, name));
        (AddColumn(t, name), row[name := CellOf(hit[n - 1].1)])
  }

  function CollectHits(s: Sheet, fields: Fields, hits: seq<seq<(string, Json)>>, n: nat): (r: Sheet)
    requires n <= |hits|
    ensures Evolves(fields, None, s, r) && |r.rows| == |s.rows| + n
  {
    EvolvesSelf(fields, None, s);
    if n == 0 then s
    else
      var before := CollectHits(s, fields, hits, n - 1);
      var (t, row) := CollectHit(before, fields, hits[n - 1], |hits[n - 1]|);
      AppendEvolves(fields, before, t, row);
      EvolvesTwice(fields, None, s, before, t.(rows := t.rows + [row]));
      t.(rows := t.rows + [row])
  }

  /** Appending a row whose cells lie in the columns just added for it. */
  lemma AppendEvolves(fields: Fields, s: Sheet, t: Sheet, row: Row)
    requires Evolves(fields, None, s, t) && t.rows == s.rows
    requires Consistent(s) ==> row.Keys <= t.index
    requires forall x :: x in row ==> Wanted(fields, x)
    ensures Evolves(fields, None, s, t.(rows := t.rows + [row]))
  {
  }

  function AddFields(s: Sheet, fields: Fields, n: nat): (r: Sheet)
    requires n <= |fields|
    ensures Evolves(fields, None, s, r) && r.rows == s.rows
  {
    EvolvesSelf(fields, None, s);
    if n == 0 then s
    else
      var before := AddFields(s, fields, n - 1);
      AddColumnEvolves(fields, None, before, fields[n - 1]);
      EvolvesTwice(fields, None, s, before, AddColumn(before, fields[n - 1]));
      AddColumn(before, fields[n - 1])
  }

  /** The parts of a response that are parsed; a hit is the entries of its source or of its fields. */
  datatype Response =
    | Failed
    | Aggregations(aggregations: seq<(string, Json)>)
    | Hits(hits: seq<seq<(string, Json)>>)
    | Unrecognized

  /** The table after a response; false means that parsing raised, possibly after filling in a part. */
  function Parse(s: Sheet, fields: Fields, response: Response): (r: (Sheet, bool))
    ensures Evolves(fields, None, s.(index := NamesOf(s.columns)), r.0)
  {
    var t := s.(index := NamesOf(s.columns));
    EvolvesSelf(fields, None, t);
    match response
    case Failed => (t, false)
    case Unrecognized => (t, false)
    case Aggregations(aggregations) =>
      var headed := AddFields(t, fields, |fields|);
      var filled := CollectAll(headed, fields, aggregations, |aggregations|);
      EvolvesTwice(fields, None, t, headed, filled.0);
      filled
    case Hits(hits) =>
      var headed := AddFields(t, fields, |fields|);
      var filled := CollectHits(headed, fields, hits, |hits|);
      EvolvesTwice(fields, None, t, headed, filled);
      (filled, true)
  }

  // ----- The loops -----

  class ResultTable {
    var mappings: map<Name, string>
    var columns: seq<Column>
    var index: set<Name>
    var rows: seq<Row>
    const resultFields: Fields

    constructor (resultFields: Fields, mappings: map<Name, string>)
      ensures columns == [] && rows == [] && this.resultFields == resultFields && this.mappings == mappings
    {
      this.mappings, columns, index, rows, this.resultFields := mappings, [], {}, [], resultFields;
    }

    function State(): Sheet
      reads this
    {
      Sheet(mappings, columns, index, rows)
    }

    method AddColumnIfNeeded(name: Name)
      modifies this
      ensures State() == AddColumn(old(State()), name)
    {
      if name !in index {
        var kind := if name in mappings then mappings[name] else "string";
        columns := columns + [Column(name, kind)];
        index := index + {name};
      }
    }

    method GetRow(row: Option<nat>) returns (i: nat)
      modifies this`rows
      ensures (State(), i) == OpenRow(old(State()), row)
    {
      match row
      case None =>
        i := |rows|;
        rows := rows + [map[]];
      case Some(given) =>
        i := given;
    }

    method StoreValue(row: Option<nat>, key: Json, value: Json, kind: string) returns (ok: bool)
      requires row.Some? ==> row.value < |rows|
      modifies this
      ensures (State(), ok) == CollectValue(old(State()), resultFields, row, key, value, kind)
      ensures |rows| == |old(rows)|
    {
      var name := AsName(key);
      if name.None? {
        return false;
      }
      if !Wanted(resultFields, name.value) {
        return true;
      }
      mappings := mappings[name.value := kind];
      AddColumnIfNeeded(name.value);
      if row.None? {
        return false;
      }
      rows := rows[row.value := rows[row.value][name.value := value]];
      ok := true;
    }

    method CollectAggregations(parentKey: string, data: Json, row: Option<nat>) returns (r: Result<Option<Json>>)
      requires row.Some? ==> row.value < |rows|
      modifies this
      ensures (State(), r) == Collect(old(State()), resultFields, parentKey, data, row)
      ensures |rows| >= |old(rows)|
      decreases data, 2
    {
      RowsStay(State(), resultFields, parentKey, data, row);
      match data
      case JObj(_) => r := CollectObject(parentKey, data, row);
      case JList(_) => r := CollectList(parentKey, data, row);
      case _ => r := Ok(None);
    }

    method CollectObject(parentKey: string, data: Json, row: Option<nat>) returns (r: Result<Option<Json>>)
      requires data.JObj? && (row.Some? ==> row.value < |rows|)
      modifies this
      ensures (State(), r) == Collect(old(State()), resultFields, parentKey, data, row)
      decreases data, 1
    {
      hide Evolves, CollectEntry, CollectOwn;
      var entries := data.fields;
      var current := row;
      ghost var start := State();
      for n := 0 to |entries|
        invariant (State(), Ok(current)) == CollectEntries(start, resultFields, parentKey, data, n, row)
        invariant current.Some? ==> current.value < |rows|
      {
        var next := CollectField(parentKey, entries[n].0, entries[n].1, current);
        if next.Err? {
          EntriesStop(start, resultFields, parentKey, data, n + 1, |entries|, row);
          return Err(next.error);
        }
        current := next.value;
      }
      var own := StoreOwn(entries, "value", current);
      if own.None? {
        own := StoreOwn(entries, "doc_count", current);
      }
      r := if own.Some? then own.value else Ok(None);
    }

    /** One turn of the loop over an object; the result is the row in use afterwards. */
    method CollectField(parentKey: string, key: string, value: Json, row: Option<nat>) returns (r: Result<Option<nat>>)
      requires row.Some? ==> row.value < |rows|
      modifies this
      ensures (State(), r) == CollectEntry(old(State()), resultFields, parentKey, key, value, row)
      decreases value, 3
    {
      var val := CollectAggregations(if key == "buckets" then parentKey else key, value, row);
      if val.Err? {
        return Err(val.error);
      }
      if val.value.None? || !Truthy(val.value.value) {
        return Ok(row);
      }
      var i := GetRow(row);
      var ok := StoreValue(Some(i), JStr(key), val.value.value, "long");
      r := if ok then Ok(Some(i)) else Err(TypeError);
    }

    method CollectList(parentKey: string, data: Json, row: Option<nat>) returns (r: Result<Option<Json>>)
      requires data.JList? && (row.Some? ==> row.value < |rows|)
      modifies this
      ensures (State(), r) == Collect(old(State()), resultFields, parentKey, data, row)
      decreases data, 1
    {
      hide Evolves, CollectBucket;
      var items := data.items;
      ghost var start := State();
      for n := 0 to |items|
        invariant (State(), true) == CollectItems(start, resultFields, parentKey, data, n, row)
        invariant row.Some? ==> row.value < |rows|
      {
        var value := items[n];
        var resultRow := GetRow(row);
        var inner := CollectAggregations(parentKey, value, Some(resultRow));
        if inner.Err? {
          ItemsStop(start, resultFields, parentKey, data, n + 1, |items|, row);
          return Err(TypeError);
        }
        var ok := StoreBucket(parentKey, value, resultRow);
        if !ok {
          ItemsStop(start, resultFields, parentKey, data, n + 1, |items|, row);
          return Err(TypeError);
        }
      }
      r := Ok(None);
    }

    method StoreOwn(entries: seq<(string, Json)>, name: string, row: Option<nat>)
      returns (r: Option<Result<Option<Json>>>)
      requires row.Some? ==> row.value < |rows|
      modifies this
      ensures (State(), r) == CollectOwn(old(State()), resultFields, entries, name, row)
      ensures row.Some? ==> row.value < |rows|
    {
      var own := Get(entries, name);
      if own.None? {
        return None;
      }
      if Get(entries, "key").Some? && |entries| == 2 {
        var text := Get(entries, "key_as_string");
        var ok;
        if text.None? {
          ok := StoreValue(row, Get(entries, "key").value, own.value, "long");
        } else {
          ok := StoreValue(row, text.value, own.value, "string");
        }
        r := if ok then None else Some(Err(TypeError));
      } else {
        r := Some(Ok(own));
      }
    }

    method StoreBucket(parentKey: string, value: Json, row: nat) returns (ok: bool)
      requires row < |rows|
      modifies this
      ensures (State(), ok) == CollectBucket(old(State()), resultFields, parentKey, value, row)
      ensures |rows| == |old(rows)|
    {
      ok := StoreMember("doc_count", value, "doc_count", "integer", row);
      if ok {
        if value.JObj? && Get(value.fields, "key").Some? && Get(value.fields, "key_as_string").Some? {
          ok := StoreMember("key_as_string", value, parentKey, "string", row);
        } else {
          ok := StoreMember("key", value, parentKey, "string", row);
        }
      }
    }

    method StoreMember(name: string, value: Json, column: string, kind: string, row: nat) returns (ok: bool)
      requires row < |rows|
      modifies this
      ensures (State(), ok) == CollectMember(old(State()), resultFields, name, value, column, kind, row)
      ensures |rows| == |old(rows)|
    {
      var has := Has(name, value);
      if has.Err? {
        return false;
      }
      if !has.value {
        return true;
      }
      if !value.JObj? {
        return false;
      }
      ok := StoreValue(Some(row), JStr(column), Get(value.fields, name).value, kind);
    }

    /** One response; false means that parsing raised. */
    method ParseResults(response: Response) returns (ok: bool)
      modifies this
      ensures (State(), ok) == Parse(old(State()), resultFields, response)
    {
      hide Evolves;
      index := NamesOf(columns);
      if response.Failed? || response.Unrecognized? {
        return false;
      }
      ghost var indexed := State();
      for n := 0 to |resultFields|
        invariant State() == AddFields(indexed, resultFields, n)
      {
        AddColumnIfNeeded(resultFields[n]);
      }
      ghost var headed := State();
      match response
      case Aggregations(aggregations) =>
        for n := 0 to |aggregations|
          invariant (State(), true) == CollectAll(headed, resultFields, aggregations, n)
        {
          var r := CollectAggregations(aggregations[n].0, aggregations[n].1, None);
          if r.Err? {
            StopsAt(headed, resultFields, aggregations, n + 1, |aggregations|);
            return false;
          }
        }
        ok := true;
      case Hits(hits) =>
        for n := 0 to |hits|
          invariant State() == CollectHits(headed, resultFields, hits, n)
        {
          StoreHit(hits[n]);
        }
        ok := true;
    }

    method StoreHit(hit: seq<(string, Json)>)
      modifies this
      ensures var r := CollectHit(old(State()), resultFields, hit, |hit|);
        State() == r.0.(rows := r.0.rows + [r.1])
    {
      hide Evolves;
      var row: Row := map[];
      for n := 0 to |hit|
        invariant (State(), row) == CollectHit(old(State()), resultFields, hit, n)
      {
        var column, value := NStr(hit[n].0), hit[n].1;
        if Wanted(resultFields, column) {
          AddColumnIfNeeded(column);
          row := row[column := if value.JList? && |value.items| == 1 then value.items[0] else value];
        }
      }
      rows := rows + [row];
    }
  }

  /** A failing step ends the walk: later entries do not change the outcome. */
  lemma {:induction false} StopsAt(s: Sheet, fields: Fields, aggregations: seq<(string, Json)>, n: nat, m: nat)
    requires n <= m <= |aggregations| && !CollectAll(s, fields, aggregations, n).1
    ensures CollectAll(s, fields, aggregations, m) == CollectAll(s, fields, aggregations, n)
    decreases m
  {
    hide Evolves, Collect;
    if n < m {
      StopsAt(s, fields, aggregations, n, m - 1);
    }
  }

  lemma RowsStay(s: Sheet, fields: Fields, parent: string, data: Json, row: Option<nat>)
    requires row.Some? ==> row.value < |s.rows|
    ensures |Collect(s, fields, parent, data, row).0.rows| >= |s.rows|
  {
  }

  lemma {:induction false} EntriesStop(s: Sheet, fields: Fields, parent: string, data: Json, n: nat, m: nat,
                                       row: Option<nat>)
    requires data.JObj? && n <= m <= |data.fields| && (row.Some? ==> row.value < |s.rows|)
    requires CollectEntries(s, fields, parent, data, n, row).1.Err?
    ensures CollectEntries(s, fields, parent, data, m, row) == CollectEntries(s, fields, parent, data, n, row)
    decreases m
  {
    hide Evolves;
    if n < m {
      EntriesStop(s, fields, parent, data, n, m - 1, row);
    }
  }

  lemma {:induction false} ItemsStop(s: Sheet, fields: Fields, parent: string, data: Json, n: nat, m: nat,
                                     row: Option<nat>)
    requires data.JList? && n <= m <= |data.items| && (row.Some? ==> row.value < |s.rows|)
    requires !CollectItems(s, fields, parent, data, n, row).1
    ensures CollectItems(s, fields, parent, data, m, row) == CollectItems(s, fields, parent, data, n, row)
    decreases m
  {
    hide Evolves;
    if n < m {
      ItemsStop(s, fields, parent, data, n, m - 1, row);
    }
  }

  // ----- What a table promises -----

  /** Column names are pairwise distinct and every cell of every row has its column. */
  ghost predicate Tabular(s: Sheet) {
    && DistinctNames(s.columns)
    && forall i :: 0 <= i < |s.rows| ==> forall x :: x in s.rows[i] ==> exists c :: c in s.columns && c.name == x
  }

  lemma ConsistentIsTabular(s: Sheet)
    ensures Consistent(s) ==> Tabular(s)
    ensures Tabular(s) ==> Consistent(s.(index := NamesOf(s.columns)))
  {
    if Tabular(s) {
      forall i | 0 <= i < |s.rows|
        ensures s.rows[i].Keys <= NamesOf(s.columns)
      {
        forall x | x in s.rows[i]
          ensures x in NamesOf(s.columns)
        {
          var c :| c in s.columns && c.name == x;
        }
      }
    }
  }

  /** The table after several responses parsed into the same accumulators, failing ones included. */
  function ParseAll(s: Sheet, fields: Fields, responses: seq<Response>): Sheet
    decreases |responses|
  {
    if responses == [] then s else ParseAll(Parse(s, fields, responses[0]).0, fields, responses[1..])
  }

  /** However many responses are parsed and wherever parsing raises, the accumulators form a table. */
  lemma {:induction false} ParsingStaysTabular(s: Sheet, fields: Fields, responses: seq<Response>)
    requires Tabular(s)
    ensures Tabular(ParseAll(s, fields, responses))
    ensures s.columns <= ParseAll(s, fields, responses).columns && s.rows <= ParseAll(s, fields, responses).rows
    decreases |responses|
  {
    if responses != [] {
      hide Parse;
      var t := Parse(s, fields, responses[0]).0;
      ConsistentIsTabular(s);
      ConsistentIsTabular(t);
      assert Evolves(fields, None, s.(index := NamesOf(s.columns)), t);
      ParsingStaysTabular(t, fields, responses[1..]);
    }
  }

  /** A bucket with a key. */
  predicate KeyedBucket(value: Json) {
    value.JObj? && Get(value.fields, "key").Some?
  }

  /** What a bucket shows: its key as a string where it has one, as date histograms do, else its key. */
  function BucketKey(value: Json): Json
    requires KeyedBucket(value)
  {
    var text := Get(value.fields, "key_as_string");
    if text.Some? then text.value else Get(value.fields, "key").value
  }

  /** A keyed bucket's key, and its count, end up in its row. */
  lemma BucketIsStored(s: Sheet, fields: Fields, parent: string, value: Json, i: nat)
    requires i < |s.rows| && KeyedBucket(value)
    requires CollectBucket(s, fields, parent, value, i).1
    ensures var t := CollectBucket(s, fields, parent, value, i).0;
      && |t.rows| == |s.rows|
      && (Wanted(fields, NStr(parent)) ==>
           NStr(parent) in t.rows[i] && t.rows[i][NStr(parent)] == BucketKey(value))
      && (Wanted(fields, NStr("doc_count")) && parent != "doc_count" && Get(value.fields, "doc_count").Some? ==>
           NStr("doc_count") in t.rows[i] && t.rows[i][NStr("doc_count")] == Get(value.fields, "doc_count").value)
  {
    hide Evolves, CollectMember, Wanted;
    var counted := CollectMember(s, fields, "doc_count", value, "doc_count", "integer", i).0;
    MemberIsStored(s, fields, "doc_count", value, "doc_count", "integer", i);
    var name := if Get(value.fields, "key_as_string").Some? then "key_as_string" else "key";
    MemberIsStored(counted, fields, name, value, parent, "string", i);
  }

  /** Storing a member of an object touches one cell of the row. */
  lemma MemberIsStored(s: Sheet, fields: Fields, name: string, value: Json, column: string, kind: string, i: nat)
    requires i < |s.rows| && value.JObj?
    ensures var (t, ok) := CollectMember(s, fields, name, value, column, kind, i);
      && ok && |t.rows| == |s.rows|
      && (forall x :: x in s.rows[i] && x != NStr(column) ==> x in t.rows[i] && t.rows[i][x] == s.rows[i][x])
      && (Wanted(fields, NStr(column)) && Get(value.fields, name).Some? ==>
           NStr(column) in t.rows[i] && t.rows[i][NStr(column)] == Get(value.fields, name).value)
  {
    hide Evolves;
  }

  /** A list that is walked without raising was walked so up to its last member, and stored that one. */
  lemma LastItem(s: Sheet, fields: Fields, parent: string, data: Json, n: nat, row: Option<nat>)
    returns (inner: Sheet, i: nat)
    requires data.JList? && 0 < n <= |data.items| && (row.Some? ==> row.value < |s.rows|)
    requires CollectItems(s, fields, parent, data, n, row).1
    ensures CollectItems(s, fields, parent, data, n - 1, row).1
    ensures i == (if row.Some? then row.value else |s.rows| + n - 1) && i < |inner.rows|
    ensures CollectBucket(inner, fields, parent, data.items[n - 1], i) == CollectItems(s, fields, parent, data, n, row)
    ensures var before := CollectItems(s, fields, parent, data, n - 1, row).0;
      forall k :: 0 <= k < |before.rows| && k != i ==> k < |inner.rows| && inner.rows[k] == before.rows[k]
    ensures |inner.rows| == |CollectItems(s, fields, parent, data, n, row).0.rows|
  {
    hide CollectBucket, Collect, Evolves;
    var before := CollectItems(s, fields, parent, data, n - 1, row).0;
    RowsOf(fields, row, s, before);
    var (widened, r) := OpenRow(before, row);
    i := r;
    inner := Collect(widened, fields, parent, data.items[n - 1], Some(r)).0;
    RowsOf(fields, Some(r), widened, inner);
    RowsOf(fields, Some(r), inner, CollectBucket(inner, fields, parent, data.items[n - 1], i).0);
  }

  /** What an evolution leaves of the rows. */
  lemma RowsOf(fields: Fields, row: Option<nat>, s: Sheet, t: Sheet)
    requires Evolves(fields, row, s, t)
    ensures |s.rows| <= |t.rows| && (row.Some? ==> |s.rows| == |t.rows|)
    ensures forall k :: 0 <= k < |s.rows| && row != Some(k) ==> t.rows[k] == s.rows[k]
  {
  }

  /** Each member of a list without a row gets the next row, and later members leave it alone. */
  lemma {:induction false} EachBucketHasItsRow(s: Sheet, fields: Fields, parent: string, data: Json, n: nat, i: nat)
    requires data.JList? && i < n <= |data.items| && KeyedBucket(data.items[i])
    requires Wanted(fields, NStr(parent)) && CollectItems(s, fields, parent, data, n, None).1
    ensures var t := CollectItems(s, fields, parent, data, n, None).0;
      && |t.rows| == |s.rows| + n
      && NStr(parent) in t.rows[|s.rows| + i]
      && t.rows[|s.rows| + i][NStr(parent)] == BucketKey(data.items[i])
    decreases n
  {
    hide CollectBucket, CollectItems, Evolves;
    var inner, r := LastItem(s, fields, parent, data, n, None);
    if i == n - 1 {
      BucketIsStored(inner, fields, parent, data.items[i], r);
    } else {
      EachBucketHasItsRow(s, fields, parent, data, n - 1, i);
      RowsOf(fields, Some(r), inner, CollectBucket(inner, fields, parent, data.items[n - 1], r).0);
    }
  }

  /**
   * The members of a nested list share their parent's row: of their keys only the last remains. The
   * table therefore does not list nested buckets one by one.
   */
  lemma LastNestedBucketWins(s: Sheet, fields: Fields, parent: string, data: Json, row: nat)
    requires data.JList? && data.items != [] && row < |s.rows| && KeyedBucket(data.items[|data.items| - 1])
    requires Wanted(fields, NStr(parent)) && CollectItems(s, fields, parent, data, |data.items|, Some(row)).1
    ensures var t := CollectItems(s, fields, parent, data, |data.items|, Some(row)).0;
      && |t.rows| == |s.rows|
      && NStr(parent) in t.rows[row]
      && t.rows[row][NStr(parent)] == BucketKey(data.items[|data.items| - 1])
  {
    hide CollectBucket, CollectItems, Evolves;
    var n := |data.items|;
    var inner, r := LastItem(s, fields, parent, data, n, Some(row));
    BucketIsStored(inner, fields, parent, data.items[n - 1], r);
    RowsOf(fields, Some(row), s, CollectItems(s, fields, parent, data, n, Some(row)).0);
  }

  ghost predicate DistinctEntries(hit: seq<(string, Json)>) {
    forall i, j :: 0 <= i < j < |hit| ==> hit[i].0 != hit[j].0
  }

  /** x is the name of one of the first n entries. */
  ghost predicate Carries(hit: seq<(string, Json)>, n: nat, x: Name) {
    exists i :: 0 <= i < n <= |hit| && NStr(hit[i].0) == x
  }

  lemma HitInSteps(s: Sheet, fields: Fields, hit: seq<(string, Json)>, n: nat)
    requires n <= |hit|
    ensures CollectHit(s, fields, hit, n).1 ==
            if n == 0 then map[]
            else
              var before, name := CollectHit(s, fields, hit, n - 1).1, NStr(hit[n - 1].0);
              if Wanted(fields, name) then before[name := CellOf(hit[n - 1].1)] else before
  {
    hide Evolves, AddColumn, Wanted;
  }

  /** The row of a hit holds exactly the wanted entries, a list of one shown as its value. */
  lemma {:induction false} HitRowIsExact(s: Sheet, fields: Fields, hit: seq<(string, Json)>, n: nat)
    requires n <= |hit| && DistinctEntries(hit)
    ensures var row := CollectHit(s, fields, hit, n).1;
      && (forall i :: 0 <= i < n && Wanted(fields, NStr(hit[i].0)) ==>
           NStr(hit[i].0) in row && row[NStr(hit[i].0)] == CellOf(hit[i].1))
      && (forall x :: x in row ==> Carries(hit, n, x))
    decreases n
  {
    hide Evolves, AddColumn, Wanted, CollectHit, CellOf;
    HitInSteps(s, fields, hit, n);
    if n > 0 {
      HitRowIsExact(s, fields, hit, n - 1);
      assert forall i :: 0 <= i < n - 1 ==> hit[i].0 != hit[n - 1].0;
      forall x | x in CollectHit(s, fields, hit, n).1
        ensures Carries(hit, n, x)
      {
        if x == NStr(hit[n - 1].0) {
          assert Carries(hit, n, x);
        } else {
          assert Carries(hit, n - 1, x);
        }
      }
    }
  }
}

// Table names in the PostgreSQL schema browser.

module PgSchema {
  datatype TableId = TableId(schema: string, name: string)

  /** A row of the catalogue query. */
  datatype CatalogRow = CatalogRow(table: TableId, column: string)

  datatype Entry = Entry(name: string, columns: seq<string>)

  function FullTableName(t: TableId): string {
    t.schema + "." + if '.' in t.name then "\"" + t.name + "\"" else t.name
  }

  function FullNames(rows: seq<CatalogRow>): set<string> {
    set r | r in rows :: FullTableName(r.table)
  }

  /** The public schema is omitted, unless the bare name is some table's full name. */
  function TableKey(names: set<string>, t: TableId): string {
    if t.schema != "public" || t.name in names then FullTableName(t) else t.name
  }

  /** The columns of the rows filed under key, in row order. */
  function ColumnsUnder(rows: seq<CatalogRow>, names: set<string>, key: string): seq<string> {
    if rows == [] then []
    else
      var last := rows[|rows| - 1];
      ColumnsUnder(rows[..|rows| - 1], names, key) + if TableKey(names, last.table) == key then [last.column] else []
  }

  /** The schema dictionary that the catalogue rows are filed into. */
  class Schema {
    var tables: map<string, Entry>

    constructor ()
      ensures tables == map[]
    {
      tables := map[];
    }
  }

  ghost predicate IsFiledUnder(rows: seq<CatalogRow>, names: set<string>, key: string) {
    exists i :: 0 <= i < |rows| && TableKey(names, rows[i].table) == key
  }

  /** The entry that filing some rows makes of an earlier one. */
  function Extended(before: map<string, Entry>, rows: seq<CatalogRow>, names: set<string>, key: string): Entry {
    var start := if key in before then before[key] else Entry(key, []);
    start.(columns := start.columns + ColumnsUnder(rows, names, key))
  }

  /** What filing some rows makes of a dictionary: new keys for new tables, columns appended in row order. */
  ghost predicate Filed(before: map<string, Entry>, rows: seq<CatalogRow>, names: set<string>,
                        after: map<string, Entry>)
  {
    && (forall k :: k in after <==> k in before || IsFiledUnder(rows, names, k))
    && (forall k :: k in after ==> after[k] == Extended(before, rows, names, k))
  }

  lemma {:induction false} NotFiledUnder(rows: seq<CatalogRow>, names: set<string>, key: string)
    requires !IsFiledUnder(rows, names, key)
    ensures ColumnsUnder(rows, names, key) == []
    decreases |rows|
  {
    if rows != [] {
      var front := rows[..|rows| - 1];
      assert forall i :: 0 <= i < |front| ==> front[i] == rows[i];
      NotFiledUnder(front, names, key);
    }
  }

  lemma OneMoreRow(before: map<string, Entry>, rows: seq<CatalogRow>, n: nat, names: set<string>, k: string)
    requires n < |rows|
    ensures var mine := TableKey(names, rows[n].table) == k;
      && (IsFiledUnder(rows[..n + 1], names, k) <==> IsFiledUnder(rows[..n], names, k) || mine)
      && var old', new' := Extended(before, rows[..n], names, k), Extended(before, rows[..n + 1], names, k);
         new' == if mine then old'.(columns := old'.columns + [rows[n].column]) else old'
  {
    hide TableKey;
    var some, more := rows[..n], rows[..n + 1];
    assert more[..|more| - 1] == some && more[n] == rows[n];
    assert forall i :: 0 <= i < n ==> more[i] == some[i];
    var start := if k in before then before[k].columns else [];
    assert (start + ColumnsUnder(some, names, k)) + [rows[n].column] ==
           start + (ColumnsUnder(some, names, k) + [rows[n].column]);
    assert ColumnsUnder(some, names, k) + [] == ColumnsUnder(some, names, k);
  }

  lemma FileOne(before: map<string, Entry>, rows: seq<CatalogRow>, n: nat, names: set<string>, now: map<string, Entry>)
    requires n < |rows| && Filed(before, rows[..n], names, now)
    ensures var key := TableKey(names, rows[n].table);
      var entry := if key in now then now[key] else Entry(key, []);
      Filed(before, rows[..n + 1], names, now[key := entry.(columns := entry.columns + [rows[n].column])])
  {
    hide TableKey, ColumnsUnder;
    var key := TableKey(names, rows[n].table);
    forall k
      ensures IsFiledUnder(rows[..n + 1], names, k) <==> IsFiledUnder(rows[..n], names, k) || key == k
      ensures k != key ==> Extended(before, rows[..n + 1], names, k) == Extended(before, rows[..n], names, k)
    {
      OneMoreRow(before, rows, n, names, k);
    }
    OneMoreRow(before, rows, n, names, key);
    if key !in now {
      NotFiledUnder(rows[..n], names, key);
    }
  }

  method BuildSchema(rows: seq<CatalogRow>, schema: Schema)
    modifies schema
    ensures Filed(old(schema.tables), rows, FullNames(rows), schema.tables)
  {
    hide TableKey, Filed;
    var tableNames := FullNames(rows);
    ghost var before := schema.tables;
    FileNone(before, tableNames);
    for n := 0 to |rows|
      invariant Filed(before, rows[..n], tableNames, schema.tables)
    {
      ghost var filed := schema.tables;
      FileOne(before, rows, n, tableNames, filed);
      var tableName := TableKey(tableNames, rows[n].table);
      if tableName !in schema.tables {
        schema.tables := schema.tables[tableName := Entry(tableName, [])];
      }
      var entry := schema.tables[tableName];
      entry := entry.(columns := entry.columns + [rows[n].column]);
      schema.tables := schema.tables[tableName := entry];
      assert schema.tables == filed[tableName := entry];
    }
    assert rows[..|rows|] == rows;
  }

  lemma FileNone(before: map<string, Entry>, names: set<string>)
    ensures Filed(before, [], names, before)
  {
    forall k | k in before
      ensures Extended(before, [], names, k) == before[k]
    {
      assert before[k].columns + [] == before[k].columns;
    }
  }

  // ----- When keys merge tables -----

  predicate Qualified(names: set<string>, t: TableId) {
    t.schema != "public" || t.name in names
  }

  /** Two tables of the catalogue share a key exactly when both are qualified and share their full name. */
  lemma KeysMergeExactly(rows: seq<CatalogRow>, p: CatalogRow, q: CatalogRow)
    requires p in rows && q in rows && p.table != q.table
    ensures var names := FullNames(rows);
      TableKey(names, p.table) == TableKey(names, q.table) <==>
        Qualified(names, p.table) && Qualified(names, q.table) && FullTableName(p.table) == FullTableName(q.table)
  {
    var names := FullNames(rows);
    assert FullTableName(p.table) in names && FullTableName(q.table) in names;
  }

  /**
   * q's schema begins with p's schema, a dot and a quote, and p's dotted name supplies the rest: the
   * only way in which two full names can be read apart at two places.
   */
  ghost predicate QuoteSplit(p: TableId, q: TableId) {
    && '.' in p.name
    && exists x ::
         && q.schema == p.schema + ".\"" + x
         && if '.' in q.name then p.name == x + ".\"" + q.name else p.name + "\"" == x + "." + q.name
  }

  lemma SplitNamesCoincide(p: TableId, q: TableId)
    requires QuoteSplit(p, q)
    ensures FullTableName(p) == FullTableName(q)
  {
    var x :| q.schema == p.schema + ".\"" + x &&
      if '.' in q.name then p.name == x + ".\"" + q.name else p.name + "\"" == x + "." + q.name;
    if '.' in q.name {
      assert p.schema + "." + ("\"" + (x + ".\"" + q.name) + "\"") ==
             (p.schema + ".\"" + x) + "." + ("\"" + q.name + "\"");
    } else {
      assert p.schema + "." + ("\"" + p.name + "\"") == p.schema + ".\"" + (p.name + "\"");
      assert p.schema + ".\"" + (x + "." + q.name) == (p.schema + ".\"" + x) + "." + q.name;
    }
  }

  /** The text after a schema in a full name. */
  function Rest(t: TableId): string {
    if '.' in t.name then ".\"" + t.name + "\"" else "." + t.name
  }

  lemma FullIsSchemaAndRest(t: TableId)
    ensures FullTableName(t) == t.schema + Rest(t)
  {
  }

  lemma SameLengthSchemas(p: TableId, q: TableId)
    requires FullTableName(p) == FullTableName(q) && |p.schema| == |q.schema|
    ensures p == q || QuoteSplit(p, q) || QuoteSplit(q, p)
  {
    FullIsSchemaAndRest(p);
    FullIsSchemaAndRest(q);
    var s := FullTableName(p);
    assert p.schema == s[..|p.schema|] == q.schema;
    assert Rest(p) == s[|p.schema|..] == Rest(q);
    RestTellsName(p);
    RestTellsName(q);
  }

  /** The rest of a full name tells the name: it is quoted exactly when it holds another dot. */
  lemma RestTellsName(t: TableId)
    ensures '.' in Rest(t)[1..] <==> '.' in t.name
    ensures t.name == if '.' in Rest(t)[1..] then Rest(t)[2..|Rest(t)| - 1] else Rest(t)[1..]
  {
    var r := Rest(t);
    if '.' in t.name {
      var i :| 0 <= i < |t.name| && t.name[i] == '.';
      assert r[1..][i + 1] == '.';
      assert t.name == r[2..|r| - 1];
    } else {
      assert t.name == r[1..];
    }
  }

  lemma CutTwice(a: string, b: string, c: string, d: string)
    requires a + b == c + d && |a| < |c|
    ensures |c| - |a| <= |b| && c == a + b[..|c| - |a|] && d == b[|c| - |a|..]
  {
    var s := a + b;
    assert a == s[..|a|] && b == s[|a|..];
    assert c == (c + d)[..|c|] && d == (c + d)[|c|..];
  }

  lemma LongerSchemaSplits(p: TableId, q: TableId)
    requires FullTableName(p) == FullTableName(q) && |p.schema| < |q.schema|
    ensures QuoteSplit(p, q)
  {
    FullIsSchemaAndRest(p);
    FullIsSchemaAndRest(q);
    var r, d := Rest(p), |q.schema| - |p.schema|;
    CutTwice(p.schema, r, q.schema, Rest(q));
    assert r[1..][d - 1] == r[d] == Rest(q)[0] == '.';
    RestTellsName(p);
    assert r == ".\"" + p.name + "\"";
    assert r[1] == '"' && d >= 2;
    SplitAt(p, q, r[2..d]);
  }

  lemma SplitAt(p: TableId, q: TableId, x: string)
    requires '.' in p.name
    requires 2 + |x| <= |Rest(p)| && x == Rest(p)[2..2 + |x|]
    requires q.schema == p.schema + Rest(p)[..2 + |x|] && Rest(q) == Rest(p)[2 + |x|..]
    ensures QuoteSplit(p, q)
  {
    hide FullTableName, QuoteSplit;
    var r := Rest(p);
    assert r == ".\"" + (p.name + "\"");
    CutQuoted(p.name + "\"", r, x);
    assert q.schema == p.schema + ".\"" + x by {
      assert p.schema + (".\"" + x) == p.schema + ".\"" + x;
    }
    assert p.name + "\"" == x + Rest(q);
    SplitName(p, q, x);
  }

  lemma CutQuoted(y: string, r: string, x: string)
    requires r == ".\"" + y && 2 + |x| <= |r| && x == r[2..2 + |x|]
    ensures r[..2 + |x|] == ".\"" + x && y == x + r[2 + |x|..]
  {
    assert y == r[2..];
  }

  lemma SplitName(p: TableId, q: TableId, x: string)
    requires '.' in p.name
    requires q.schema == p.schema + ".\"" + x && p.name + "\"" == x + Rest(q)
    ensures QuoteSplit(p, q)
  {
    if '.' in q.name {
      assert x + (".\"" + q.name + "\"") == x + ".\"" + q.name + "\"";
      DropQuote(p.name, x + ".\"" + q.name);
    }
  }

  lemma DropQuote(a: string, b: string)
    requires a + "\"" == b + "\""
    ensures a == b
  {
    assert a == (a + "\"")[..|a|] && b == (b + "\"")[..|b|];
  }

  /** Full names of different tables coincide exactly in the quoted pattern. */
  lemma FullNamesCoincideExactly(p: TableId, q: TableId)
    requires p != q
    ensures FullTableName(p) == FullTableName(q) <==> QuoteSplit(p, q) || QuoteSplit(q, p)
  {
    if FullTableName(p) == FullTableName(q) {
      if |p.schema| == |q.schema| {
        SameLengthSchemas(p, q);
      } else if |p.schema| < |q.schema| {
        LongerSchemaSplits(p, q);
      } else {
        LongerSchemaSplits(q, p);
      }
    }
    if QuoteSplit(p, q) {
      SplitNamesCoincide(p, q);
    }
    if QuoteSplit(q, p) {
      SplitNamesCoincide(q, p);
    }
  }

  /** With double quotes two tables can be merged: an example. */
  lemma QuotedNamesMerge()
    ensures FullTableName(TableId("a", "x.y")) == FullTableName(TableId("a.\"x", "y\""))
  {
  }

  predicate NoQuotes(rows: seq<CatalogRow>) {
    forall r :: r in rows ==> '"' !in r.table.schema && '"' !in r.table.name
  }

  /** Without double quotes in schema names, different tables never share a key. */
  lemma KeysNeverMerge(rows: seq<CatalogRow>, p: CatalogRow, q: CatalogRow)
    requires NoQuotes(rows) && p in rows && q in rows
    ensures TableKey(FullNames(rows), p.table) == TableKey(FullNames(rows), q.table) <==> p.table == q.table
  {
    if p.table != q.table {
      KeysMergeExactly(rows, p, q);
      FullNamesCoincideExactly(p.table, q.table);
      if QuoteSplit(p.table, q.table) {
        SplitNeedsQuote(p.table, q.table);
      } else if QuoteSplit(q.table, p.table) {
        SplitNeedsQuote(q.table, p.table);
      }
    }
  }

  lemma SplitNeedsQuote(p: TableId, q: TableId)
    requires QuoteSplit(p, q)
    ensures '"' in q.schema
  {
    var x :| q.schema == p.schema + ".\"" + x &&
      if '.' in q.name then p.name == x + ".\"" + q.name else p.name + "\"" == x + "." + q.name;
    assert q.schema[|p.schema| + 1] == '"';
  }

  function ColumnsOf(rows: seq<CatalogRow>, t: TableId): seq<string> {
    if rows == [] then []
    else
      var last := rows[|rows| - 1];
      ColumnsOf(rows[..|rows| - 1], t) + if last.table == t then [last.column] else []
  }

  /** Hence each entry lists exactly the columns of one table, in row order. */
  lemma {:induction false} ColumnsAreTheTables(rows: seq<CatalogRow>, n: nat, p: CatalogRow)
    requires NoQuotes(rows) && n <= |rows| && p in rows
    ensures ColumnsUnder(rows[..n], FullNames(rows), TableKey(FullNames(rows), p.table)) ==
            ColumnsOf(rows[..n], p.table)
    decreases n
  {
    if n > 0 {
      ColumnsAreTheTables(rows, n - 1, p);
      KeysNeverMerge(rows, rows[n - 1], p);
      assert rows[..n][..n - 1] == rows[..n - 1];
    }
  }

  /** The dictionary of a fresh schema: one entry per table, with that table's columns. */
  lemma SchemaListsEveryTable(rows: seq<CatalogRow>, after: map<string, Entry>, p: CatalogRow)
    requires NoQuotes(rows) && Filed(map[], rows, FullNames(rows), after) && p in rows
    ensures var key := TableKey(FullNames(rows), p.table);
      key in after && after[key] == Entry(key, ColumnsOf(rows, p.table))
  {
    ColumnsAreTheTables(rows, |rows|, p);
    assert rows[..|rows|] == rows;
    var i :| 0 <= i < |rows| && rows[i] == p;
    var key := TableKey(FullNames(rows), p.table);
    assert [] + ColumnsUnder(rows, FullNames(rows), key) == ColumnsUnder(rows, FullNames(rows), key);
  }

  // ----- Names in words -----

  /** A dot in the table's name puts the name in quotes. */
  lemma FullNameInWords(schema: string, name: string)
    ensures '.' !in name ==> FullTableName(TableId(schema, name)) == schema + "." + name
    ensures '.' in name ==> FullTableName(TableId(schema, name)) == schema + "." + "\"" + name + "\""
  {
    assert schema + ("." + ("\"" + name + "\"")) == schema + "." + "\"" + name + "\"";
  }

  /** A public table goes by its bare name, unless that is the full name of some table of the catalogue. */
  lemma KeyInWords(rows: seq<CatalogRow>, t: TableId)
    ensures TableKey(FullNames(rows), t) ==
      if t.schema == "public" && forall r :: r in rows ==> FullTableName(r.table) != t.name then t.name
      else FullTableName(t)
  {
  }

  const MAIN_USERS := TableId("main", "users")
  const PUBLIC_MAIN_USERS := TableId("public", "main.users")
  const PUBLIC_ORDERS := TableId("public", "orders")

  lemma ExampleNames()
    ensures FullTableName(MAIN_USERS) == "main.users" && FullTableName(PUBLIC_ORDERS) == "public.orders"
    ensures FullTableName(PUBLIC_MAIN_USERS) == "public.\"main.users\""
  {
    assert PUBLIC_MAIN_USERS.name[4] == '.';
    FullNameInWords("main", "users");
    FullNameInWords("public", "orders");
    FullNameInWords("public", "main.users");
  }

  /** A table main.users in the public schema beside a table users of the schema main. */
  lemma MainUsers(rows: seq<CatalogRow>)
    requires forall r :: r in rows ==> r.table in {MAIN_USERS, PUBLIC_MAIN_USERS, PUBLIC_ORDERS}
    requires exists r :: r in rows && r.table == MAIN_USERS
    ensures TableKey(FullNames(rows), MAIN_USERS) == "main.users"
    ensures TableKey(FullNames(rows), PUBLIC_MAIN_USERS) == "public.\"main.users\""
    ensures TableKey(FullNames(rows), PUBLIC_ORDERS) == "orders"
  {
    KeyInWords(rows, MAIN_USERS);
    KeyInWords(rows, PUBLIC_MAIN_USERS);
    KeyInWords(rows, PUBLIC_ORDERS);
    ExampleNames();
    hide FullTableName, TableKey, FullNames;
    forall r | r in rows
      ensures FullTableName(r.table) != "orders"
    {
      assert FullTableName(r.table)[0] != 'o';
    }
  }
}

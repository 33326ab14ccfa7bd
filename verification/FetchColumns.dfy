// De-duplication of result column names.

module FetchColumns {
  import opened Outcomes
  import opened Numerals

  datatype Column = Column(name: string, kind: Option<string>)

  /** The names given out so far and the counter for the next duplicate. */
  datatype Naming = Naming(names: seq<string>, counter: nat)

  /** The name a column gets: its own, or with the counter appended when it is taken. */
  function NameFor(s: Naming, name: string): string {
    if name in s.names then name + Show(s.counter) else name
  }

  function Assign(s: Naming, name: string): Naming {
    Naming(s.names + [NameFor(s, name)], if name in s.names then s.counter + 1 else s.counter)
  }

  /** The state after naming the first n columns. */
  function NamingOf(columns: seq<Column>, n: nat): Naming
    requires n <= |columns|
    decreases n
  {
    if n == 0 then Naming([], 1) else Assign(NamingOf(columns, n - 1), columns[n - 1].name)
  }

  function Names(columns: seq<Column>): seq<string> {
    NamingOf(columns, |columns|).names
  }

  method Fetch(columns: seq<Column>) returns (newColumns: seq<Column>)
    ensures |newColumns| == |columns| == |Names(columns)|
    ensures forall i :: 0 <= i < |columns| ==> newColumns[i] == Column(Names(columns)[i], columns[i].kind)
  {
    var columnNames: seq<string> := [];
    var duplicatesCounter: nat := 1;
    newColumns := [];
    for n := 0 to |columns|
      invariant NamingOf(columns, n) == Naming(columnNames, duplicatesCounter)
      invariant |newColumns| == |columnNames| == n
      invariant forall i :: 0 <= i < n ==> newColumns[i] == Column(columnNames[i], columns[i].kind)
    {
      var columnName := columns[n].name;
      if columnName in columnNames {
        columnName := columnName + Show(duplicatesCounter);
        duplicatesCounter := duplicatesCounter + 1;
      }
      columnNames := columnNames + [columnName];
      newColumns := newColumns + [Column(columnName, columns[n].kind)];
    }
  }

  predicate Distinct(names: seq<string>) {
    forall i, j :: 0 <= i < j < |names| ==> names[i] != names[j]
  }

  /** Every suffixed name is new where it is given out. */
  predicate SuffixesAreFresh(columns: seq<Column>, n: nat)
    requires n <= |columns|
  {
    forall i :: 0 <= i < n ==>
      var s := NamingOf(columns, i);
      columns[i].name in s.names ==> columns[i].name + Show(s.counter) !in s.names
  }

  /** Step by step: the names stay distinct as long as no suffixed name is already taken at its turn. */
  lemma {:induction false} FreshSuffixesGiveDistinct(columns: seq<Column>, n: nat)
    requires n <= |columns|
    ensures Distinct(NamingOf(columns, n).names) <==> SuffixesAreFresh(columns, n)
    decreases n
  {
    hide Distinct, SuffixesAreFresh;
    if n == 0 {
      NothingToName(columns);
    } else {
      FreshSuffixesGiveDistinct(columns, n - 1);
      var s := NamingOf(columns, n - 1);
      DistinctAppend(s.names, NameFor(s, columns[n - 1].name));
      FreshUpTo(columns, n);
    }
  }

  lemma NothingToName(columns: seq<Column>)
    ensures Distinct([]) && SuffixesAreFresh(columns, 0)
  {
  }

  lemma DistinctAppend(names: seq<string>, name: string)
    ensures Distinct(names + [name]) <==> Distinct(names) && name !in names
  {
    var more := names + [name];
    if Distinct(more) {
      assert forall i :: 0 <= i < |names| ==> more[i] == names[i];
      assert more[|names|] == name;
    }
  }

  lemma FreshUpTo(columns: seq<Column>, n: nat)
    requires 0 < n <= |columns|
    ensures var s, last := NamingOf(columns, n - 1), columns[n - 1].name;
      SuffixesAreFresh(columns, n) <==>
        SuffixesAreFresh(columns, n - 1) && (last in s.names ==> last + Show(s.counter) !in s.names)
  {
    hide NamingOf;
  }

  /** b is a followed by the numeral of a positive number. */
  predicate Numbered(a: string, b: string) {
    a < b && AllDigits(b[|a|..]) && b[|a|] != '0'
  }

  lemma WithNumeralIsNumbered(a: string, k: nat)
    requires k >= 1
    ensures Numbered(a, a + Show(k))
  {
    ShowIsCanonical(k);
    assert (a + Show(k))[|a|..] == Show(k);
  }

  lemma NumberedExactly(a: string, b: string)
    ensures Numbered(a, b) <==> exists k: nat :: k >= 1 && b == a + Show(k)
  {
    if Numbered(a, b) {
      var x := b[|a|..];
      LeadingDigit(x);
      ShowOfValue(x);
      assert b == a + Show(Value(x));
    }
    forall k: nat | k >= 1 && b == a + Show(k)
      ensures Numbered(a, b)
    {
      WithNumeralIsNumbered(a, k);
    }
  }

  /** Where a name comes from: a column's own name, or one with a counter from 1 to c - 1 appended. */
  ghost predicate Origin(columns: seq<Column>, c: nat, name: string) {
    || (exists i :: 0 <= i < |columns| && name == columns[i].name)
    || (exists i, k: nat :: 0 <= i < |columns| && 1 <= k < c && name == columns[i].name + Show(k))
  }

  lemma {:induction false} NamesHaveOrigin(columns: seq<Column>, n: nat, j: nat)
    requires n <= |columns| && j < |NamingOf(columns, n).names|
    ensures Origin(columns, NamingOf(columns, n).counter, NamingOf(columns, n).names[j])
    decreases n
  {
    var s, last := NamingOf(columns, n - 1), columns[n - 1].name;
    CounterIsPositive(columns, n - 1);
    if j < |s.names| {
      NamesHaveOrigin(columns, n - 1, j);
      var name := s.names[j];
      if !(exists i :: 0 <= i < |columns| && name == columns[i].name) {
        var i, k: nat :| 0 <= i < |columns| && 1 <= k < s.counter && name == columns[i].name + Show(k);
        assert k < NamingOf(columns, n).counter;
      }
    } else if last in s.names {
      assert s.counter < NamingOf(columns, n).counter;
    }
  }

  lemma {:induction false} CounterIsPositive(columns: seq<Column>, n: nat)
    requires n <= |columns|
    ensures NamingOf(columns, n).counter >= 1
    decreases n
  {
    if n > 0 {
      CounterIsPositive(columns, n - 1);
    }
  }

  /** Of two names that numerals complete to the same text the longer one is the shorter one numbered. */
  lemma OverlapIsNumbered(a: string, x: string, b: string, y: string)
    requires a + x == b + y && |a| < |b| && AllDigits(x) && x != "" && x[0] != '0'
    ensures Numbered(a, b)
  {
    var s, t := a + x, b + y;
    assert b == t[..|b|] && a == s[..|a|];
    forall i | |a| <= i < |b|
      ensures b[i] == x[i - |a|]
    {
      assert s[i] == t[i];
    }
  }

  /** The columns are named from the given names, each possibly many times. */
  predicate NamedFrom(columns: seq<Column>, names: set<string>) {
    forall i :: 0 <= i < |columns| ==> columns[i].name in names
  }

  /** No name is another one numbered. */
  predicate NumeralFree(names: set<string>) {
    forall a, b :: a in names && b in names ==> !Numbered(a, b)
  }

  lemma FreshCounterName(columns: seq<Column>, names: set<string>, c: nat, name: string, i: nat)
    requires NamedFrom(columns, names) && NumeralFree(names)
    requires i < |columns| && c >= 1 && Origin(columns, c, name)
    ensures name != columns[i].name + Show(c)
  {
    var own := columns[i].name;
    if name == own + Show(c) {
      if j :| 0 <= j < |columns| && name == columns[j].name {
        NumberedExactly(own, columns[j].name);
      } else {
        var j, k: nat :| 0 <= j < |columns| && 1 <= k < c && name == columns[j].name + Show(k);
        SameNumbered(own, c, columns[j].name, k);
      }
    }
  }

  lemma SameNumbered(a: string, c: nat, b: string, k: nat)
    requires c >= 1 && k >= 1 && a + Show(c) == b + Show(k)
    ensures (a == b && c == k) || Numbered(a, b) || Numbered(b, a)
  {
    var x, y := Show(c), Show(k);
    ShowIsCanonical(c);
    ShowIsCanonical(k);
    if |a| < |b| {
      OverlapIsNumbered(a, x, b, y);
    } else if |b| < |a| {
      OverlapIsNumbered(b, y, a, x);
    } else {
      var s, t := a + x, b + y;
      assert a == s[..|a|] && b == t[..|b|] && x == s[|a|..] && y == t[|b|..];
      ShowIsInjective(c, k);
    }
  }

  lemma NumeralFreeNamesStayDistinct(columns: seq<Column>, names: set<string>)
    requires NamedFrom(columns, names) && NumeralFree(names)
    ensures Distinct(Names(columns))
  {
    forall i | 0 <= i < |columns| && columns[i].name in NamingOf(columns, i).names
      ensures columns[i].name + Show(NamingOf(columns, i).counter) !in NamingOf(columns, i).names
    {
      var s := NamingOf(columns, i);
      if columns[i].name + Show(s.counter) in s.names {
        var j :| 0 <= j < |s.names| && s.names[j] == columns[i].name + Show(s.counter);
        CounterIsPositive(columns, i);
        NamesHaveOrigin(columns, i, j);
        FreshCounterName(columns, names, s.counter, s.names[j], i);
      }
    }
    FreshSuffixesGiveDistinct(columns, |columns|);
  }

  /** A numbered name, then its stem k + 1 times. */
  function Colliding(a: string, k: nat): seq<Column> {
    [Column(a + Show(k), None)] + seq(k + 1, i => Column(a, None))
  }

  lemma {:induction false} CollidingNames(a: string, k: nat, m: nat)
    requires m <= k
    ensures var s := NamingOf(Colliding(a, k), m + 2);
      && |s.names| == m + 2 && s.counter == m + 1
      && s.names[0] == a + Show(k) && s.names[1] == a && (m > 0 ==> s.names[m + 1] == a + Show(m))
    decreases m
  {
    var columns := Colliding(a, k);
    if m == 0 {
      assert NamingOf(columns, 0) == Naming([], 1);
      assert NamingOf(columns, 1) == Naming([a + Show(k)], 1);
      assert |a + Show(k)| > |a|;
    } else {
      CollidingNames(a, k, m - 1);
      var before := NamingOf(columns, m + 1);
      assert columns[m + 1] == Column(a, None);
      assert a in before.names by {
        assert before.names[1] == a;
      }
      assert NamingOf(columns, m + 2) == Naming(before.names + [a + Show(m)], m + 1);
    }
  }

  lemma NumberedNamesCollide(a: string, k: nat)
    requires k >= 1
    ensures !Distinct(Names(Colliding(a, k)))
  {
    CollidingNames(a, k, k);
    var names := Names(Colliding(a, k));
    assert names[0] == names[k + 1];
  }

  /** Results whose columns are named from the given names never show a name twice. */
  ghost predicate AlwaysDistinct(names: set<string>) {
    forall columns :: NamedFrom(columns, names) ==> Distinct(Names(columns))
  }

  /**
   * A set of column names comes out distinct, in every order and however often each is repeated,
   * exactly when no name is another one followed by a positive numeral.
   */
  lemma DistinctExactly(names: set<string>)
    ensures AlwaysDistinct(names) <==> NumeralFree(names)
  {
    hide Distinct, Names, Numbered;
    if NumeralFree(names) {
      forall columns | NamedFrom(columns, names)
        ensures Distinct(Names(columns))
      {
        NumeralFreeNamesStayDistinct(columns, names);
      }
    } else {
      var a, b :| a in names && b in names && Numbered(a, b);
      NumberedExactly(a, b);
      var k: nat :| k >= 1 && b == a + Show(k);
      assert NamedFrom(Colliding(a, k), names);
      NumberedNamesCollide(a, k);
    }
  }

  predicate EndsInDigit(s: string) {
    s != "" && IsDigit(s[|s| - 1])
  }

  lemma NumberedEndsInDigit(a: string, b: string)
    requires Numbered(a, b)
    ensures EndsInDigit(b)
  {
    assert b[|b| - 1] == b[|a|..][|b| - |a| - 1];
  }

  /** If no column name ends in a digit, the names come out pairwise distinct. */
  lemma PlainNamesStayDistinct(columns: seq<Column>)
    requires forall k :: 0 <= k < |columns| ==> !EndsInDigit(columns[k].name)
    ensures Distinct(Names(columns))
  {
    var names := set i | 0 <= i < |columns| :: columns[i].name;
    forall a, b | a in names && b in names
      ensures !Numbered(a, b)
    {
      if Numbered(a, b) {
        NumberedEndsInDigit(a, b);
      }
    }
    NumeralFreeNamesStayDistinct(columns, names);
  }

  /** A row as the dictionary of its columns; with a repeated name the later cell wins. */
  function Zip(names: seq<string>, cells: seq<string>): map<string, string>
    requires |names| == |cells|
  {
    if names == [] then map[]
    else Zip(names[..|names| - 1], cells[..|cells| - 1])[names[|names| - 1] := cells[|cells| - 1]]
  }

  /** With distinct names no cell of a row is lost. */
  lemma {:induction false} ZipKeepsEveryCell(names: seq<string>, cells: seq<string>, i: nat)
    requires |names| == |cells| && i < |names| && Distinct(names)
    ensures names[i] in Zip(names, cells) && Zip(names, cells)[names[i]] == cells[i]
    decreases |names|
  {
    if i < |names| - 1 {
      ZipKeepsEveryCell(names[..|names| - 1], cells[..|cells| - 1], i);
    }
  }

  /** A name that ends in a digit can be produced twice. */
  lemma DigitNamesCollide()
    ensures Names([Column("a1", None), Column("a", None), Column("a", None)]) == ["a1", "a", "a1"]
  {
    var columns := [Column("a1", None), Column("a", None), Column("a", None)];
    assert Show(1) == "1";
    assert NamingOf(columns, 1) == Naming(["a1"], 1);
    assert NamingOf(columns, 2) == Naming(["a1", "a"], 1);
    assert "a" + Show(1) == "a1";
    assert NamingOf(columns, 3) == Naming(["a1", "a", "a1"], 2);
  }

  // ----- The names in words -----

  /** The column's name stands at an earlier place too. */
  predicate Repeated(columns: seq<Column>, i: nat)
    requires i < |columns|
  {
    exists j :: 0 <= j < i && columns[j].name == columns[i].name
  }

  /** How many of the first n columns repeat a name. */
  function Repeats(columns: seq<Column>, n: nat): nat
    requires n <= |columns|
    decreases n
  {
    if n == 0 then 0 else Repeats(columns, n - 1) + if Repeated(columns, n - 1) then 1 else 0
  }

  lemma {:induction false} EarlierNamesAreTaken(columns: seq<Column>, n: nat, j: nat)
    requires j < n <= |columns|
    ensures columns[j].name in NamingOf(columns, n).names
    decreases n
  {
    var s, last := NamingOf(columns, n - 1), columns[n - 1].name;
    if j < n - 1 {
      EarlierNamesAreTaken(columns, n - 1, j);
    } else if last !in s.names {
      assert NamingOf(columns, n).names[|s.names|] == last;
    }
  }

  lemma {:induction false} TakenNames(columns: seq<Column>, n: nat, name: string)
    requires n <= |columns| && name in NamingOf(columns, n).names
    ensures exists j :: 0 <= j < n && (columns[j].name == name || Numbered(columns[j].name, name))
    decreases n
  {
    var s, last := NamingOf(columns, n - 1), columns[n - 1].name;
    if name in s.names {
      TakenNames(columns, n - 1, name);
    } else {
      assert name == NameFor(s, last);
      CounterIsPositive(columns, n - 1);
      WithNumeralIsNumbered(last, s.counter);
      assert columns[n - 1].name == name || Numbered(columns[n - 1].name, name);
    }
  }

  lemma RepeatedIsTaken(columns: seq<Column>, names: set<string>, n: nat)
    requires n < |columns| && NamedFrom(columns, names) && NumeralFree(names)
    ensures columns[n].name in NamingOf(columns, n).names <==> Repeated(columns, n)
  {
    if Repeated(columns, n) {
      var j :| 0 <= j < n && columns[j].name == columns[n].name;
      EarlierNamesAreTaken(columns, n, j);
    }
    if columns[n].name in NamingOf(columns, n).names {
      TakenNames(columns, n, columns[n].name);
    }
  }

  lemma {:induction false} CounterCountsRepeats(columns: seq<Column>, names: set<string>, n: nat)
    requires n <= |columns| && NamedFrom(columns, names) && NumeralFree(names)
    ensures NamingOf(columns, n).counter == 1 + Repeats(columns, n) && |NamingOf(columns, n).names| == n
    decreases n
  {
    hide NumeralFree, NamedFrom, Repeated;
    if n > 0 {
      CounterCountsRepeats(columns, names, n - 1);
      RepeatedIsTaken(columns, names, n - 1);
    }
  }

  lemma {:induction false} NamesStay(columns: seq<Column>, i: nat, n: nat)
    requires i < n <= |columns| && |NamingOf(columns, i).names| == i
    ensures i < |NamingOf(columns, n).names|
    ensures NamingOf(columns, n).names[i] == NameFor(NamingOf(columns, i), columns[i].name)
    decreases n
  {
    if i < n - 1 {
      NamesStay(columns, i, n - 1);
    }
  }

  /**
   * From names of which none is another one numbered: a column keeps its name where it first occurs, and
   * the k-th repetition in the list, of whatever name, gets k appended.
   */
  lemma RepetitionsAreNumbered(columns: seq<Column>, names: set<string>, i: nat)
    requires i < |columns| && NamedFrom(columns, names) && NumeralFree(names)
    ensures i < |Names(columns)|
    ensures Names(columns)[i] == columns[i].name + if Repeated(columns, i) then Show(Repeats(columns, i) + 1) else ""
  {
    hide NumeralFree, NamedFrom, Repeated;
    CounterCountsRepeats(columns, names, i);
    RepeatedIsTaken(columns, names, i);
    NamesStay(columns, i, |columns|);
    assert columns[i].name + "" == columns[i].name;
  }
}

// The tenant placeholder in queries and its replacement.

module TenantQuery {
  import opened Outcomes
  import opened Numerals

  const PLACEHOLDER: string := "C_TENANT"

  predicate OccursAt(s: string, p: string, i: int) {
    0 <= i && i + |p| <= |s| && forall j :: i <= j < i + |p| ==> s[j] == p[j - i]
  }

  ghost predicate Mentions(s: string, p: string) {
    exists i :: OccursAt(s, p, i)
  }

  /** str.replace: occurrences of p are taken leftmost first and do not overlap. */
  function Replace(q: string, p: string, t: string): string
    requires p != ""
  {
    if q == "" then ""
    else if OccursAt(q, p, 0) then t + Replace(q[|p|..], p, t)
    else [q[0]] + Replace(q[1..], p, t)
  }

  /** Without a user, as for schema queries, the text is left alone. */
  function PrepareQuery(query: string, tenant: Option<string>): string {
    match tenant
    case None => query
    case Some(t) => Replace(query, PLACEHOLDER, t)
  }

  // ----- What is replaced, and what is kept -----

  /** The text around the replaced occurrences. */
  function Pieces(q: string, p: string): (ps: seq<string>)
    requires p != ""
    ensures |ps| >= 1
  {
    if q == "" then [""]
    else if OccursAt(q, p, 0) then [""] + Pieces(q[|p|..], p)
    else
      var rest := Pieces(q[1..], p);
      [[q[0]] + rest[0]] + rest[1..]
  }

  function Join(ps: seq<string>, glue: string): string
    requires |ps| >= 1
  {
    if |ps| == 1 then ps[0] else ps[0] + glue + Join(ps[1..], glue)
  }

  /** The query is its pieces joined by the placeholder; the result is the same pieces joined by the tenant. */
  lemma {:induction false} ReplaceKeepsPieces(q: string, p: string, t: string)
    requires p != ""
    ensures Join(Pieces(q, p), p) == q
    ensures Join(Pieces(q, p), t) == Replace(q, p, t)
    decreases |q|
  {
    hide OccursAt;
    if q != "" {
      if OccursAt(q, p, 0) {
        WholeAfterMatch(q, p);
        var rest := q[|p|..];
        ReplaceKeepsPieces(rest, p, t);
        JoinEmptyFirst(Pieces(rest, p), p);
        JoinEmptyFirst(Pieces(rest, p), t);
      } else {
        ReplaceKeepsPieces(q[1..], p, t);
        PushFront(q[0], Pieces(q[1..], p), p);
        PushFront(q[0], Pieces(q[1..], p), t);
        assert q == [q[0]] + q[1..];
      }
    }
  }

  /** No piece holds a placeholder: every occurrence that the scan meets has been taken out. */
  lemma {:induction false} PiecesAreClean(q: string, p: string, n: nat)
    requires p != "" && n < |Pieces(q, p)|
    ensures Pieces(q, p)[0] <= q
    ensures !Mentions(Pieces(q, p)[n], p)
    decreases |q|
  {
    if q != "" && !OccursAt(q, p, 0) {
      var ps := Pieces(q[1..], p);
      PiecesAreClean(q[1..], p, n);
      assert q == [q[0]] + q[1..];
      if n == 0 {
        var piece := [q[0]] + ps[0];
        assert piece[1..] == ps[0] && piece <= q;
        assert !OccursAt(piece, p, 0);
        forall i | OccursAt(piece, p, i)
          ensures false
        {
          ShiftOne(piece, p, i - 1);
        }
      }
    } else if q != "" && n > 0 {
      PiecesAreClean(q[|p|..], p, n - 1);
    }
  }

  lemma JoinEmptyFirst(ps: seq<string>, glue: string)
    requires |ps| >= 1
    ensures Join([""] + ps, glue) == glue + Join(ps, glue)
  {
    assert ([""] + ps)[1..] == ps;
    assert "" + glue + Join(ps, glue) == glue + Join(ps, glue);
  }

  lemma WholeAfterMatch(q: string, p: string)
    requires OccursAt(q, p, 0)
    ensures |p| <= |q| && q == p + q[|p|..]
  {
  }

  lemma PushFront(c: char, ps: seq<string>, glue: string)
    requires |ps| >= 1
    ensures Join([[c] + ps[0]] + ps[1..], glue) == [c] + Join(ps, glue)
  {
    var qs := [[c] + ps[0]] + ps[1..];
    assert qs[1..] == ps[1..];
    if |ps| > 1 {
      assert ([c] + ps[0]) + glue + Join(ps[1..], glue) == [c] + (ps[0] + glue + Join(ps[1..], glue));
    }
  }

  /** Every replacement changes the length by the same amount. */
  lemma {:induction false} ReplacedLength(q: string, p: string, t: string)
    requires p != ""
    ensures |Replace(q, p, t)| == |q| + (|Pieces(q, p)| - 1) * (|t| - |p|)
    decreases |q|
  {
    if q != "" {
      if OccursAt(q, p, 0) {
        ReplacedLength(q[|p|..], p, t);
        var n, step := |Pieces(q[|p|..], p)| - 1, |t| - |p|;
        assert (n + 1) * step == n * step + step;
      } else {
        ReplacedLength(q[1..], p, t);
      }
    }
  }

  // ----- When no placeholder survives -----

  /** t laid over p with its first character at position o shares a position with it and agrees there. */
  predicate Agrees(p: string, t: string, o: int) {
    -|t| < o < |p| && forall k :: 0 <= k < |p| && o <= k < o + |t| ==> p[k] == t[k - o]
  }

  /** Inserting t cannot complete a placeholder with text around it. */
  ghost predicate Separates(p: string, t: string) {
    forall o :: !Agrees(p, t, o)
  }

  /** Position of the first occurrence, or the length of q. */
  function First(q: string, p: string): (o: nat)
    requires p != ""
    ensures o <= |q|
  {
    if q == "" || OccursAt(q, p, 0) then 0 else 1 + First(q[1..], p)
  }

  lemma ShiftOne(q: string, p: string, i: nat)
    requires q != ""
    ensures OccursAt(q[1..], p, i) == OccursAt(q, p, i + 1)
  {
    if OccursAt(q[1..], p, i) {
      forall j | i + 1 <= j < i + 1 + |p|
        ensures q[j] == p[j - (i + 1)]
      {
        assert q[j] == q[1..][j - 1];
      }
    }
  }

  lemma {:induction false} FirstIsFirst(q: string, p: string)
    requires p != ""
    ensures First(q, p) < |q| ==> OccursAt(q, p, First(q, p))
    ensures forall i :: OccursAt(q, p, i) ==> First(q, p) <= i
    decreases |q|
  {
    if q != "" && !OccursAt(q, p, 0) {
      FirstIsFirst(q[1..], p);
      ShiftOne(q, p, First(q[1..], p));
      forall i | OccursAt(q, p, i)
        ensures First(q, p) <= i
      {
        ShiftOne(q, p, i - 1);
      }
    }
  }

  lemma TakeOneMore(q: string, o: nat, rest: string)
    requires o < |q|
    ensures [q[0]] + (q[1..][..o] + rest) == q[..o + 1] + rest
  {
  }

  /** Up to the first occurrence the text is copied; then comes the tenant. */
  lemma {:induction false} ReplaceFromFirst(q: string, p: string, t: string)
    requires p != ""
    ensures var o := First(q, p);
      if o == |q| then Replace(q, p, t) == q
      else o + |p| <= |q| && Replace(q, p, t) == q[..o] + (t + Replace(q[o + |p|..], p, t))
    decreases |q|
  {
    hide First, Replace, OccursAt;
    if q == "" || OccursAt(q, p, 0) {
      MatchStep(q, p, t);
    } else {
      var u := q[1..];
      var o := First(u, p);
      CopyStep(q, p, t);
      ReplaceFromFirst(u, p, t);
      assert q == [q[0]] + u;
      if o < |u| {
        assert u[o + |p|..] == q[o + 1 + |p|..];
        TakeOneMore(q, o, t + Replace(u[o + |p|..], p, t));
      }
    }
  }

  lemma MatchStep(q: string, p: string, t: string)
    requires p != "" && (q == "" || OccursAt(q, p, 0))
    ensures First(q, p) == 0
    ensures if q == "" then Replace(q, p, t) == ""
            else |p| <= |q| && Replace(q, p, t) == q[..0] + (t + Replace(q[0 + |p|..], p, t))
  {
    if q != "" {
      assert q[..0] + (t + Replace(q[|p|..], p, t)) == t + Replace(q[|p|..], p, t);
    }
  }

  lemma CopyStep(q: string, p: string, t: string)
    requires p != "" && q != "" && !OccursAt(q, p, 0)
    ensures First(q, p) == 1 + First(q[1..], p)
    ensures Replace(q, p, t) == [q[0]] + Replace(q[1..], p, t)
  {
  }

  /** An occurrence in x + t + rest lies in x, touches t, or lies in rest. */
  lemma WhereItLies(x: string, t: string, rest: string, p: string, i: int)
    requires p != "" && t != "" && OccursAt(x + (t + rest), p, i)
    ensures OccursAt(x, p, i) || Agrees(p, t, |x| - i) || OccursAt(rest, p, i - |x| - |t|)
  {
    var r := x + (t + rest);
    if i + |p| <= |x| {
      assert forall j :: i <= j < i + |p| ==> x[j] == r[j];
    } else if i < |x| + |t| {
      forall k | 0 <= k < |p| && |x| - i <= k < |x| - i + |t|
        ensures p[k] == t[k - (|x| - i)]
      {
        assert r[i + k] == p[k];
      }
    } else {
      forall j | i - |x| - |t| <= j < i - |x| - |t| + |p|
        ensures rest[j] == p[j - (i - |x| - |t|)]
      {
        assert rest[j] == r[j + |x| + |t|];
      }
    }
  }

  /** A separating tenant leaves no placeholder in any query. */
  lemma {:induction false} NothingSurvives(q: string, p: string, t: string)
    requires |p| >= 2 && Separates(p, t)
    ensures !Mentions(Replace(q, p, t), p)
    decreases |q|
  {
    hide Separates;
    var o := First(q, p);
    ReplaceFromFirst(q, p, t);
    FirstIsFirst(q, p);
    if o < |q| {
      var rest := q[o + |p|..];
      NothingSurvives(rest, p, t);
      forall i | OccursAt(Replace(q, p, t), p, i)
        ensures false
      {
        SeparatesMeans(p, t, o - i);
        WhereItLies(q[..o], t, Replace(rest, p, t), p, i);
        PrefixOccurrence(q, p, o, i);
      }
    }
  }

  lemma SeparatesMeans(p: string, t: string, o: int)
    requires |p| >= 2 && Separates(p, t)
    ensures t != "" && !Agrees(p, t, o)
  {
    assert !Agrees(p, t, 1);
  }

  lemma PrefixOccurrence(q: string, p: string, o: nat, i: int)
    requires o <= |q|
    ensures OccursAt(q[..o], p, i) ==> OccursAt(q, p, i) && i + |p| <= o
  {
  }

  /** p does not overlap a shifted copy of itself. */
  predicate Borderless(p: string) {
    forall d :: 0 < d < |p| ==> p[d..] != p[..|p| - d]
  }

  lemma PlaceholderIsBorderless()
    ensures Borderless(PLACEHOLDER)
  {
    var p := PLACEHOLDER;
    forall d | 0 < d < |p|
      ensures p[d..] != p[..|p| - d]
    {
      assert p[d..][0] == p[d] && p[..|p| - d][0] == 'C';
    }
  }

  lemma OverlapIsBorder(q: string, p: string, i: int, b: int)
    requires OccursAt(q, p, i) && OccursAt(q, p, b) && i < b < i + |p|
    ensures p[b - i..] == p[..|p| - (b - i)]
  {
    var d := b - i;
    forall k | 0 <= k < |p| - d
      ensures p[d..][k] == p[..|p| - d][k]
    {
      assert q[b + k] == p[k] && q[b + k] == p[b + k - i];
    }
  }

  lemma FirstInSandwich(x: string, z: string, p: string)
    requires Borderless(p) && |x| < |p|
    ensures First(x + p + z, p) == |x|
  {
    var q := x + p + z;
    FirstIsFirst(q, p);
    assert OccursAt(q, p, |x|);
    if First(q, p) < |x| {
      OverlapIsBorder(q, p, First(q, p), |x|);
    }
  }

  /** A tenant that agrees with the placeholder somewhere has a query from which a placeholder survives. */
  lemma SomethingSurvives(p: string, t: string, o: int) returns (q: string)
    requires Borderless(p) && p != "" && Agrees(p, t, o)
    ensures Mentions(Replace(q, p, t), p)
  {
    hide Mentions, Replace, Agrees;
    AgreesInRange(p, t, o);
    var b := if o < 0 then 0 else o;
    var e := if o + |t| < |p| then o + |t| else |p|;
    var x, z := p[..b], p[e..];
    q := x + p + z;
    FirstInSandwich(x, z, p);
    ReplaceFromFirst(q, p, t);
    assert q[b + |p|..] == z && q[..b] == x;
    TooShortToReplace(z, p, t);
    assert Replace(q, p, t) == x + (t + z);
    Reassembled(p, t, o, x, z);
  }

  lemma TooShortToReplace(z: string, p: string, t: string)
    requires |z| < |p|
    ensures Replace(z, p, t) == z
  {
    ReplaceFromFirst(z, p, t);
    FirstIsFirst(z, p);
  }

  lemma AgreesInRange(p: string, t: string, o: int)
    requires Agrees(p, t, o)
    ensures -|t| < o < |p|
  {
  }

  lemma Reassembled(p: string, t: string, o: int, x: string, z: string)
    requires Agrees(p, t, o)
    requires x == p[..if o < 0 then 0 else o] && z == p[if o + |t| < |p| then o + |t| else |p|..]
    ensures Mentions(x + (t + z), p)
  {
    var r := x + (t + z);
    var i := if o < 0 then -o else 0;
    forall j | i <= j < i + |p|
      ensures r[j] == p[j - i]
    {
      var k := j - i;
      if |x| <= k < o + |t| {
        assert r[j] == t[k - o];
      }
    }
    assert OccursAt(r, p, i);
  }

  /** A placeholder is left in q after t has been filled in. */
  ghost predicate Survives(q: string, p: string, t: string)
    requires p != ""
  {
    Mentions(Replace(q, p, t), p)
  }

  lemma GoneExactly(p: string, t: string)
    requires Borderless(p) && |p| >= 2
    ensures Separates(p, t) <==> forall q :: !Survives(q, p, t)
  {
    if Separates(p, t) {
      forall q
        ensures !Survives(q, p, t)
      {
        NothingSurvives(q, p, t);
      }
    } else {
      var o :| Agrees(p, t, o);
      var q := SomethingSurvives(p, t, o);
      assert Survives(q, p, t);
    }
  }

  /** No query keeps a placeholder exactly when the tenant's text separates. */
  lemma PlaceholderIsGoneExactly(t: string)
    ensures Separates(PLACEHOLDER, t) <==> forall q :: !Survives(q, PLACEHOLDER, t)
  {
    PlaceholderIsBorderless();
    GoneExactly(PLACEHOLDER, t);
  }

  /** A tenant number separates. */
  lemma NumbersSeparate(n: nat)
    ensures Separates(PLACEHOLDER, Show(n))
  {
    var t := Show(n);
    forall o
      ensures !Agrees(PLACEHOLDER, t, o)
    {
      if -|t| < o < |PLACEHOLDER| {
        var k := if o < 0 then 0 else o;
        assert IsDigit(t[k - o]) && !IsDigit(PLACEHOLDER[k]);
      }
    }
  }

  /** After a tenant number is filled in, preparing the query again for any user changes nothing. */
  lemma PreparedOnce(q: string, n: nat, other: Option<string>)
    ensures PrepareQuery(PrepareQuery(q, Some(Show(n))), other) == PrepareQuery(q, Some(Show(n)))
  {
    var r := Replace(q, PLACEHOLDER, Show(n));
    NumbersSeparate(n);
    NothingSurvives(q, PLACEHOLDER, Show(n));
    FirstIsFirst(r, PLACEHOLDER);
    if other.Some? {
      ReplaceFromFirst(r, PLACEHOLDER, other.value);
    }
  }

  // ----- What preparing a query does -----

  /** The prepared query is the query with every C_TENANT exchanged for the tenant, and nothing else. */
  lemma TenantIsFilledIn(q: string, t: string) returns (ps: seq<string>)
    ensures |ps| >= 1 && forall k :: 0 <= k < |ps| ==> !Mentions(ps[k], "C_TENANT")
    ensures Join(ps, "C_TENANT") == q && PrepareQuery(q, Some(t)) == Join(ps, t)
  {
    ps := Pieces(q, "C_TENANT");
    ReplaceKeepsPieces(q, "C_TENANT", t);
    forall k | 0 <= k < |ps|
      ensures !Mentions(ps[k], "C_TENANT")
    {
      PiecesAreClean(q, "C_TENANT", k);
    }
  }

  /** With a tenant number no C_TENANT is left. */
  lemma NumberLeavesNoPlaceholder(q: string, n: nat)
    ensures !Mentions(PrepareQuery(q, Some(Show(n))), "C_TENANT")
  {
    NumbersSeparate(n);
    NothingSurvives(q, "C_TENANT", Show(n));
  }

  /** Text without the placeholder, and any text without a user, is left as it is. */
  lemma NothingToFillIn(q: string, tenant: Option<string>)
    requires tenant.None? || !Mentions(q, "C_TENANT")
    ensures PrepareQuery(q, tenant) == q
  {
    if tenant.Some? {
      FirstIsFirst(q, "C_TENANT");
      ReplaceFromFirst(q, "C_TENANT", tenant.value);
    }
  }

  /** Two tenants whose texts differ get different queries, unless the query does not mention the tenant. */
  lemma TenantsAreSeparated(q: string, s: string, t: string)
    requires Mentions(q, "C_TENANT") && s != t && |s| == |t|
    ensures PrepareQuery(q, Some(s)) != PrepareQuery(q, Some(t))
  {
    hide Replace, First;
    var p, o := "C_TENANT", First(q, "C_TENANT");
    var i :| OccursAt(q, p, i);
    FirstIsFirst(q, p);
    ReplaceFromFirst(q, p, s);
    ReplaceFromFirst(q, p, t);
    CopiesDiffer(q[..o], s, Replace(q[o + |p|..], p, s), t, Replace(q[o + |p|..], p, t));
  }

  lemma CopiesDiffer(x: string, s: string, y: string, t: string, z: string)
    requires s != t && |s| == |t|
    ensures x + (s + y) != x + (t + z)
  {
    var a, b := x + (s + y), x + (t + z);
    assert a[|x|..|x| + |s|] == s && b[|x|..|x| + |t|] == t;
  }

  /** A query with one placeholder, between texts without the letter C. */
  lemma OnePlaceholder(x: string, z: string, t: string)
    requires 'C' !in x && 'C' !in z
    ensures PrepareQuery(x + "C_TENANT" + z, Some(t)) == x + t + z
  {
    hide Replace, First, OccursAt;
    var q, p := x + "C_TENANT" + z, "C_TENANT";
    FirstAfterPlainText(x, z);
    ReplaceFromFirst(q, p, t);
    assert q[..|x|] == x && q[|x| + |p|..] == z;
    NoLetterNoPlaceholder(z);
    NothingToFillIn(z, Some(t));
    assert x + (t + z) == x + t + z;
  }

  lemma NoLetterNoPlaceholder(z: string)
    requires 'C' !in z
    ensures !Mentions(z, "C_TENANT")
  {
    forall i | OccursAt(z, "C_TENANT", i)
      ensures false
    {
      StartsWithLetter(z, i);
    }
  }

  lemma StartsWithLetter(s: string, i: int)
    requires OccursAt(s, "C_TENANT", i)
    ensures 0 <= i < |s| && s[i] == 'C' && s[i] in s
  {
  }

  lemma FirstAfterPlainText(x: string, z: string)
    requires 'C' !in x
    ensures First(x + "C_TENANT" + z, "C_TENANT") == |x|
  {
    var q, p := x + "C_TENANT" + z, "C_TENANT";
    FirstIsFirst(q, p);
    assert OccursAt(q, p, |x|);
    var o := First(q, p);
    StartsWithLetter(q, o);
    assert forall i :: 0 <= i < |x| ==> q[i] == x[i] && x[i] in x;
  }
}

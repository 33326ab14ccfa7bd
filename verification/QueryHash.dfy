// Query identity: the normalised text behind the hash, and the annotation put before a query.

module QueryHash {

  // The end of the shortest comment body from j on: just after the next star and slash, unless a line
  // break comes first; -1 when the comment is not closed.
  function Close(s: string, j: nat): (e: int)
    ensures e == -1 || j + 2 <= e <= |s|
    decreases |s| - j
  {
    if j + 2 > |s| then -1
    else if s[j] == '*' && s[j + 1] == '/' then j + 2
    else if s[j] == '\n' then -1
    else Close(s, j + 1)
  }

  predicate OpensAt(s: string, i: nat) {
    i + 1 < |s| && s[i] == '/' && s[i + 1] == '*'
  }

  /** The text from i on with every comment removed, leftmost first and shortest. */
  function Strip(s: string, i: nat): string
    decreases |s| - i
  {
    if i >= |s| then ""
    else if OpensAt(s, i) && Close(s, i + 2) != -1 then Strip(s, Close(s, i + 2))
    else [s[i]] + Strip(s, i + 1)
  }

  /** What str.split() separates on. */
  predicate IsSpace(c: char) {
    var x := c as int;
    || 0x09 <= x <= 0x0D || 0x1C <= x <= 0x20 || x == 0x85 || x == 0xA0 || x == 0x1680
    || 0x2000 <= x <= 0x200A || x == 0x2028 || x == 0x2029 || x == 0x202F || x == 0x205F || x == 0x3000
  }

  function Squeeze(s: string): string {
    if s == "" then "" else (if IsSpace(s[0]) then "" else [s[0]]) + Squeeze(s[1..])
  }

  /** The text that is lower-cased and digested. */
  function Normalized(sql: string): string {
    Squeeze(Strip(sql, 0))
  }

  /** Lower-casing and the digest are a parameter: any function of the normalised text. */
  function GenQueryHash(sql: string, digest: string -> string): string {
    digest(Normalized(sql))
  }

  /** The metadata entries in order, as the annotation prints them. */
  function Entries(metadata: seq<(string, string)>): string {
    if metadata == [] then ""
    else
      var entry := metadata[0].0 + ": " + metadata[0].1;
      if |metadata| == 1 then entry else entry + ", " + Entries(metadata[1..])
  }

  function Header(metadata: seq<(string, string)>): string {
    "/* " + Entries(metadata) + " */ "
  }

  function AnnotateQuery(query: string, metadata: seq<(string, string)>, shouldAnnotate: bool): string {
    if !shouldAnnotate then query else Header(metadata) + query
  }

  // ----- The header cannot reach into the query -----

  /** Texts that end as the header does: no comment left open can be closed by what follows. */
  predicate EndsClosed(a: string) {
    |a| >= 4 && a[|a| - 4..] == " */ "
  }

  lemma {:induction false} CloseStaysInside(a: string, q: string, j: nat)
    requires EndsClosed(a) && j <= |a| - 3
    ensures Close(a + q, j) == Close(a, j) <= |a| - 1
    decreases |a| - j
  {
    var tail := a[|a| - 4..];
    assert tail[1] == a[|a| - 3] && tail[2] == a[|a| - 2];
    if j < |a| - 3 && !(a[j] == '*' && a[j + 1] == '/') && a[j] != '\n' {
      CloseStaysInside(a, q, j + 1);
    }
  }

  lemma OpenIsEarly(a: string, q: string, i: nat)
    requires EndsClosed(a) && i < |a|
    ensures OpensAt(a + q, i) == OpensAt(a, i)
    ensures OpensAt(a, i) ==> i + 2 <= |a| - 3
  {
    var tail := a[|a| - 4..];
    assert tail[0] == a[|a| - 4] && tail[1] == a[|a| - 3] && tail[2] == a[|a| - 2] && tail[3] == a[|a| - 1];
  }

  lemma {:induction false} CloseShift(a: string, q: string, j: nat)
    ensures Close(a + q, |a| + j) == if Close(q, j) == -1 then -1 else |a| + Close(q, j)
    decreases |q| - j
  {
    if j + 2 <= |q| && !(q[j] == '*' && q[j + 1] == '/') && q[j] != '\n' {
      CloseShift(a, q, j + 1);
    }
  }

  lemma {:induction false} StripShift(a: string, q: string, i: nat)
    ensures Strip(a + q, |a| + i) == Strip(q, i)
    decreases |q| - i
  {
    if i < |q| {
      CloseShift(a, q, i + 2);
      if OpensAt(q, i) && Close(q, i + 2) != -1 {
        StripShift(a, q, Close(q, i + 2));
      } else {
        StripShift(a, q, i + 1);
      }
    }
  }

  lemma {:induction false} StripSplits(a: string, q: string, i: nat)
    requires EndsClosed(a) && i <= |a|
    ensures Strip(a + q, i) == Strip(a, i) + Strip(q, 0)
    decreases |a| - i
  {
    if i == |a| {
      StripShift(a, q, 0);
    } else {
      OpenIsEarly(a, q, i);
      if OpensAt(a, i) {
        CloseStaysInside(a, q, i + 2);
      }
      if OpensAt(a, i) && Close(a, i + 2) != -1 {
        StripSplits(a, q, Close(a, i + 2));
      } else {
        StripSplits(a, q, i + 1);
      }
    }
  }

  function Kept(c: char): string {
    if IsSpace(c) then "" else [c]
  }

  lemma SqueezeFirst(c: char, s: string)
    ensures Squeeze("") == "" && Squeeze([c] + s) == Kept(c) + Squeeze(s)
  {
    hide IsSpace;
    assert ([c] + s)[1..] == s;
  }

  lemma Associates(x: string, y: string, z: string)
    ensures (x + y) + z == x + (y + z)
  {
  }

  lemma {:induction false} SqueezeAdds(x: string, y: string)
    ensures Squeeze(x + y) == Squeeze(x) + Squeeze(y)
    decreases |x|
  {
    hide Squeeze, Kept;
    if x == "" {
      SqueezeFirst(' ', y);
      assert x + y == y && "" + Squeeze(y) == Squeeze(y);
    } else {
      var c, t := x[0], x[1..];
      assert x == [c] + t;
      SqueezeAdds(t, y);
      SqueezeFirst(c, t);
      SqueezeFirst(c, t + y);
      Associates([c], t, y);
      Associates(Kept(c), Squeeze(t), Squeeze(y));
    }
  }

  lemma HeaderEndsClosed(metadata: seq<(string, string)>)
    ensures EndsClosed(Header(metadata))
  {
    var h := Header(metadata);
    assert h[|h| - 4..] == " */ ";
  }

  /** The normalised text of an annotated query is that of the header followed by that of the query. */
  lemma AnnotationIsAdditive(query: string, metadata: seq<(string, string)>)
    ensures Normalized(AnnotateQuery(query, metadata, true)) == Normalized(Header(metadata)) + Normalized(query)
  {
    HeaderEndsClosed(metadata);
    StripSplits(Header(metadata), query, 0);
    SqueezeAdds(Strip(Header(metadata), 0), Strip(query, 0));
  }

  /**
   * Annotating leaves the normalised text of a query as it is exactly when the header itself
   * normalises to nothing, whatever the query.
   */
  lemma AnnotationIsInvisibleExactly(query: string, metadata: seq<(string, string)>)
    ensures Normalized(AnnotateQuery(query, metadata, true)) == Normalized(query) <==>
            Normalized(Header(metadata)) == ""
  {
    AnnotationIsAdditive(query, metadata);
    var h, q := Normalized(Header(metadata)), Normalized(query);
    assert |h + q| == |h| + |q|;
    assert "" + q == q;
  }

  // ----- Harmless metadata -----

  /** Holds neither the end of a comment nor a line break. */
  predicate Harmless(s: string) {
    && (forall i :: 0 <= i < |s| - 1 ==> !(s[i] == '*' && s[i + 1] == '/'))
    && (forall i :: 0 <= i < |s| ==> s[i] != '\n')
  }

  lemma HarmlessAdds(x: string, y: string)
    requires Harmless(x) && Harmless(y) && (y == "" || y[0] != '/')
    ensures Harmless(x + y)
  {
    var s := x + y;
    forall i | 0 <= i < |s| - 1
      ensures !(s[i] == '*' && s[i + 1] == '/')
    {
      if i < |x| - 1 {
        assert s[i] == x[i] && s[i + 1] == x[i + 1];
      } else if i >= |x| {
        assert s[i] == y[i - |x|] && s[i + 1] == y[i - |x| + 1];
      }
    }
  }

  lemma HarmlessAfterSpace(x: string, y: string)
    requires Harmless(x) && Harmless(y) && x != "" && x[|x| - 1] == ' '
    ensures Harmless(x + y)
  {
    var s := x + y;
    forall i | 0 <= i < |s| - 1
      ensures !(s[i] == '*' && s[i + 1] == '/')
    {
      if i < |x| - 1 {
        assert s[i] == x[i] && s[i + 1] == x[i + 1];
      } else if i >= |x| {
        assert s[i] == y[i - |x|] && s[i + 1] == y[i - |x| + 1];
      }
    }
  }

  lemma {:induction false} EntriesAreHarmless(metadata: seq<(string, string)>)
    requires forall k :: 0 <= k < |metadata| ==> Harmless(metadata[k].0) && Harmless(metadata[k].1)
    ensures Harmless(Entries(metadata))
    decreases |metadata|
  {
    if metadata != [] {
      var key, value := metadata[0].0, metadata[0].1;
      HarmlessAdds(key, ": ");
      HarmlessAfterSpace(key + ": ", value);
      if |metadata| > 1 {
        HarmlessAdds(key + ": " + value, ", ");
        EntriesAreHarmless(metadata[1..]);
        HarmlessAfterSpace(key + ": " + value + ", ", Entries(metadata[1..]));
      }
    }
  }

  /** In a harmless body the first end of a comment is the one the header writes. */
  lemma {:induction false} CloseAtHeaderEnd(h: string, j: nat)
    requires EndsClosed(h) && |h| >= 7 && 3 <= j <= |h| - 3
    requires Harmless(h[3..|h| - 4])
    ensures Close(h, j) == |h| - 1
    decreases |h| - j
  {
    var body, tail := h[3..|h| - 4], h[|h| - 4..];
    assert tail[0] == h[|h| - 4] && tail[1] == h[|h| - 3] && tail[2] == h[|h| - 2];
    if j < |h| - 3 {
      if j < |h| - 4 {
        assert h[j] == body[j - 3] && (j + 1 < |h| - 4 ==> h[j + 1] == body[j - 2]);
      }
      CloseAtHeaderEnd(h, j + 1);
    }
  }

  /** If no key and no value ends a comment or breaks the line, annotating changes no query's hash. */
  lemma HarmlessMetadataKeepsHash(query: string, metadata: seq<(string, string)>, annotate: bool,
                                  digest: string -> string)
    requires forall k :: 0 <= k < |metadata| ==> Harmless(metadata[k].0) && Harmless(metadata[k].1)
    ensures GenQueryHash(AnnotateQuery(query, metadata, annotate), digest) == GenQueryHash(query, digest)
  {
    if annotate {
      var h := Header(metadata);
      HeaderEndsClosed(metadata);
      EntriesAreHarmless(metadata);
      assert h[3..|h| - 4] == Entries(metadata);
      assert h[0] == '/' && h[1] == '*' && h[2] == ' ';
      CloseAtHeaderEnd(h, 3);
      assert Close(h, 2) == Close(h, 3);
      assert h[|h| - 4..][3] == ' ' == h[|h| - 1];
      assert Strip(h, 0) == Strip(h, |h| - 1) == [h[|h| - 1]] + Strip(h, |h|);
      assert Strip(h, 0) == " " && " "[1..] == "";
      assert Normalized(h) == "";
      AnnotationIsInvisibleExactly(query, metadata);
    }
  }

  /** Without that the hash changes: a value that ends the comment leaks the rest of the header. */
  lemma LeakingMetadataChangesIdentity(query: string)
    ensures Normalized(AnnotateQuery(query, [("k", "*/")], true)) != Normalized(query)
  {
    var md := [("k", "*/")];
    var h := Header(md);
    assert Entries(md) == "k: */";
    assert h == "/* k: */ */ ";
    assert Close(h, 2) == 8 by {
      assert Close(h, 6) == 8;
      assert Close(h, 4) == Close(h, 6);
    }
    assert Strip(h, 0) == Strip(h, 8);
    assert Strip(h, 8) == [' '] + Strip(h, 9) && Strip(h, 9) == ['*'] + Strip(h, 10);
    var s := Strip(h, 8);
    assert s[1..] == Strip(h, 9);
    assert Squeeze(s) == Squeeze(s[1..]) == ['*'] + Squeeze(s[1..][1..]);
    AnnotationIsInvisibleExactly(query, md);
  }

  // ----- The normalised text in words -----

  /** A closed comment from i to e: it ends at the first end of a comment, and no line break comes before. */
  ghost predicate Comment(s: string, i: nat, e: nat) {
    && i + 4 <= e <= |s| && s[i] == '/' && s[i + 1] == '*' && s[e - 2] == '*' && s[e - 1] == '/'
    && forall k :: i + 2 <= k < e - 2 ==> s[k] != '\n' && !(s[k] == '*' && s[k + 1] == '/')
  }

  ghost predicate CommentAt(s: string, i: nat) {
    exists e :: Comment(s, i, e)
  }

  lemma {:induction false} CloseExactly(s: string, j: nat, e: nat)
    ensures Close(s, j) == e <==>
      && j + 2 <= e <= |s| && s[e - 2] == '*' && s[e - 1] == '/'
      && forall k :: j <= k < e - 2 ==> s[k] != '\n' && !(s[k] == '*' && s[k + 1] == '/')
    decreases |s| - j
  {
    if j + 2 <= |s| && !(s[j] == '*' && s[j + 1] == '/') && s[j] != '\n' {
      CloseExactly(s, j + 1, e);
    }
  }

  lemma CommentIsClosed(s: string, i: nat)
    ensures CommentAt(s, i) <==> OpensAt(s, i) && Close(s, i + 2) != -1
    ensures CommentAt(s, i) ==> Comment(s, i, Close(s, i + 2))
  {
    hide Close;
    if CommentAt(s, i) {
      var e :| Comment(s, i, e);
      CloseExactly(s, i + 2, e);
    }
    if OpensAt(s, i) && Close(s, i + 2) != -1 {
      var e: nat := Close(s, i + 2);
      CloseExactly(s, i + 2, e);
      assert Comment(s, i, e);
    }
  }

  lemma {:induction false} CopiedUpTo(s: string, j: nat, i: nat)
    requires j <= i <= |s| && forall k :: j <= k < i ==> !CommentAt(s, k)
    ensures Strip(s, j) == s[j..i] + Strip(s, i)
    decreases i - j
  {
    hide Strip, CommentAt;
    if j < i {
      CopyOne(s, j);
      CopiedUpTo(s, j + 1, i);
      assert s[j..i] == [s[j]] + s[j + 1..i];
    }
  }

  lemma CopyOne(s: string, j: nat)
    requires j < |s| && !CommentAt(s, j)
    ensures Strip(s, j) == [s[j]] + Strip(s, j + 1)
  {
    CommentIsClosed(s, j);
    hide Close, CommentAt;
  }

  lemma SkipComment(s: string, i: nat, e: nat)
    requires Comment(s, i, e)
    ensures Strip(s, i) == Strip(s, e)
  {
    CloseExactly(s, i + 2, e);
    hide Close;
  }

  /** Text without comments is kept as it is. */
  lemma NoCommentNothingRemoved(s: string)
    requires forall k: nat :: !CommentAt(s, k)
    ensures Strip(s, 0) == s
  {
    CopiedUpTo(s, 0, |s|);
    assert s[0..|s|] + "" == s;
  }

  /** The leftmost comment is removed whole, what precedes it is kept, and what follows is treated alike. */
  lemma LeftmostCommentIsRemoved(s: string, i: nat, e: nat)
    requires Comment(s, i, e) && forall k: nat :: k < i ==> !CommentAt(s, k)
    ensures Strip(s, 0) == s[..i] + Strip(s[e..], 0)
  {
    CopiedUpTo(s, 0, i);
    SkipComment(s, i, e);
    StripShift(s[..e], s[e..], 0);
    hide Strip, Comment, CommentAt;
    assert s == s[..e] + s[e..] && s[0..i] == s[..i];
  }

  /** The characters that Python's str.split() takes for whitespace. */
  const WHITESPACE: string :=
    "\t\n\U{0B}\U{0C}\r\U{1C}\U{1D}\U{1E}\U{1F} \U{85}\U{A0}\U{1680}"
    + "\U{2000}\U{2001}\U{2002}\U{2003}\U{2004}\U{2005}\U{2006}\U{2007}\U{2008}\U{2009}\U{200A}"
    + "\U{2028}\U{2029}\U{202F}\U{205F}\U{3000}"

  lemma WhitespaceExactly(c: char)
    ensures IsSpace(c) <==> c in WHITESPACE
  {
  }

  /** The characters of s that are no whitespace, in their order. */
  function Solid(s: string): string {
    if s == "" then "" else Solid(s[..|s| - 1]) + if s[|s| - 1] in WHITESPACE then "" else [s[|s| - 1]]
  }

  /** Splitting and joining drops exactly the whitespace. */
  lemma {:induction false} SqueezeIsSolid(s: string)
    ensures Squeeze(s) == Solid(s)
    decreases |s|
  {
    hide IsSpace, Squeeze;
    if s == "" {
      SqueezeFirst(' ', "");
    } else {
      var front, c := s[..|s| - 1], s[|s| - 1];
      assert s == front + [c];
      SqueezeIsSolid(front);
      SqueezeAdds(front, [c]);
      SqueezeFirst(c, "");
      assert [c] + "" == [c];
      WhitespaceExactly(c);
      assert Kept(c) + "" == Kept(c);
    }
  }

  /** Two queries have the same hash under every digest exactly when their normalised texts agree. */
  lemma HashesAgreeExactly(p: string, q: string)
    ensures (forall digest: string -> string :: GenQueryHash(p, digest) == GenQueryHash(q, digest)) <==>
            Solid(Strip(p, 0)) == Solid(Strip(q, 0))
  {
    SqueezeIsSolid(Strip(p, 0));
    SqueezeIsSolid(Strip(q, 0));
    var same: string -> string := x => x;
    assert GenQueryHash(p, same) == Normalized(p) && GenQueryHash(q, same) == Normalized(q);
  }

  /** Metadata is printed as "key: value", separated by commas. */
  lemma {:induction false} EntriesInWords(front: seq<(string, string)>, key: string, value: string)
    ensures Entries([]) == "" && Entries([(key, value)]) == key + ": " + value
    ensures front != [] ==> Entries(front + [(key, value)]) == Entries(front) + ", " + key + ": " + value
    decreases |front|
  {
    var last := key + ": " + value;
    if |front| > 1 {
      var entry, rest := front[0].0 + ": " + front[0].1, front[1..];
      EntriesInWords(rest, key, value);
      assert (front + [(key, value)])[1..] == rest + [(key, value)];
      assert entry + ", " + (Entries(rest) + ", " + key + ": " + value) ==
             entry + ", " + Entries(rest) + ", " + key + ": " + value;
    } else if |front| == 1 {
      assert (front + [(key, value)])[1..] == [(key, value)];
      assert Entries(front) + ", " + (key + ": " + value) == Entries(front) + ", " + key + ": " + value;
    }
  }

  /** The annotation precedes the query as a comment; runners that do not annotate leave the query alone. */
  lemma AnnotationInWords(query: string, metadata: seq<(string, string)>)
    ensures AnnotateQuery(query, metadata, true) == "/* " + Entries(metadata) + " */ " + query
    ensures AnnotateQuery(query, metadata, false) == query
  {
  }
}

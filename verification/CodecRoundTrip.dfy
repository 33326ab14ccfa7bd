// Exactly which passwords survive encoding and decoding.

module CodecRoundTrip {
  import opened Outcomes
  import opened Numerals
  import opened Rsa
  import opened DoubleDivision
  import opened CodecSpec
  import CriptografiaSenha

  /** Four digits a b c e without three final zeros and without two zeros after a digit from 5 to 9. */
  predicate SafeDigits(a: nat, b: nat, c: nat, e: nat) {
    !(b == 0 && c == 0 && (a >= 5 || e == 0)) && !(b >= 5 && c == 0 && e == 0)
  }

  /** A character the codec carries: its code plus 1000 has four digits, and these are safe. */
  predicate Safe(x: CodePoint) {
    var y := x as int + 1000;
    y <= 9999 && SafeDigits(y / 1000, y / 100 % 10, y / 10 % 10, y % 10)
  }

  /** A position where the encoder cannot split: a digit, two zeros, and a large digit or a third zero. */
  predicate BadAt(d: string, k: nat) {
    && k + 2 < |d| && d[k] != '0' && d[k + 1] == '0' && d[k + 2] == '0'
    && (d[k] >= '5' || (k + 3 < |d| && d[k + 3] == '0'))
  }

  // ----- What the decoder reads back -----

  /** The digits of d from start on as they come back: every block printed from its value. */
  function Reprint(d: string, start: nat): (r: string)
    requires AllDigits(d) && start <= |d|
    ensures AllDigits(r)
    decreases |d| - start
  {
    if start == |d| || BlockEnd(d, start) == start then ""
    else
      Show(Value(d[start..BlockEnd(d, start)])) + Reprint(d, BlockEnd(d, start))
  }

  lemma {:induction false} DashAfterDigits(p: string, i: nat, rest: string)
    requires AllDigits(p) && i <= |p|
    ensures NextDash(p + "-" + rest, i) == |p|
    decreases |p| - i
  {
    if i < |p| {
      DashAfterDigits(p, i + 1, rest);
    }
  }

  lemma {:induction false} DashShift(pre: string, c: string, i: nat)
    requires i <= |c|
    ensures NextDash(pre + c, |pre| + i) == |pre| + NextDash(c, i)
    decreases |c| - i
  {
    if i < |c| && c[i] != '-' {
      DashShift(pre, c, i + 1);
    }
  }

  lemma {:induction false} DecodeShift(pre: string, c: string, i: nat)
    requires i <= |c|
    ensures DecodeFrom(pre + c, |pre| + i) == DecodeFrom(c, i)
    decreases |c| - i
  {
    hide DecodePiece;
    DashShift(pre, c, i);
    var k := NextDash(c, i);
    if k < |c| {
      var a := pre + c;
      assert a[|pre| + i..|pre| + k] == c[i..k];
      DecodeShift(pre, c, k + 1);
      assert DecodeFrom(a, |pre| + k + 1) == DecodeFrom(c, k + 1);
    }
  }

  lemma DecodeFirst(p: string, rest: string)
    requires AllDigits(p)
    ensures DecodeFrom(p + "-" + rest, 0) ==
      match DecodePiece(p)
      case Err(x) => Err(x)
      case Ok(head) =>
        match DecodeFrom(rest, 0)
        case Err(x) => Err(x)
        case Ok(tail) => Ok(head + tail)
  {
    DashAfterDigits(p, 0, rest);
    assert (p + "-" + rest)[0..|p|] == p;
    DecodeShift(p + "-", rest, 0);
  }

  /** One encrypted block decodes to the numeral of its value. */
  lemma DecodeEncrypted(v: nat)
    requires v < MODULUS
    ensures DecodePiece(Show(Encrypt(v))) == Ok(Show(v))
  {
    DecryptInvertsEncrypt(v);
    ValueOfShow(Encrypt(v));
    ShowIsCanonical(Encrypt(v));
  }

  /** No block exceeds 499, so every block is below the modulus. */
  lemma BlockIsSmall(d: string, start: nat)
    requires AllDigits(d) && start < |d| && BlockEnd(d, start) > start
    ensures Value(d[start..BlockEnd(d, start)]) <= 499
  {
    var k, e := Crossing(d, start, start), BlockEnd(d, start);
    BlockValueIsValue(d, start, e - 1);
    if e - 1 < k {
      BelowFiftyPrefix(d, start, e, k);
    }
  }

  /** Decoding an encoding gives the reprinted digits. */
  lemma {:induction false} DecodedDigits(d: string, start: nat)
    requires AllDigits(d) && start <= |d| && EncodeFrom(d, start).Ok?
    ensures DecodeFrom(EncodeFrom(d, start).value, 0) == Ok(Reprint(d, start))
    decreases |d| - start
  {
    if start < |d| {
      var e := BlockEnd(d, start);
      var v, rest := Value(d[start..e]), EncodeFrom(d, e).value;
      BlockIsSmall(d, start);
      DecodedDigits(d, e);
      DecodeEncrypted(v);
      DecodeFirst(Show(Encrypt(v)), rest);
      assert EncodeFrom(d, start).value == Show(Encrypt(v)) + "-" + rest;
    }
  }

  /** What the encoder emits, the decoder accepts: digits and dashes, every piece below the modulus. */
  lemma {:induction false} EncodingIsAcceptable(d: string, start: nat)
    requires AllDigits(d) && start <= |d| && EncodeFrom(d, start).Ok?
    ensures IsCipherText(EncodeFrom(d, start).value)
    ensures PiecesInRange(EncodeFrom(d, start).value, 0)
    decreases |d| - start
  {
    if start < |d| {
      var e := BlockEnd(d, start);
      var p, rest := Show(Encrypt(Value(d[start..e]))), EncodeFrom(d, e).value;
      BlockIsSmall(d, start);
      EncodingIsAcceptable(d, e);
      DecryptInvertsEncrypt(Value(d[start..e]));
      ValueOfShow(Encrypt(Value(d[start..e])));
      DashAfterDigits(p, 0, rest);
      var c := p + "-" + rest;
      assert c[0..|p|] == p;
      RangeShift(p + "-", rest, 0);
      assert EncodeFrom(d, start).value == c;
    }
  }

  lemma {:induction false} RangeShift(pre: string, c: string, i: nat)
    requires IsCipherText(c) && IsCipherText(pre + c) && i <= |c| && PiecesInRange(c, i)
    ensures PiecesInRange(pre + c, |pre| + i)
    decreases |c| - i
  {
    DashShift(pre, c, i);
    var k := NextDash(c, i);
    if k < |c| {
      assert (pre + c)[|pre| + i..|pre| + k] == c[i..k];
      RangeShift(pre, c, k + 1);
    }
  }

  // ----- Which digit strings come back unchanged -----

  predicate AllCanonical(d: string, start: nat)
    requires AllDigits(d) && start <= |d|
    decreases |d| - start
  {
    start == |d| ||
    (var e := BlockEnd(d, start);
     e > start && Canonical(d[start..e]) && AllCanonical(d, e))
  }

  lemma {:induction false} CanonicalBlocksEncode(d: string, start: nat)
    requires AllDigits(d) && start <= |d| && AllCanonical(d, start)
    ensures EncodeFrom(d, start).Ok?
    decreases |d| - start
  {
    if start < |d| {
      CanonicalBlocksEncode(d, BlockEnd(d, start));
    }
  }

  /** Splitting loses nothing exactly when no block starts with a superfluous zero; otherwise digits vanish. */
  lemma {:induction false} ReprintIsLossless(d: string, start: nat)
    requires AllDigits(d) && start <= |d| && EncodeFrom(d, start).Ok?
    ensures if AllCanonical(d, start) then Reprint(d, start) == d[start..]
            else |Reprint(d, start)| < |d| - start
    decreases |d| - start
  {
    hide Show, Value, BlockEnd, EncryptBlock;
    if start < |d| {
      var e := BlockEnd(d, start);
      ReprintIsLossless(d, e);
      ShowOfValue(d[start..e]);
      assert d[start..] == d[start..e] + d[e..];
    }
  }

  /** From a non-zero digit the block crosses 50 at its second or third digit. */
  lemma CrossingCases(d: string, start: nat)
    requires AllDigits(d) && start < |d| && d[start] != '0'
    ensures var k := Crossing(d, start, start);
      k == if d[start] >= '5' && start + 1 < |d| then start + 1
           else if d[start] < '5' && start + 2 < |d| then start + 2
           else |d|
  {
    assert BlockValue(d, start, start) == DigitValue(d[start]);
    if start + 1 < |d| {
      var two := BlockValue(d, start, start + 1);
      assert two == 10 * DigitValue(d[start]) + DigitValue(d[start + 1]);
      assert Crossing(d, start, start) == Crossing(d, start, start + 1);
      if start + 2 < |d| {
        assert BlockValue(d, start, start + 2) == 10 * two + DigitValue(d[start + 2]);
      }
    }
  }

  /** A block from a non-zero digit is well split unless that digit is a bad position. */
  lemma GoodBlock(d: string, start: nat)
    requires AllDigits(d) && start < |d| && d[start] != '0' && !BadAt(d, start)
    ensures var e := BlockEnd(d, start);
      e > start && Canonical(d[start..e]) && (e < |d| ==> d[e] != '0')
  {
    CrossingCases(d, start);
  }

  /** A block never runs over a bad position that lies ahead of it. */
  lemma BlockStopsAt(d: string, start: nat, k: nat)
    requires AllDigits(d) && start < k < |d| && d[start] != '0' && BadAt(d, k)
    ensures BlockEnd(d, start) <= k
  {
    CrossingCases(d, start);
  }

  lemma ZerosFirst(d: string, start: nat)
    requires AllDigits(d) && start + 1 < |d| && d[start] == '0' && d[start + 1] == '0'
    ensures !AllCanonical(d, start)
  {
    assert BlockValue(d, start, start) == 0;
    assert BlockValue(d, start, start + 1) == 0;
    assert Crossing(d, start, start) == Crossing(d, start, start + 1) == Crossing(d, start, start + 2);
    if start + 2 < |d| {
      assert BlockValue(d, start, start + 2) == DigitValue(d[start + 2]);
      assert Crossing(d, start, start + 2) == Crossing(d, start, start + 3);
    }
    assert BlockEnd(d, start) >= start + 2;
  }

  lemma BadBlock(d: string, start: nat)
    requires AllDigits(d) && start < |d| && BadAt(d, start)
    ensures !AllCanonical(d, start)
  {
    CrossingCases(d, start);
    if BlockEnd(d, start) > start {
      ZerosFirst(d, start + 1);
    }
  }

  lemma {:induction false} CleanDigitsSplit(d: string, start: nat)
    requires AllDigits(d) && start <= |d| && (start < |d| ==> d[start] != '0')
    requires forall k :: start <= k < |d| ==> !BadAt(d, k)
    ensures AllCanonical(d, start)
    decreases |d| - start
  {
    if start < |d| {
      GoodBlock(d, start);
      CleanDigitsSplit(d, BlockEnd(d, start));
    }
  }

  lemma {:induction false} BadDigitsDoNotSplit(d: string, start: nat, k: nat)
    requires AllDigits(d) && start <= k < |d| && d[start] != '0' && BadAt(d, k)
    ensures !AllCanonical(d, start)
    decreases |d| - start
  {
    if BadAt(d, start) {
      BadBlock(d, start);
    } else {
      GoodBlock(d, start);
      BlockStopsAt(d, start, k);
      BadDigitsDoNotSplit(d, BlockEnd(d, start), k);
    }
  }

  // ----- When encoding raises -----

  /** A digit from 5 to 9 followed by two zeros. */
  predicate HeavyAt(d: string, k: nat) {
    k + 2 < |d| && '5' <= d[k] <= '9' && d[k + 1] == '0' && d[k + 2] == '0'
  }

  /** Whatever block reaches a heavy position ends there; a block that starts there is empty. */
  lemma BlockEndsAtHeavy(d: string, start: nat, k: nat)
    requires AllDigits(d) && start <= k && HeavyAt(d, k)
    ensures BlockEnd(d, start) <= k
  {
    var c := Crossing(d, start, start);
    if c >= k {
      BelowFiftyPrefix(d, start, k, c);
      assert BlockValue(d, start, k) >= 5;
      if c > k {
        BelowFiftyPrefix(d, start, k + 1, c);
        assert BlockValue(d, start, k + 1) == 10 * BlockValue(d, start, k) >= 50;
        if c > k + 1 {
          BelowFiftyPrefix(d, start, k + 2, c);
        }
      }
    }
  }

  lemma EmptyBlockIsHeavy(d: string, start: nat)
    requires AllDigits(d) && start < |d| && BlockEnd(d, start) == start
    ensures HeavyAt(d, start)
  {
    var c := Crossing(d, start, start);
    assert BlockValue(d, start, start) == DigitValue(d[start]);
    assert c == start + 1 && BlockValue(d, start, c) == 10 * DigitValue(d[start]) + DigitValue(d[c]);
  }

  lemma {:induction false} HeavyDigitsRaise(d: string, start: nat, k: nat)
    requires AllDigits(d) && start <= k && HeavyAt(d, k)
    ensures EncodeFrom(d, start).Err?
    decreases |d| - start
  {
    BlockEndsAtHeavy(d, start, k);
    if BlockEnd(d, start) > start {
      HeavyDigitsRaise(d, BlockEnd(d, start), k);
    }
  }

  lemma {:induction false} RaisingDigitsAreHeavy(d: string, start: nat) returns (k: nat)
    requires AllDigits(d) && start <= |d| && EncodeFrom(d, start).Err?
    ensures start <= k && HeavyAt(d, k)
    decreases |d| - start
  {
    var e := BlockEnd(d, start);
    if e == start {
      EmptyBlockIsHeavy(d, start);
      k := start;
    } else {
      k := RaisingDigitsAreHeavy(d, e);
    }
  }

  ghost predicate HasHeavy(d: string) {
    exists k :: 0 <= k < |d| && HeavyAt(d, k)
  }

  /** A heavy position never straddles two numerals, because a numeral does not start with a zero. */
  lemma HeavyOfTwo(d: string, e: string)
    requires e != "" && e[0] != '0'
    ensures HasHeavy(d + e) <==> HasHeavy(d) || HasHeavy(e)
  {
    var s := d + e;
    if HasHeavy(d) {
      var k :| 0 <= k < |d| && HeavyAt(d, k);
      assert HeavyAt(s, k);
    }
    if HasHeavy(e) {
      var k :| 0 <= k < |e| && HeavyAt(e, k);
      assert HeavyAt(s, |d| + k);
    }
    if HasHeavy(s) {
      var k :| 0 <= k < |s| && HeavyAt(s, k);
      assert s[|d|] == e[0];
      assert if k < |d| then HeavyAt(d, k) else HeavyAt(e, k - |d|);
    }
  }

  /** The numeral of the character's code plus 1000 holds a heavy position. */
  ghost predicate Unencodable(x: CodePoint) {
    HasHeavy(Show(x as int + 1000))
  }

  lemma {:induction false} HeavyOfPreCode(s: seq<CodePoint>)
    ensures HasHeavy(PreCode(s)) <==> exists j :: 0 <= j < |s| && Unencodable(s[j])
    decreases |s|
  {
    if s != [] {
      var t, x := s[..|s| - 1], s[|s| - 1];
      HeavyOfPreCode(t);
      ShowIsCanonical(x as int + 1000);
      HeavyOfTwo(PreCode(t), Show(x as int + 1000));
      assert forall j :: 0 <= j < |t| ==> t[j] == s[j];
      hide Unencodable;
      assert (exists j :: 0 <= j < |s| && Unencodable(s[j])) <==>
             (exists j :: 0 <= j < |t| && Unencodable(t[j])) || Unencodable(x);
    }
  }

  /** Encoding raises exactly when some character's numeral has a digit from 5 to 9 before two zeros. */
  lemma EncodeRaisesExactly(s: seq<CodePoint>)
    ensures Encode(s).Err? <==> exists j :: 0 <= j < |s| && Unencodable(s[j])
  {
    var d := PreCode(s);
    HeavyOfPreCode(s);
    if Encode(s).Err? {
      var k := RaisingDigitsAreHeavy(d, 0);
    }
    if HasHeavy(d) {
      var k :| 0 <= k < |d| && HeavyAt(d, k);
      HeavyDigitsRaise(d, 0, k);
    }
  }

  // ----- From digits to characters -----

  predicate FourDigitCodes(s: seq<CodePoint>) {
    forall j :: 0 <= j < |s| ==> s[j] <= 8999
  }

  lemma ShowFourDigits(y: nat)
    requires 1000 <= y <= 9999
    ensures |Show(y)| == 4
    ensures Show(y) == [DigitOf(y / 1000), DigitOf(y / 100 % 10), DigitOf(y / 10 % 10), DigitOf(y % 10)]
  {
    assert Show(y) == Show(y / 10) + [DigitOf(y % 10)];
    assert Show(y / 10) == Show(y / 10 / 10) + [DigitOf(y / 10 % 10)];
    assert y / 10 / 10 == y / 100 && y / 100 / 10 == y / 1000;
    assert Show(y / 100) == Show(y / 1000) + [DigitOf(y / 100 % 10)];
    assert Show(y / 1000) == [DigitOf(y / 1000)];
  }

  /** Character j occupies digits 4j to 4j + 3. */
  lemma {:induction false} GroupOfCharacter(s: seq<CodePoint>, j: nat)
    requires FourDigitCodes(s) && j < |s|
    ensures |PreCode(s)| == 4 * |s|
    ensures PreCode(s)[4 * j..4 * j + 4] == Show(s[j] as int + 1000)
    decreases |s|
  {
    hide Show, PreCode;
    var t, y := s[..|s| - 1], s[|s| - 1] as int + 1000;
    PreCodeInSteps(s);
    ShowFourDigits(y);
    if t != [] {
      GroupOfCharacter(t, if j < |t| then j else 0);
    }
    FourMore(PreCode(t), Show(y), |t|, j);
  }

  lemma PreCodeInSteps(s: seq<CodePoint>)
    ensures PreCode([]) == ""
    ensures s != [] ==> PreCode(s) == PreCode(s[..|s| - 1]) + Show(s[|s| - 1] as int + 1000)
  {
  }

  lemma FourMore(d: string, g: string, n: nat, j: nat)
    requires |d| == 4 * n && |g| == 4 && j <= n
    ensures (d + g)[4 * j..4 * j + 4] == if j < n then d[4 * j..4 * j + 4] else g
  {
  }

  /** The digit of d at position i, as a number. */
  function At(d: string, i: nat): nat
    requires AllDigits(d) && i < |d|
  {
    DigitValue(d[i])
  }

  lemma DigitsOfCharacter(s: seq<CodePoint>, j: nat) returns (a: nat, b: nat, c: nat, e: nat)
    requires FourDigitCodes(s) && j < |s|
    ensures |PreCode(s)| == 4 * |s|
    ensures var d := PreCode(s);
      At(d, 4 * j) == a > 0 && At(d, 4 * j + 1) == b && At(d, 4 * j + 2) == c && At(d, 4 * j + 3) == e
    ensures Safe(s[j]) <==> SafeDigits(a, b, c, e)
  {
    var d, y := PreCode(s), s[j] as int + 1000;
    a, b, c, e := y / 1000, y / 100 % 10, y / 10 % 10, y % 10;
    GroupOfCharacter(s, j);
    ShowFourDigits(y);
    var g := d[4 * j..4 * j + 4];
    assert g[0] == d[4 * j] && g[1] == d[4 * j + 1] && g[2] == d[4 * j + 2] && g[3] == d[4 * j + 3];
  }

  /** Badness read off the digit values. */
  lemma BadDigits(d: string, k: nat)
    requires AllDigits(d)
    ensures BadAt(d, k) <==>
      && k + 2 < |d| && At(d, k) != 0 && At(d, k + 1) == 0 && At(d, k + 2) == 0
      && (At(d, k) >= 5 || (k + 3 < |d| && At(d, k + 3) == 0))
  {
  }

  /** An unsafe character makes a bad position inside its own four digits. */
  lemma UnsafeIsBad(s: seq<CodePoint>, j: nat) returns (k: nat)
    requires FourDigitCodes(s) && j < |s| && !Safe(s[j])
    ensures |PreCode(s)| == 4 * |s| && k < |PreCode(s)| && BadAt(PreCode(s), k)
  {
    hide Safe, BadAt, PreCode;
    var a, b, c, e := DigitsOfCharacter(s, j);
    k := if b == 0 then 4 * j else 4 * j + 1;
    BadDigits(PreCode(s), k);
  }

  /** A bad position never straddles two characters, because every group starts with a non-zero digit. */
  lemma BadIsUnsafe(s: seq<CodePoint>, j: nat, i: nat)
    requires FourDigitCodes(s) && j < |s| && i < 4 && BadAt(PreCode(s), 4 * j + i)
    ensures !Safe(s[j])
  {
    hide Safe, BadAt, PreCode;
    BadDigits(PreCode(s), 4 * j + i);
    var a, b, c, e := DigitsOfCharacter(s, j);
    if j + 1 < |s| {
      var a', b', c', e' := DigitsOfCharacter(s, j + 1);
    }
  }

  lemma {:induction false} CharactersOfPreCode(s: seq<CodePoint>, j: nat)
    requires FourDigitCodes(s) && j <= |s|
    ensures |PreCode(s)| == 4 * |s|
    ensures Characters(PreCode(s), 4 * j) == Ok(s[j..])
    decreases |s| - j
  {
    if s != [] {
      GroupOfCharacter(s, 0);
    }
    if j < |s| {
      GroupOfCharacter(s, j);
      ValueOfShow(s[j] as int + 1000);
      CharactersOfPreCode(s, j + 1);
      assert s[j..] == [s[j]] + s[j + 1..];
    } else {
      assert s[j..] == [];
    }
  }

  lemma FourDigitsBound(s: string)
    requires AllDigits(s) && |s| == 4
    ensures Value(s) <= 9999
  {
    var t := s[..3];
    var u := t[..2];
    var v := u[..1];
    assert Value(v[..0]) == 0;
    assert Value(v) <= 9 && Value(u) <= 99 && Value(t) <= 999;
  }

  /** A regrouping has one character for every four digits, none above 8999. */
  lemma {:induction false} CharactersAreFew(d: string, i: nat)
    requires AllDigits(d) && i <= |d| && Characters(d, i).Ok?
    ensures |Characters(d, i).value| == (|d| - i) / 4
    ensures forall v :: v in Characters(d, i).value ==> v <= 8999
    decreases |d| - i
  {
    if i + 4 <= |d| {
      CharactersAreFew(d, i + 4);
      FourDigitsBound(d[i..i + 4]);
    }
  }

  lemma {:induction false} FirstDigitIsNotZero(s: seq<CodePoint>)
    requires s != []
    ensures PreCode(s) != "" && PreCode(s)[0] != '0'
  {
    ShowIsCanonical(s[|s| - 1] as int + 1000);
    if |s| > 1 {
      FirstDigitIsNotZero(s[..|s| - 1]);
    }
  }

  ghost predicate RoundTrips(s: seq<CodePoint>) {
    Encode(s).Ok? && Decode(Encode(s).value) == Ok(s)
  }

  /** The digits of safe characters hold no bad position. */
  lemma SafeDigitsAreClean(s: seq<CodePoint>)
    requires forall j :: 0 <= j < |s| ==> Safe(s[j])
    ensures forall k :: 0 <= k < |PreCode(s)| ==> !BadAt(PreCode(s), k)
  {
    var d := PreCode(s);
    forall k | 0 <= k < |d|
      ensures !BadAt(d, k)
    {
      if BadAt(d, k) {
        GroupOfCharacter(s, 0);
        BadIsUnsafe(s, k / 4, k % 4);
      }
    }
  }

  lemma SafeStringsRoundTrip(s: seq<CodePoint>)
    requires forall j :: 0 <= j < |s| ==> Safe(s[j])
    ensures RoundTrips(s)
  {
    var d := PreCode(s);
    if s != [] {
      FirstDigitIsNotZero(s);
    }
    SafeDigitsAreClean(s);
    CleanDigitsSplit(d, 0);
    CanonicalBlocksEncode(d, 0);
    ReprintIsLossless(d, 0);
    DecodedDigits(d, 0);
    CharactersOfPreCode(s, 0);
    assert d[0..] == d && s[0..] == s;
  }

  lemma UnsafeStringsDoNot(s: seq<CodePoint>, j: nat)
    requires j < |s| && !Safe(s[j])
    ensures !RoundTrips(s)
  {
    var d := PreCode(s);
    if Encode(s).Ok? && Decode(Encode(s).value).Ok? {
      DecodedDigits(d, 0);
      CharactersAreFew(Reprint(d, 0), 0);
      var r := Decode(Encode(s).value).value;
      if FourDigitCodes(s) {
        var k := UnsafeIsBad(s, j);
        FirstDigitIsNotZero(s);
        BadDigitsDoNotSplit(d, 0, k);
        ReprintIsLossless(d, 0);
        assert |r| < |s|;
      } else {
        var i :| 0 <= i < |s| && s[i] > 8999;
        assert s[i] in s && s[i] !in r;
      }
    }
  }

  /** The round trip holds for exactly the strings whose every character is safe. */
  lemma RoundTripExactly(s: seq<CodePoint>)
    ensures RoundTrips(s) <==> forall j :: 0 <= j < |s| ==> Safe(s[j])
  {
    if forall j :: 0 <= j < |s| ==> Safe(s[j]) {
      SafeStringsRoundTrip(s);
    } else {
      var j :| 0 <= j < |s| && !Safe(s[j]);
      UnsafeStringsDoNot(s, j);
    }
  }

  /** The encoder's loops followed by the decoder's, through any faithful floating-point division. */
  method CodificarDescodificar(s: seq<CodePoint>, div: (int, int) -> real) returns (r: Result<seq<int>>)
    requires Faithful(div)
    ensures r == Ok(s) <==> forall j :: 0 <= j < |s| ==> Safe(s[j])
  {
    hide Safe, PreCode, EncodeFrom, PiecesInRange, Decode;
    RoundTripExactly(s);
    var codigo := CriptografiaSenha.Codificar(s, div);
    match codigo
    case Err(e) =>
      r := Err(e);
    case Ok(c) =>
      EncodingIsAcceptable(PreCode(s), 0);
      r := CriptografiaSenha.Descodificar(c, div);
  }

  /** Every string of code points 1 to 255 round-trips. */
  lemma Latin1RoundTrips(s: seq<CodePoint>)
    requires forall j :: 0 <= j < |s| ==> 1 <= s[j] <= 255
    ensures RoundTrips(s)
  {
    hide RoundTrips, Safe;
    forall j | 0 <= j < |s|
      ensures Safe(s[j])
    {
      Latin1IsSafe(s[j]);
    }
    SafeStringsRoundTrip(s);
  }

  lemma Latin1IsSafe(x: CodePoint)
    requires 1 <= x <= 255
    ensures Safe(x)
  {
    var y := x as int + 1000;
    assert y / 1000 == 1 && y / 100 % 10 <= 2;
  }

  /** Concrete failures: chr(0) vanishes, and chr(500) cannot be encoded at all. */
  lemma FailuresExist()
    ensures !RoundTrips([0]) && !RoundTrips([99, 500]) && !RoundTrips([9000])
  {
    var nul: seq<CodePoint>, mixed: seq<CodePoint>, high: seq<CodePoint> := [0], [99, 500], [9000];
    assert !Safe(nul[0]) && !Safe(mixed[1]) && !Safe(high[0]);
    hide Safe, RoundTrips;
    UnsafeStringsDoNot(nul, 0);
    UnsafeStringsDoNot(mixed, 1);
    UnsafeStringsDoNot(high, 0);
  }
}

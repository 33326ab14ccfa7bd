// What the password codec computes, block by block.

module CodecSpec {
  import opened Outcomes
  import opened Numerals
  import opened Rsa
  import opened DoubleDivision

  /** A character of a Python string. */
  type CodePoint = x: int | 0 <= x < 0x110000

  /** Every character becomes the numeral of its code plus 1000. */
  function PreCode(s: seq<CodePoint>): (d: string)
    ensures AllDigits(d)
  {
    if s == [] then "" else PreCode(s[..|s| - 1]) + Show(s[|s| - 1] as int + 1000)
  }

  /** The value of the block that begins at start and has taken the digits up to and including i. */
  function BlockValue(d: string, start: nat, i: nat): nat
    requires AllDigits(d) && start <= i < |d|
    decreases i
  {
    (if i == start then 0 else 10 * BlockValue(d, start, i - 1)) + DigitValue(d[i])
  }

  /** The block that begins at start stays below 50 up to, but not including, position k. */
  predicate BelowFifty(d: string, start: nat, k: nat)
    requires AllDigits(d) && start <= k <= |d|
  {
    k == start || (BlockValue(d, start, k - 1) < 50 && BelowFifty(d, start, k - 1))
  }

  lemma {:induction false} BelowFiftyPrefix(d: string, start: nat, j: nat, k: nat)
    requires AllDigits(d) && start <= j <= k <= |d| && BelowFifty(d, start, k)
    ensures BelowFifty(d, start, j)
    decreases k
  {
    if j < k {
      BelowFiftyPrefix(d, start, j, k - 1);
    }
  }

  /** The numeral that a block spells is the value accumulated digit by digit. */
  lemma {:induction false} BlockValueIsValue(d: string, start: nat, i: nat)
    requires AllDigits(d) && start <= i < |d|
    ensures Value(d[start..i + 1]) == BlockValue(d, start, i)
    decreases i
  {
    var s := d[start..i + 1];
    assert s[..|s| - 1] == d[start..i];
    if i > start {
      BlockValueIsValue(d, start, i - 1);
    } else {
      assert Value(s[..0]) == 0;
    }
  }

  /** The first position k >= j at which the block reaches the value 50, or the end of d. */
  function Crossing(d: string, start: nat, j: nat): (k: nat)
    requires AllDigits(d) && start <= j <= |d|
    requires BelowFifty(d, start, j)
    ensures j <= k <= |d|
    ensures BelowFifty(d, start, k)
    ensures k < |d| ==> BlockValue(d, start, k) >= 50
    decreases |d| - j
  {
    if j == |d| || BlockValue(d, start, j) >= 50 then j else Crossing(d, start, j + 1)
  }

  /**
   * Where the block that begins at start ends. It takes digits until its value reaches 50; when a
   * zero follows, it gives back one digit, or two if its own last digit is a zero as well.
   */
  function BlockEnd(d: string, start: nat): (e: nat)
    requires AllDigits(d) && start < |d|
    ensures start <= e <= |d|
  {
    var k := Crossing(d, start, start);
    if k >= |d| - 1 then |d|
    else if d[k + 1] != '0' then k + 1
    else if d[k] == '0' then k - 1
    else k
  }

  /** The encoding of the digits from start on. An empty block is the int("") that raises. */
  function EncodeFrom(d: string, start: nat): Result<string>
    requires AllDigits(d) && start <= |d|
    decreases |d| - start
  {
    if start == |d| then Ok("")
    else
      var e := BlockEnd(d, start);
      if e == start then Err(ValueError)
      else
        match EncodeFrom(d, e)
        case Err(x) => Err(x)
        case Ok(rest) => Ok(EncryptBlock(d[start..e]) + rest)
  }

  function EncryptBlock(b: string): string
    requires AllDigits(b)
  {
    Show(Encrypt(Value(b))) + "-"
  }

  function Encode(s: seq<CodePoint>): Result<string> {
    EncodeFrom(PreCode(s), 0)
  }

  /** Position of the first dash of c at or after i, or the length of c. */
  function NextDash(c: string, i: nat): (k: nat)
    requires i <= |c|
    ensures i <= k <= |c|
    decreases |c| - i
  {
    if i == |c| || c[i] == '-' then i else NextDash(c, i + 1)
  }

  predicate IsCipherText(c: string) {
    forall i :: 0 <= i < |c| ==> IsDigit(c[i]) || c[i] == '-'
  }

  lemma {:induction false} NoDashBefore(c: string, i: nat)
    requires i <= |c|
    ensures forall j :: i <= j < NextDash(c, i) ==> c[j] != '-'
    ensures NextDash(c, i) < |c| ==> c[NextDash(c, i)] == '-'
    decreases |c| - i
  {
    if i < |c| && c[i] != '-' {
      NoDashBefore(c, i + 1);
    }
  }

  lemma PieceIsDigits(c: string, i: nat)
    requires IsCipherText(c) && i <= |c|
    ensures AllDigits(c[i..NextDash(c, i)])
  {
    NoDashBefore(c, i);
  }

  /** Every piece from i on is a number that a double can reduce exactly. */
  predicate PiecesInRange(c: string, i: nat)
    requires IsCipherText(c) && i <= |c|
    decreases |c| - i
  {
    var k := NextDash(c, i);
    PieceIsDigits(c, i);
    k < |c| ==> Value(c[i..k]) < TWO_33 && PiecesInRange(c, k + 1)
  }

  function DecodePiece(p: string): (r: Result<string>)
    ensures r.Ok? ==> AllDigits(r.value)
  {
    if p == "00" then Ok("00")
    else if p == "" || !AllDigits(p) then Err(ValueError)
    else Ok(Show(Decrypt(Value(p))))
  }

  /** The digits encoded by the dash-terminated pieces from i on; text after the last dash is ignored. */
  function DecodeFrom(c: string, i: nat): (r: Result<string>)
    requires i <= |c|
    ensures r.Ok? ==> AllDigits(r.value)
    decreases |c| - i
  {
    var k := NextDash(c, i);
    if k == |c| then Ok("")
    else
      match DecodePiece(c[i..k])
      case Err(x) => Err(x)
      case Ok(head) =>
        match DecodeFrom(c, k + 1)
        case Err(x) => Err(x)
        case Ok(tail) => Ok(head + tail)
  }

  /** Groups of four digits from i on, back to characters; up to three left-over digits are dropped. */
  function Characters(d: string, i: nat): Result<seq<int>>
    requires AllDigits(d) && i <= |d|
    decreases |d| - i
  {
    if i + 4 > |d| then Ok([])
    else
      var x := Value(d[i..i + 4]) - 1000;
      if x < 0 then Err(ValueError)
      else
        match Characters(d, i + 4)
        case Err(e) => Err(e)
        case Ok(rest) => Ok([x] + rest)
  }

  function Decode(c: string): Result<seq<int>> {
    match DecodeFrom(c, 0)
    case Err(x) => Err(x)
    case Ok(d) => Characters(d, 0)
  }
}

// The cipher text itself: which text the encoder writes and how the decoder reads any text.

module CodecText {
  import opened Outcomes
  import opened Numerals
  import opened Fermat
  import opened Rsa
  import opened CodecSpec
  import opened CodecRoundTrip

  /** Encryption is cubing modulo 436141. */
  lemma EncryptIsCube(m: nat)
    ensures Encrypt(m) == m * m * m % 436141
  {
    assert Pow(m, 1) == m;
    assert Pow(m, 2) == m * m;
    assert Pow(m, 3) == m * (m * m) == m * m * m;
  }

  /** Decryption finds the one cube root below the modulus. */
  lemma DecryptIsCubeRootExactly(c: nat, m: nat)
    requires c < 436141 && m < 436141
    ensures Decrypt(c) == m <==> m * m * m % 436141 == c
  {
    hide Pow;
    KeyIsPrime();
    RsaInverse(c, PRIMOP, PRIMOQ, NUMD, NUME, 1484, 1172);
    EncryptIsCube(Decrypt(c));
    EncryptIsCube(m);
    DecryptInvertsEncrypt(m);
  }

  // ----- What the encoder writes -----

  predicate AreBlocks(blocks: seq<string>) {
    forall k :: 0 <= k < |blocks| ==> AllDigits(blocks[k]) && blocks[k] != ""
  }

  function Concat(blocks: seq<string>): string {
    if blocks == [] then "" else blocks[0] + Concat(blocks[1..])
  }

  /** The numerals of the blocks' cubes modulo 436141, each followed by a dash. */
  function CubesOf(blocks: seq<string>): string
    requires AreBlocks(blocks)
  {
    if blocks == [] then ""
    else
      var v := Value(blocks[0]);
      Show(v * v * v % 436141) + "-" + CubesOf(blocks[1..])
  }

  lemma EncryptBlockIsCube(b: string)
    requires AllDigits(b)
    ensures var v := Value(b);
      EncryptBlock(b) == Show(v * v * v % 436141) + "-"
  {
    EncryptIsCube(Value(b));
  }

  lemma {:induction false} EncodedBlocks(d: string, start: nat) returns (blocks: seq<string>)
    requires AllDigits(d) && start <= |d| && EncodeFrom(d, start).Ok?
    ensures AreBlocks(blocks) && Concat(blocks) == d[start..]
    ensures forall k :: 0 <= k < |blocks| ==> Value(blocks[k]) <= 499
    ensures EncodeFrom(d, start) == Ok(CubesOf(blocks))
    decreases |d| - start
  {
    hide Value, Show, EncryptBlock, BlockEnd;
    if start == |d| {
      blocks := [];
    } else {
      var e := BlockEnd(d, start);
      var b := d[start..e];
      BlockIsSmall(d, start);
      EncryptBlockIsCube(b);
      var rest := EncodedBlocks(d, e);
      blocks := [b] + rest;
      assert blocks[1..] == rest;
      assert d[start..] == b + d[e..];
    }
  }

  /**
   * Whatever is encoded without raising: the text lists the cubes of consecutive blocks of the
   * password's digits, none of them empty or above 499.
   */
  lemma EncodingIsCubes(s: seq<CodePoint>) returns (blocks: seq<string>)
    requires Encode(s).Ok?
    ensures AreBlocks(blocks) && Concat(blocks) == PreCode(s)
    ensures forall k :: 0 <= k < |blocks| ==> Value(blocks[k]) <= 499
    ensures Encode(s) == Ok(CubesOf(blocks))
  {
    blocks := EncodedBlocks(PreCode(s), 0);
    assert PreCode(s)[0..] == PreCode(s);
  }

  /**
   * How long the next block is: two digits from 5 on and three below, all that is left if that is
   * less; and one or two digits less when a zero follows, so that no block begins with it.
   */
  function BlockLength(d: string): (n: nat)
    requires d != ""
    ensures n <= |d|
  {
    var n := if d[0] >= '5' then 2 else 3;
    if n >= |d| then |d|
    else if d[n] != '0' then n
    else if d[n - 1] != '0' then n - 1
    else n - 2
  }

  /** The digits cut into blocks of these lengths, up to a block without digits if there is one. */
  function Split(d: string): (blocks: seq<string>)
    requires AllDigits(d)
    ensures AreBlocks(blocks)
  {
    if d == "" || BlockLength(d) == 0 then [] else [d[..BlockLength(d)]] + Split(d[BlockLength(d)..])
  }

  lemma BlockEndIsLength(d: string, start: nat)
    requires AllDigits(d) && start < |d| && d[start] != '0'
    ensures BlockEnd(d, start) == start + BlockLength(d[start..])
  {
    CrossingCases(d, start);
    var t := d[start..];
    assert forall i :: 0 <= i < |t| ==> t[i] == d[start + i];
  }

  lemma {:induction false} CleanDigitsText(d: string, start: nat)
    requires AllDigits(d) && start <= |d| && (start < |d| ==> d[start] != '0')
    requires forall k :: start <= k < |d| ==> !BadAt(d, k)
    ensures EncodeFrom(d, start) == Ok(CubesOf(Split(d[start..])))
    decreases |d| - start
  {
    hide Value, Show, EncryptBlock, BlockEnd, BlockLength, BadAt;
    if start < |d| {
      var e, t := BlockEnd(d, start), d[start..];
      GoodBlock(d, start);
      BlockEndIsLength(d, start);
      EncryptBlockIsCube(d[start..e]);
      CleanDigitsText(d, e);
      assert t[..e - start] == d[start..e] && t[e - start..] == d[e..];
      var blocks := [d[start..e]] + Split(d[e..]);
      assert Split(t) == blocks && blocks[1..] == Split(d[e..]);
    }
  }

  /** The exact text of a password of safe characters. */
  lemma SafeTextIsCubes(s: seq<CodePoint>)
    requires forall j :: 0 <= j < |s| ==> Safe(s[j])
    ensures Encode(s) == Ok(CubesOf(Split(PreCode(s))))
  {
    hide PreCode, Encode, Safe, BadAt;
    if s != [] {
      FirstDigitIsNotZero(s);
    } else {
      NothingToEncode();
    }
    SafeDigitsAreClean(s);
    CleanDigitsText(PreCode(s), 0);
    assert PreCode(s)[0..] == PreCode(s);
    EncodeUnfolds(s);
  }

  lemma NothingToEncode()
    ensures PreCode([]) == ""
  {
  }

  lemma EncodeUnfolds(s: seq<CodePoint>)
    ensures Encode(s) == EncodeFrom(PreCode(s), 0)
  {
  }

  lemma NumeralsOfLetterA()
    ensures Value("109") == 109 && Value("7") == 7 && Show(422747) == "422747" && Show(343) == "343"
    ensures Show(1097) == "1097"
  {
    assert Show(4) == "4" && Show(42) == "42" && Show(422) == "422" && Show(4227) == "4227";
    assert Show(42274) == "42274" && Show(422747) == "422747";
    assert Show(3) == "3" && Show(34) == "34" && Show(343) == "343";
    assert Show(1) == "1" && Show(10) == "10" && Show(109) == "109" && Show(1097) == "1097" && Show(7) == "7";
    ValueOfShow(109);
    ValueOfShow(7);
  }

  lemma SplitOfLetterA()
    ensures Split("1097") == ["109", "7"]
  {
    var d, t := "1097", "7";
    assert BlockLength(t) == 1 && t[..1] == "7" && t[1..] == "";
    assert Split(t) == ["7"] + Split("") == ["7"];
    assert BlockLength(d) == 3 && d[..3] == "109" && d[3..] == "7";
  }

  lemma CubesOfLetterA()
    ensures AreBlocks(["109", "7"]) && CubesOf(["109", "7"]) == "422747-343-"
  {
    NumeralsOfLetterA();
    hide Value, Show;
    assert ["109", "7"][1..] == ["7"] && ["7"][1..] == [];
    assert CubesOf(["7"]) == "343" + "-" + CubesOf([]) == "343-";
    assert CubesOf(["109", "7"]) == "422747" + "-" + CubesOf(["7"]);
  }

  /** The letter a, there and back. */
  lemma LetterA()
    ensures Encode([97]) == Ok("422747-343-") && Decode("422747-343-") == Ok([97])
  {
    hide Encode, Decode, PreCode, Split, CubesOf, Show, Value;
    var s: seq<CodePoint> := [97];
    assert Safe(s[0]);
    SafeTextIsCubes(s);
    SafeStringsRoundTrip(s);
    OneCharacter(s);
    NumeralsOfLetterA();
    SplitOfLetterA();
    CubesOfLetterA();
  }

  lemma OneCharacter(s: seq<CodePoint>)
    requires |s| == 1
    ensures PreCode(s) == Show(s[0] as int + 1000)
  {
    hide PreCode, Show;
    PreCodeInSteps(s);
    assert s[..|s| - 1] == [];
    assert "" + Show(s[0] as int + 1000) == Show(s[0] as int + 1000);
  }

  // ----- How the decoder reads a text -----

  /**
   * The first piece of any text: the literal 00 stays, another numeral below the modulus becomes the
   * numeral of its cube root.
   */
  lemma FirstPiece(p: string, rest: string, root: nat)
    requires AllDigits(p) && p != "" && Value(p) < 436141
    requires root < 436141 && root * root * root % 436141 == Value(p)
    ensures DecodeFrom(p + "-" + rest, 0) ==
      match DecodeFrom(rest, 0)
      case Err(x) => Err(x)
      case Ok(tail) => Ok((if p == "00" then "00" else Show(root)) + tail)
  {
    hide Value, Show, DecodeFrom, Decrypt;
    DecryptIsCubeRootExactly(Value(p), root);
    DecodeFirst(p, rest);
  }

  /** A piece without digits raises. */
  lemma EmptyPieceRaises(rest: string)
    ensures Decode("-" + rest) == Err(ValueError)
  {
    DecodeFirst("", rest);
    assert "" + "-" + rest == "-" + rest;
  }

  lemma {:induction false} NoDashAhead(tail: string, i: nat)
    requires '-' !in tail && i <= |tail|
    ensures NextDash(tail, i) == |tail|
    decreases |tail| - i
  {
    if i < |tail| {
      NoDashAhead(tail, i + 1);
    }
  }

  lemma {:induction false} DashInFront(c: string, tail: string, i: nat)
    requires i <= |c| && NextDash(c, i) < |c|
    ensures NextDash(c + tail, i) == NextDash(c, i)
    decreases |c| - i
  {
    if c[i] != '-' {
      DashInFront(c, tail, i + 1);
    }
  }

  /** What follows the last dash is ignored. */
  lemma {:induction false} TextAfterLastDashIsIgnored(c: string, tail: string, i: nat)
    requires i <= |c| && (c == "" || c[|c| - 1] == '-') && '-' !in tail
    ensures DecodeFrom(c + tail, i) == DecodeFrom(c, i)
    decreases |c| - i
  {
    hide DecodePiece;
    if i == |c| {
      NoDashAhead(tail, 0);
      DashShift(c, tail, 0);
    } else {
      NoDashBefore(c, i);
      var k := NextDash(c, i);
      DashInFront(c, tail, i);
      assert (c + tail)[i..k] == c[i..k];
      TextAfterLastDashIsIgnored(c, tail, k + 1);
    }
  }

  lemma {:induction false} CharactersShift(pre: string, d: string, i: nat)
    requires AllDigits(pre) && AllDigits(d) && i <= |d|
    ensures Characters(pre + d, |pre| + i) == Characters(d, i)
    decreases |d| - i
  {
    hide Value;
    if i + 4 <= |d| {
      assert (pre + d)[|pre| + i..|pre| + i + 4] == d[i..i + 4];
      CharactersShift(pre, d, i + 4);
    }
  }

  /** Four digits are the code of a character plus 1000; a smaller number raises. */
  lemma FirstGroup(g: string, rest: string)
    requires AllDigits(g) && |g| == 4 && AllDigits(rest)
    ensures Characters(g + rest, 0) ==
      if Value(g) < 1000 then Err(ValueError)
      else
        match Characters(rest, 0)
        case Err(x) => Err(x)
        case Ok(tail) => Ok([Value(g) - 1000] + tail)
  {
    hide Value;
    assert (g + rest)[0..4] == g;
    CharactersShift(g, rest, 0);
  }

  /** Up to three left-over digits are dropped. */
  lemma LeftOverDigitsAreDropped(d: string)
    requires AllDigits(d) && |d| < 4
    ensures Characters(d, 0) == Ok([])
  {
  }
}

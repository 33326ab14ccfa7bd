// The codec's own loops, proved to compute what CodecSpec describes.

module CriptografiaSenha {
  import opened Outcomes
  import opened Numerals
  import opened Divisibility
  import opened Fermat
  import opened Rsa
  import opened DoubleDivision
  import opened CodecSpec

  lemma ProductBound(valor: int, base: int, nro: int)
    requires 0 <= valor < nro && 0 <= base < TWO_33
    ensures 0 <= valor * base < TWO_33 * nro
  {
    ProductIsMonotone(valor, base, 0, 0);
    ProductIsMonotone(TWO_33, nro, base, valor + 1);
    if base == 0 {
      assert TWO_33 * nro > 0;
    }
  }

  lemma PowerStep(base: int, i: nat, nro: int, valor: int)
    requires nro > 0 && valor == Pow(base, i) % nro
    ensures (valor * base) % nro == Pow(base, i + 1) % nro
  {
    var x, y := Pow(base, i), Pow(base, i + 1);
    ModDiffers(x, nro);
    DividesProduct(nro, x - valor, base);
    assert (x - valor) * base == y - valor * base;
    SameResidue(y, valor * base, nro);
  }

  /** Modular power by repeated multiplication, every reduction going through a double. */
  method ElevarMod(base: int, expoente: nat, nro: int, div: (int, int) -> real) returns (valor: int)
    requires Faithful(div) && 1 < nro <= TWO_20 && 0 <= base < TWO_33
    ensures valor == Pow(base, expoente) % nro
  {
    var index := 0;
    valor := 1;
    while index != expoente
      invariant 0 <= index <= expoente
      invariant 0 <= valor < nro && valor == Pow(base, index) % nro
    {
      ProductBound(valor, base, nro);
      PowerStep(base, index, nro, valor);
      valor := valor * base;
      valor := ModReal(valor, nro, div);
      index := index + 1;
    }
  }

  /** The text written so far, followed by the encoding of the digits from start on, is the encoding. */
  ghost predicate Completes(d: string, saida: string, start: nat)
    requires AllDigits(d) && start <= |d|
  {
    match EncodeFrom(d, start)
    case Err(x) => EncodeFrom(d, 0) == Err(x)
    case Ok(rest) => EncodeFrom(d, 0) == Ok(saida + rest)
  }

  /** The encoder's state between two iterations: bloco holds the digits taken since start. */
  ghost predicate Scanning(d: string, saida: string, bloco: string, start: nat, index: nat)
    requires AllDigits(d)
  {
    && start <= index <= |d|
    && bloco == d[start..index]
    && (start < index ==> index < |d|)
    && BelowFifty(d, start, index)
    && Completes(d, saida, start)
  }

  lemma {:induction false} CrossingIs(d: string, start: nat, j: nat, k: nat)
    requires AllDigits(d) && start <= j <= k <= |d|
    requires BelowFifty(d, start, j) && BelowFifty(d, start, k)
    requires k < |d| ==> BlockValue(d, start, k) >= 50
    ensures Crossing(d, start, j) == k
    decreases k - j
  {
    if j < k {
      BelowFiftyPrefix(d, start, j + 1, k);
      CrossingIs(d, start, j + 1, k);
    }
  }

  /** Where the block ends, seen from the digit at which the scan stops. */
  lemma EndOfBlock(d: string, start: nat, index: nat)
    requires AllDigits(d) && start <= index < |d| && BelowFifty(d, start, index)
    requires BlockValue(d, start, index) >= 50 || index == |d| - 1
    ensures BlockEnd(d, start) ==
      if index == |d| - 1 || d[index + 1] != '0' then index + 1
      else if d[index] == '0' then index - 1
      else index
  {
    CrossingIs(d, start, start, if BlockValue(d, start, index) >= 50 then index else |d|);
  }

  lemma Emit(d: string, saida: string, start: nat, e: nat, piece: string)
    requires AllDigits(d) && start < |d| && Completes(d, saida, start)
    requires e == BlockEnd(d, start) > start
    requires piece == EncryptBlock(d[start..e])
    ensures Completes(d, saida + piece, e)
  {
    if EncodeFrom(d, e).Ok? {
      var rest := EncodeFrom(d, e).value;
      assert saida + (piece + rest) == (saida + piece) + rest;
    }
  }

  lemma Begin(d: string)
    requires AllDigits(d)
    ensures Scanning(d, "", "", 0, 0)
  {
    var all := EncodeFrom(d, 0);
    assert all.Ok? ==> "" + all.value == all.value;
  }

  lemma Finish(d: string, saida: string, bloco: string, start: nat, index: nat)
    requires AllDigits(d) && Scanning(d, saida, bloco, start, index) && index == |d|
    ensures EncodeFrom(d, 0) == Ok(saida)
  {
    assert saida + "" == saida;
  }

  method PreCodificar(codigo: seq<CodePoint>) returns (preCod: string)
    ensures preCod == PreCode(codigo)
  {
    preCod := "";
    for k := 0 to |codigo|
      invariant preCod == PreCode(codigo[..k])
    {
      assert codigo[..k + 1][..k] == codigo[..k];
      preCod := preCod + Show(codigo[k] as int + 1000);
    }
    assert codigo[..|codigo|] == codigo;
  }

  /** One more digit in the block, and its value: below 500, because it was below 50. */
  method Acumular(bloco: string, preCod: string, index: nat, ghost saida: string, ghost start: nat)
    returns (maior: string, intBloco: nat)
    requires AllDigits(preCod) && Scanning(preCod, saida, bloco, start, index) && index < |preCod|
    ensures maior == preCod[start..index + 1]
    ensures intBloco == BlockValue(preCod, start, index) <= 499
  {
    maior := bloco + [preCod[index]];
    BlockValueIsValue(preCod, start, index);
    intBloco := Value(maior);
  }

  lemma Advance(d: string, saida: string, bloco: string, start: nat, index: nat)
    requires AllDigits(d) && index < |d| - 1 && start <= index && bloco == d[start..index + 1]
    requires BelowFifty(d, start, index) && Completes(d, saida, start)
    requires BlockValue(d, start, index) < 50
    ensures Scanning(d, saida, bloco, start, index + 1)
  {
  }

  /** Encrypts the block of the digits from start to e and appends its piece. */
  method Emitir(saida: string, bloco: string, div: (int, int) -> real,
                ghost d: string, ghost start: nat, ghost index: nat, ghost e: nat)
    returns (nova: string)
    requires Faithful(div) && AllDigits(d) && start < e <= index + 1 <= |d|
    requires BelowFifty(d, start, index) && BlockValue(d, start, index) <= 499
    requires Completes(d, saida, start)
    requires e == BlockEnd(d, start) && bloco == d[start..e]
    ensures Scanning(d, nova, "", e, e)
  {
    hide BlockEnd, Completes, Value, Show, EncodeFrom;
    if e <= index {
      BelowFiftyPrefix(d, start, e, index);
    }
    BlockValueIsValue(d, start, e - 1);
    var intBloco := Value(bloco);
    var elevMod := ElevarMod(intBloco, NUME, PRIMOP * PRIMOQ, div);
    var cifrado := Show(elevMod);
    Emit(d, saida, start, e, cifrado + "-");
    nova := saida + (cifrado + "-");
  }

  /** The block may end with the digit at index: no zero follows, or nothing does. */
  method Fechar(preCod: string, saida: string, bloco: string, index: nat, div: (int, int) -> real, ghost start: nat)
    returns (nova: string)
    requires Faithful(div) && AllDigits(preCod) && start <= index < |preCod|
    requires BelowFifty(preCod, start, index) && BlockValue(preCod, start, index) <= 499
    requires Completes(preCod, saida, start) && bloco == preCod[start..index + 1]
    requires index == |preCod| - 1 || (BlockValue(preCod, start, index) >= 50 && preCod[index + 1] != '0')
    ensures Scanning(preCod, nova, "", index + 1, index + 1)
  {
    EndOfBlock(preCod, start, index);
    nova := Emitir(saida, bloco, div, preCod, start, index, index + 1);
  }

  lemma OneDigitIsBelowFifty(d: string, start: nat)
    requires AllDigits(d) && start < |d|
    ensures BlockValue(d, start, start) < 50
  {
  }

  lemma EmptyBlockRaises(d: string, saida: string, start: nat)
    requires AllDigits(d) && start < |d| && Completes(d, saida, start)
    ensures BlockEnd(d, start) == start ==> EncodeFrom(d, 0) == Err(ValueError)
  {
  }

  /**
   * A zero follows a block that has reached 50: give back its last digit, or its last two when the
   * last one is a zero too. Giving back everything is the int("") that raises.
   */
  method Recuar(preCod: string, saida: string, bloco: string, index: nat, div: (int, int) -> real, ghost start: nat)
    returns (falha: bool, nova: string, novoIndex: nat)
    requires Faithful(div) && AllDigits(preCod) && start <= index && index + 1 < |preCod|
    requires BelowFifty(preCod, start, index) && 50 <= BlockValue(preCod, start, index) <= 499
    requires Completes(preCod, saida, start)
    requires preCod[index + 1] == '0' && bloco == preCod[start..index + 1]
    ensures falha ==> EncodeFrom(preCod, 0) == Err(ValueError)
    ensures !falha ==> start < novoIndex <= index && Scanning(preCod, nova, "", novoIndex, novoIndex)
  {
    hide BelowFifty, BlockValue, BlockEnd, EncodeFrom, Completes;
    falha, nova, novoIndex := false, saida, index;
    EndOfBlock(preCod, start, index);
    OneDigitIsBelowFifty(preCod, start);
    EmptyBlockRaises(preCod, saida, start);
    if preCod[index] == '0' {
      var menor := bloco[0..|bloco| - 2];
      if menor == "" {
        falha := true;
        return;
      }
      nova := Emitir(saida, menor, div, preCod, start, index, index - 1);
      novoIndex := index - 1;
    } else {
      nova := Emitir(saida, bloco[0..|bloco| - 1], div, preCod, start, index, index);
    }
  }

  method Codificar(codigo: seq<CodePoint>, div: (int, int) -> real) returns (r: Result<string>)
    requires Faithful(div)
    ensures r == Encode(codigo)
  {
    hide Completes, BelowFifty, BlockValue;
    var preCod := PreCodificar(codigo);
    var bloco, saida := "", "";
    var index: nat := 0;
    ghost var start: nat := 0;
    Begin(preCod);
    while index <= |preCod| - 1
      invariant Scanning(preCod, saida, bloco, start, index)
      decreases |preCod| - start, |preCod| - index
    {
      var intBloco;
      bloco, intBloco := Acumular(bloco, preCod, index, saida, start);
      if intBloco >= 50 && intBloco < PRIMOP * PRIMOQ && (index == |preCod| - 1 || preCod[index + 1] != '0') {
        saida := Fechar(preCod, saida, bloco, index, div, start);
        index := index + 1;
        bloco := "";
        start := index;
      } else if intBloco >= 50 && intBloco < PRIMOP * PRIMOQ && preCod[index + 1] == '0' {
        var falha;
        falha, saida, index := Recuar(preCod, saida, bloco, index, div, start);
        if falha {
          return Err(ValueError);
        }
        bloco := "";
        start := index;
      } else if intBloco < 50 && index == |preCod| - 1 {
        saida := Fechar(preCod, saida, bloco, index, div, start);
        index := index + 1;
        bloco := "";
        start := index;
      } else if intBloco < 50 && preCod[index + 1] == '0' {
        if intBloco * 10 >= PRIMOP * PRIMOQ {
          assert false; // a block below 50 never overflows with one more zero
        } else {
          Advance(preCod, saida, bloco, start, index);
          index := index + 1;
        }
      } else if intBloco >= PRIMOP * PRIMOQ {
        assert false; // a block is cut long before it reaches the modulus
      } else {
        Advance(preCod, saida, bloco, start, index);
        index := index + 1;
      }
    }
    Finish(preCod, saida, bloco, start, index);
    return Ok(saida);
  }

  function DashCount(c: string, i: nat): nat
    requires i <= |c|
    decreases |c| - i
  {
    if i == |c| then 0 else (if c[i] == '-' then 1 else 0) + DashCount(c, i + 1)
  }

  method QtdBlocos(texto: string) returns (qtd: nat)
    ensures qtd == DashCount(texto, 0)
  {
    qtd := 0;
    for k := 0 to |texto|
      invariant qtd + DashCount(texto, k) == DashCount(texto, 0)
    {
      qtd := if texto[k] == '-' then qtd + 1 else qtd;
    }
  }

  /** Passing the next dash leaves one dash less; without dashes there is no next one. */
  lemma {:induction false} DashesLeft(c: string, i: nat)
    requires i <= |c|
    ensures var k := NextDash(c, i);
      DashCount(c, i) == if k == |c| then 0 else 1 + DashCount(c, k + 1)
    decreases |c| - i
  {
    if i < |c| && c[i] != '-' {
      DashesLeft(c, i + 1);
    }
  }

  /** The digits decoded so far, followed by the decoding of the text from i on. */
  ghost predicate Decoding(c: string, preCod: string, i: nat)
    requires i <= |c|
  {
    match DecodeFrom(c, i)
    case Err(x) => DecodeFrom(c, 0) == Err(x)
    case Ok(rest) => DecodeFrom(c, 0) == Ok(preCod + rest)
  }

  lemma BeginDecoding(c: string)
    ensures Decoding(c, "", 0)
  {
    var all := DecodeFrom(c, 0);
    assert all.Ok? ==> "" + all.value == all.value;
  }

  lemma NextPiece(c: string, preCod: string, i: nat, k: nat, piece: string)
    requires i <= |c| && k == NextDash(c, i) < |c|
    requires Decoding(c, preCod, i) && DecodePiece(c[i..k]) == Ok(piece)
    ensures Decoding(c, preCod + piece, k + 1)
  {
    hide DecodePiece;
    if DecodeFrom(c, k + 1).Ok? {
      var tail := DecodeFrom(c, k + 1).value;
      assert preCod + (piece + tail) == (preCod + piece) + tail;
    }
  }

  lemma DecodingDone(c: string, preCod: string, i: nat)
    requires i <= |c| && NextDash(c, i) == |c| && Decoding(c, preCod, i)
    ensures DecodeFrom(c, 0) == Ok(preCod)
  {
    assert preCod + "" == preCod;
  }

  /** Reads up to the next dash. */
  method LerBloco(codigo: string, indexJ: nat) returns (bloco: string, novo: nat)
    requires indexJ <= |codigo| && NextDash(codigo, indexJ) < |codigo|
    ensures novo == NextDash(codigo, indexJ) && bloco == codigo[indexJ..novo]
  {
    NoDashBefore(codigo, indexJ);
    novo := indexJ;
    bloco := "";
    while codigo[novo] != '-'
      invariant indexJ <= novo <= NextDash(codigo, indexJ)
      invariant bloco == codigo[indexJ..novo]
      decreases NextDash(codigo, indexJ) - novo
    {
      bloco := bloco + [codigo[novo]];
      novo := novo + 1;
    }
  }

  method DecifrarBloco(bloco: string, div: (int, int) -> real) returns (r: Result<string>)
    requires Faithful(div) && AllDigits(bloco) && Value(bloco) < TWO_33
    ensures r == DecodePiece(bloco)
  {
    if bloco != "00" {
      if bloco == "" {
        return Err(ValueError);
      }
      var intBloco := Value(bloco);
      var elevMod := ElevarMod(intBloco, NUMD, PRIMOP * PRIMOQ, div);
      r := Ok(Show(elevMod));
    } else {
      r := Ok("00");
    }
  }

  /** While dashes are left there is a next piece, and it is in range. */
  lemma PieceAhead(c: string, i: nat)
    requires IsCipherText(c) && i <= |c| && PiecesInRange(c, i) && DashCount(c, i) > 0
    ensures var k := NextDash(c, i);
      && k < |c| && AllDigits(c[i..k]) && Value(c[i..k]) < TWO_33
      && PiecesInRange(c, k + 1) && DashCount(c, k + 1) == DashCount(c, i) - 1
  {
    DashesLeft(c, i);
    PieceIsDigits(c, i);
  }

  lemma PieceFails(c: string, preCod: string, i: nat)
    requires i <= |c| && NextDash(c, i) < |c| && Decoding(c, preCod, i)
    requires DecodePiece(c[i..NextDash(c, i)]).Err?
    ensures DecodeFrom(c, 0) == Err(ValueError)
  {
  }

  /** The first loop of the decoder: pieces to digits. */
  method DecifrarBlocos(codigo: string, div: (int, int) -> real) returns (r: Result<string>)
    requires Faithful(div) && IsCipherText(codigo) && PiecesInRange(codigo, 0)
    ensures r == DecodeFrom(codigo, 0)
  {
    var qtdBloco := QtdBlocos(codigo);
    var indexI: nat := 1;
    var indexJ: nat := 0;
    var preCod := "";
    BeginDecoding(codigo);
    while indexI <= qtdBloco
      invariant indexI <= qtdBloco + 1 && indexJ <= |codigo|
      invariant DashCount(codigo, indexJ) == qtdBloco + 1 - indexI
      invariant PiecesInRange(codigo, indexJ)
      invariant Decoding(codigo, preCod, indexJ)
    {
      PieceAhead(codigo, indexJ);
      var bloco, novo := LerBloco(codigo, indexJ);
      var digitos := DecifrarBloco(bloco, div);
      if digitos.Err? {
        PieceFails(codigo, preCod, indexJ);
        return Err(ValueError);
      }
      NextPiece(codigo, preCod, indexJ, novo, digitos.value);
      preCod := preCod + digitos.value;
      indexJ := novo + 1;
      indexI := indexI + 1;
    }
    DashesLeft(codigo, indexJ);
    DecodingDone(codigo, preCod, indexJ);
    r := Ok(preCod);
  }

  method Descodificar(codigo: string, div: (int, int) -> real) returns (r: Result<seq<int>>)
    requires Faithful(div) && IsCipherText(codigo) && PiecesInRange(codigo, 0)
    ensures r == Decode(codigo)
  {
    var preCod := DecifrarBlocos(codigo, div);
    if preCod.Err? {
      return Err(preCod.error);
    }
    r := Agrupar(preCod.value);
  }

  /** The characters found so far, followed by those of the digits from i on. */
  ghost predicate Grouping(d: string, saida: seq<int>, i: nat)
    requires AllDigits(d) && i <= |d|
  {
    match Characters(d, i)
    case Err(x) => Characters(d, 0) == Err(x)
    case Ok(rest) => Characters(d, 0) == Ok(saida + rest)
  }

  lemma CharactersInSteps(d: string, i: nat)
    requires AllDigits(d) && i + 4 <= |d|
    ensures var x := Value(d[i..i + 4]) - 1000;
      Characters(d, i) ==
      if x < 0 then Err(ValueError)
      else
        match Characters(d, i + 4)
        case Err(e) => Err(e)
        case Ok(rest) => Ok([x] + rest)
  {
    hide Value;
  }

  lemma NextGroup(d: string, saida: seq<int>, i: nat)
    requires AllDigits(d) && i + 4 <= |d| && Grouping(d, saida, i)
    ensures var x := Value(d[i..i + 4]) - 1000;
      if x < 0 then Characters(d, 0) == Err(ValueError)
      else Grouping(d, saida + [x], i + 4)
  {
    hide Characters, Value;
    CharactersInSteps(d, i);
    var x := Value(d[i..i + 4]) - 1000;
    var tail := Characters(d, i + 4);
    if x >= 0 && tail.Ok? {
      assert saida + ([x] + tail.value) == (saida + [x]) + tail.value;
    }
  }

  lemma BeginGrouping(d: string)
    requires AllDigits(d)
    ensures Grouping(d, [], 0)
  {
    var all := Characters(d, 0);
    assert all.Ok? ==> [] + all.value == all.value;
  }

  lemma GroupingDone(d: string, saida: seq<int>, i: nat)
    requires AllDigits(d) && i <= |d| < i + 4 && Grouping(d, saida, i)
    ensures Characters(d, 0) == Ok(saida)
  {
    assert saida + [] == saida;
  }

  method Agrupar(preCod: string) returns (r: Result<seq<int>>)
    requires AllDigits(preCod)
    ensures r == Characters(preCod, 0)
  {
    hide Grouping, Characters;
    var bloco := "";
    var saida: seq<int> := [];
    var indexI: nat := 0;
    ghost var done: nat := 0;
    BeginGrouping(preCod);
    while indexI <= |preCod| - 1
      invariant done <= indexI <= |preCod|
      invariant done % 4 == 0 && indexI - done < 4
      invariant bloco == preCod[done..indexI]
      invariant Grouping(preCod, saida, done)
    {
      bloco := bloco + [preCod[indexI]];
      assert bloco == preCod[done..indexI + 1];
      if (indexI + 1) % 4 == 0 {
        NextGroup(preCod, saida, done);
        var codigo := Value(bloco) - 1000;
        if codigo < 0 {
          return Err(ValueError);
        }
        saida := saida + [codigo];
        bloco := "";
        done := indexI + 1;
      }
      indexI := indexI + 1;
    }
    GroupingDone(preCod, saida, done);
    return Ok(saida);
  }
}

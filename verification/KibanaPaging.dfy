// The paging loop of the Kibana runner.

module KibanaPaging {

  /** One request: the offset and the number of hits asked for. */
  datatype Window = Window(start: int, size: int)

  /** The windows cover [0, limit) one after the other, without gap, overlap or empty request. */
  ghost predicate Tiles(windows: seq<Window>, limit: int) {
    && windows != [] && windows[0].start == 0
    && (forall i :: 0 <= i < |windows| ==> windows[i].size >= 1)
    && (forall i :: 0 <= i < |windows| - 1 ==> windows[i].start + windows[i].size == windows[i + 1].start)
    && windows[|windows| - 1].start + windows[|windows| - 1].size == limit
  }

  /** The offset after n turns of the loop. */
  function OffsetAfter(size: int, n: nat): int {
    if n == 0 then 0 else OffsetAfter(size, n - 1) + size
  }

  /** The loop breaks at the end of its n-th turn. */
  predicate BreaksAfter(size: int, limit: int, n: nat) {
    n >= 1 && OffsetAfter(size, n) >= limit
  }

  /** The window asked for in turn n: a whole page, or what is left of the limit. */
  function WindowAt(size: int, limit: int, n: nat): Window {
    var from := OffsetAfter(size, n);
    Window(from, if limit >= from + size then size else limit - from)
  }

  /** The requests of one query, for the sizes and limits with which the loop ends (LoopEndsExactly). */
  method Pages(size: int, limit: int) returns (windows: seq<Window>)
    requires size >= 1 || size >= limit
    ensures forall i :: 0 <= i < |windows| ==> windows[i] == WindowAt(size, limit, i)
    ensures BreaksAfter(size, limit, |windows|)
    ensures forall n :: 0 <= n < |windows| ==> !BreaksAfter(size, limit, n)
    ensures size >= 1 && limit >= 1 ==> Tiles(windows, limit)
    ensures size < 1 || limit < 1 ==> |windows| == 1
  {
    hide Tiles, OffsetAfter;
    windows := [];
    var from := 0;
    OffsetInSteps(size, 0);
    while true
      invariant from == OffsetAfter(size, |windows|) && (windows == [] ==> from == 0)
      invariant windows != [] ==> size >= 1 && limit > from
      invariant forall i :: 0 <= i < |windows| ==> windows[i] == WindowAt(size, limit, i)
      invariant forall n :: 0 <= n <= |windows| ==> !BreaksAfter(size, limit, n)
      decreases limit - from, if windows == [] then 1 else 0
    {
      var querySize := if limit >= from + size then size else limit - from;
      OffsetInSteps(size, |windows|);
      windows := windows + [Window(from, querySize)];
      from := from + size;
      if from >= limit {
        break;
      }
    }
    if size >= 1 && limit >= 1 {
      WindowsTile(size, limit, windows);
    }
  }

  lemma OffsetInSteps(size: int, n: nat)
    ensures OffsetAfter(size, 0) == 0 && OffsetAfter(size, n + 1) == OffsetAfter(size, n) + size
  {
  }

  lemma WindowsTile(size: int, limit: int, windows: seq<Window>)
    requires size >= 1 && limit >= 1
    requires forall i :: 0 <= i < |windows| ==> windows[i] == WindowAt(size, limit, i)
    requires BreaksAfter(size, limit, |windows|)
    requires forall n :: 0 <= n < |windows| ==> !BreaksAfter(size, limit, n)
    ensures Tiles(windows, limit)
  {
    hide OffsetAfter;
    forall i | 0 <= i < |windows|
      ensures windows[i].start == OffsetAfter(size, i) < limit
      ensures OffsetAfter(size, i + 1) == OffsetAfter(size, i) + size
    {
      OffsetInSteps(size, i);
      assert !BreaksAfter(size, limit, i);
    }
    forall i | 0 <= i < |windows| - 1
      ensures windows[i].start + windows[i].size == windows[i + 1].start
    {
      assert OffsetAfter(size, i + 1) < limit;
    }
    OffsetInSteps(size, 0);
    var last := |windows| - 1;
    assert windows[last].start == OffsetAfter(size, last) && OffsetAfter(size, last + 1) >= limit;
  }

  /**
   * The loop ends exactly for a positive page size, or when its first turn already reaches the limit.
   * Otherwise no turn ever does.
   */
  lemma LoopEndsExactly(size: int, limit: int)
    ensures (exists n :: BreaksAfter(size, limit, n)) <==> size >= 1 || size >= limit
  {
    if size >= limit {
      assert BreaksAfter(size, limit, 1);
    } else if size >= 1 {
      OffsetGrows(size, limit);
      assert BreaksAfter(size, limit, limit);
    } else {
      forall n: nat
        ensures !BreaksAfter(size, limit, n)
      {
        OffsetStaysLow(size, n);
      }
    }
  }

  lemma {:induction false} OffsetGrows(size: int, n: nat)
    requires size >= 1
    ensures OffsetAfter(size, n) >= n
  {
    if n > 0 {
      OffsetGrows(size, n - 1);
    }
  }

  lemma {:induction false} OffsetStaysLow(size: int, n: nat)
    requires size < 1
    ensures n >= 1 ==> OffsetAfter(size, n) <= size
  {
    if n > 1 {
      OffsetStaysLow(size, n - 1);
    }
  }

  /** A page size of zero below a limit of one hundred never ends. */
  lemma ZeroSizeNeverEnds(n: nat)
    ensures !BreaksAfter(0, 100, n)
  {
    OffsetStaysLow(0, n);
  }

  /** Tiling means that every offset below the limit is asked for by exactly one window. */
  lemma TilesCoverOnce(windows: seq<Window>, limit: int, offset: int) returns (k: nat)
    requires Tiles(windows, limit) && 0 <= offset < limit
    ensures k < |windows| && windows[k].start <= offset < windows[k].start + windows[k].size
    ensures forall j :: 0 <= j < |windows| && windows[j].start <= offset < windows[j].start + windows[j].size ==> j == k
  {
    k := 0;
    while windows[k].start + windows[k].size <= offset
      invariant k < |windows| && windows[k].start <= offset
      invariant forall j :: 0 <= j < k ==> windows[j].start + windows[j].size <= offset
      decreases |windows| - k
    {
      k := k + 1;
    }
    StartsIncrease(windows, limit, k);
  }

  lemma {:induction false} StartsIncrease(windows: seq<Window>, limit: int, k: nat)
    requires Tiles(windows, limit) && k < |windows|
    ensures forall j :: k < j < |windows| ==> windows[k].start + windows[k].size <= windows[j].start
    decreases |windows| - k
  {
    if k + 1 < |windows| {
      StartsIncrease(windows, limit, k + 1);
    }
  }
}

/** What heap::malloc decides, stated on the chain in address order: the
    rounded request, which chunk the scan from the hint takes in either scan
    mode, what the chain becomes, what pointer comes back, how many FREE
    chunks the scan counts and where the hint goes. */
module AllocSpec {
  import opened MemoryControlBlock
  import opened ChunkLayout

  /** The request plus one header, rounded up to HEAP_ALIGN (heap::malloc
      adds HEAP_ALIGN - 1 and clears the low bits). */
  function Needed(size: nat): (r: nat)
    ensures r % HEAP_ALIGN == 0
    ensures size + MCB_SIZE <= r < size + MCB_SIZE + HEAP_ALIGN
  {
    var x := size + MCB_SIZE + (HEAP_ALIGN - 1);
    x - x % HEAP_ALIGN
  }

  /** A FREE chunk large enough for the rounded request. */
  predicate Fits(c: Chunk, needed: nat)
  {
    c.state == Free && needed <= c.size
  }

  /** A fitting chunk whose surplus is too small for a header and one
      allocation unit: it is handed out whole, without a split. */
  predicate ExactFit(c: Chunk, needed: nat)
  {
    Fits(c, needed) && c.size <= needed + MCB_SIZE + HEAP_ALIGN
  }

  /** The first fitting chunk at or after `from`, or |L| when there is none. */
  function FirstFit(L: seq<Chunk>, from: nat, needed: nat): (k: nat)
    requires from <= |L|
    ensures from <= k <= |L|
    ensures k < |L| ==> Fits(L[k], needed)
    ensures forall i :: from <= i < k ==> !Fits(L[i], needed)
    decreases |L| - from
  {
    if from == |L| then from
    else if Fits(L[from], needed) then from
    else FirstFit(L, from + 1, needed)
  }

  /** The first exact fit at or after `from`, or |L| when there is none. */
  function FirstExact(L: seq<Chunk>, from: nat, needed: nat): (k: nat)
    requires from <= |L|
    ensures from <= k <= |L|
    ensures k < |L| ==> ExactFit(L[k], needed)
    ensures forall i :: from <= i < k ==> !ExactFit(L[i], needed)
    decreases |L| - from
  {
    if from == |L| then from
    else if ExactFit(L[from], needed) then from
    else FirstExact(L, from + 1, needed)
  }

  /** The outcome of the scan: nothing found, or the chunk taken and whether
      it is split. */
  datatype Pick = NoFit | Take(index: nat, split: bool)

  /** The chunk malloc takes when its scan starts at chunk h. With the full
      scan it prefers the first exact fit anywhere up to the wrap and only
      otherwise splits the first fitting chunk; without it, it takes the
      first fitting chunk, whole when it is an exact fit. */
  function Choose(L: seq<Chunk>, h: nat, needed: nat, fullScan: bool): (p: Pick)
    requires h < |L|
    ensures p.NoFit? <==> forall i :: h <= i < |L| ==> !Fits(L[i], needed)
    ensures p.Take? ==> h <= p.index < |L| && Fits(L[p.index], needed)
    ensures p.Take? ==> (p.split <==> !ExactFit(L[p.index], needed))
    ensures p.Take? && p.split ==> needed + MCB_SIZE + HEAP_ALIGN < L[p.index].size
    ensures p.Take? && (!fullScan || p.split) ==> forall i :: h <= i < p.index ==> !Fits(L[i], needed)
    ensures p.Take? && fullScan ==> forall i :: h <= i < p.index ==> !ExactFit(L[i], needed)
    ensures p.Take? && fullScan && p.split ==> forall i :: h <= i < |L| ==> !ExactFit(L[i], needed)
  {
    var f := FirstFit(L, h, needed);
    if fullScan then
      var e := FirstExact(L, h, needed);
      if e < |L| then Take(e, false)
      else if f < |L| then Take(f, true)
      else NoFit
    else if f < |L| then Take(f, !ExactFit(L[f], needed))
    else NoFit
  }

  /** The chain after malloc: an exact fit is only re-marked, any other
      taken chunk is split at `needed`. */
  function AllocLayout(L: seq<Chunk>, p: Pick, needed: nat): seq<Chunk>
    requires p.Take? ==> p.index < |L| && needed <= L[p.index].size
  {
    match p
    case NoFit => L
    case Take(j, split) => if split then SplitLayout(L, j, needed) else SetState(L, j, Allocated)
  }

  /** The pointer malloc returns: the taken chunk's storage area, or 0. */
  function Returned(L: seq<Chunk>, p: Pick): nat
    requires p.Take? ==> p.index < |L|
  {
    if p.Take? then Pool(L[p.index].addr) else 0
  }

  /** The number of FREE chunks among L[lo..hi]. */
  function CountFree(L: seq<Chunk>, lo: nat, hi: nat): (n: nat)
    requires lo <= hi <= |L|
    ensures n <= hi - lo
    decreases hi - lo
  {
    if lo == hi then 0
    else CountFree(L, lo, hi - 1) + (if L[hi - 1].state == Free then 1 else 0)
  }

  /** The value of free_cnt when the scan ends. Without the full scan every
      FREE chunk visited is counted, the taken one included. With it, FREE
      chunks are counted only while no splittable chunk is remembered (the
      remembered one included), and an exact fit adds one more. */
  function ScanCount(L: seq<Chunk>, h: nat, needed: nat, fullScan: bool): nat
    requires h < |L|
  {
    var f := FirstFit(L, h, needed);
    var e := FirstExact(L, h, needed);
    if !fullScan then CountFree(L, h, if f < |L| then f + 1 else |L|)
    else if e < |L| then CountFree(L, h, if f < e then f + 1 else e) + 1
    else CountFree(L, h, if f < |L| then f + 1 else |L|)
  }

  /** freemem after malloc: the successor of the taken chunk when the scan
      counted exactly one FREE chunk, otherwise unchanged. */
  function HintAfter(L: seq<Chunk>, h: nat, needed: nat, fullScan: bool): nat
    requires h < |L|
  {
    var p := Choose(L, h, needed, fullScan);
    if p.Take? && ScanCount(L, h, needed, fullScan) == 1
    then NextAddr(AllocLayout(L, p, needed), p.index)
    else L[h].addr
  }

  // ----- lemmas --------------------------------------------------------------

  /** No FREE chunk is counted exactly when every chunk in the range is
      ALLOCATED. */
  lemma {:induction false} CountFreeZero(L: seq<Chunk>, lo: nat, hi: nat)
    requires lo <= hi <= |L|
    ensures CountFree(L, lo, hi) == 0 <==> forall i :: lo <= i < hi ==> L[i].state == Allocated
    decreases hi - lo
  {
    if lo < hi {
      CountFreeZero(L, lo, hi - 1);
    }
  }

  /** A fitting chunk with no fitting chunk between `from` and it is the
      first fit. */
  lemma FirstFitIs(L: seq<Chunk>, from: nat, needed: nat, f: nat)
    requires from <= f <= |L| && (f < |L| ==> Fits(L[f], needed))
    requires forall i :: from <= i < f ==> !Fits(L[i], needed)
    ensures FirstFit(L, from, needed) == f
  {
  }

  /** An exact fit with no exact fit between `from` and it is the first
      exact fit. */
  lemma FirstExactIs(L: seq<Chunk>, from: nat, needed: nat, e: nat)
    requires from <= e <= |L| && (e < |L| ==> ExactFit(L[e], needed))
    requires forall i :: from <= i < e ==> !ExactFit(L[i], needed)
    ensures FirstExact(L, from, needed) == e
  {
  }

  /** free_cnt == 1 says exactly that the taken chunk is the first FREE
      chunk at or after the hint. */
  lemma ScanCountOne(L: seq<Chunk>, h: nat, needed: nat, fullScan: bool)
    requires h < |L| && Choose(L, h, needed, fullScan).Take?
    ensures var j := Choose(L, h, needed, fullScan).index;
      ScanCount(L, h, needed, fullScan) == 1 <==> forall i :: h <= i < j ==> L[i].state == Allocated
  {
    var f := FirstFit(L, h, needed);
    var e := FirstExact(L, h, needed);
    var p := Choose(L, h, needed, fullScan);
    if fullScan && e < |L| {
      if f < e {
        assert CountFree(L, h, f + 1) == CountFree(L, h, f) + 1;
        assert L[f].state == Free;
      } else {
        assert p.index == e == f;
        CountFreeZero(L, h, e);
      }
    } else {
      assert p.index == f && L[f].state == Free;
      assert CountFree(L, h, f + 1) == CountFree(L, h, f) + 1;
      CountFreeZero(L, h, f);
    }
  }

  /** The scan stops at an exact fit i (the first one from h): malloc takes
      it whole. f is the first fitting chunk, which the full scan may have
      remembered earlier; free_cnt counted the FREE chunks up to it and the
      exact fit. */
  lemma {:induction false} ScanStopsAtExact(L: seq<Chunk>, h: nat, needed: nat, fullScan: bool, i: nat, f: nat)
    requires h <= f <= i < |L| && ExactFit(L[i], needed)
    requires forall k :: h <= k < i ==> !ExactFit(L[k], needed)
    requires Fits(L[f], needed) && forall k :: h <= k < f ==> !Fits(L[k], needed)
    requires !fullScan ==> f == i
    ensures Choose(L, h, needed, fullScan) == Take(i, false)
    ensures ScanCount(L, h, needed, fullScan) == (if f < i then CountFree(L, h, f + 1) else CountFree(L, h, i)) + 1
  {
    FirstFitIs(L, h, needed, f);
    FirstExactIs(L, h, needed, i);
    if f == i {
      assert CountFree(L, h, i + 1) == CountFree(L, h, i) + 1;
    }
  }

  /** Without the full scan, the first fitting chunk i that is not an exact
      fit is split on the spot. */
  lemma {:induction false} ScanSplitsFirst(L: seq<Chunk>, h: nat, needed: nat, i: nat)
    requires h <= i < |L| && Fits(L[i], needed) && !ExactFit(L[i], needed)
    requires forall k :: h <= k < i ==> !Fits(L[k], needed)
    ensures Choose(L, h, needed, false) == Take(i, true)
    ensures ScanCount(L, h, needed, false) == CountFree(L, h, i) + 1
  {
    FirstFitIs(L, h, needed, i);
    assert CountFree(L, h, i + 1) == CountFree(L, h, i) + 1;
  }

  /** With the full scan, reaching the end of the chain without an exact
      fit splits the remembered chunk x, the first fitting one. */
  lemma {:induction false} ScanSplitsRemembered(L: seq<Chunk>, h: nat, needed: nat, x: nat)
    requires h <= x < |L| && Fits(L[x], needed) && !ExactFit(L[x], needed)
    requires forall k :: h <= k < x ==> !Fits(L[k], needed)
    requires forall k :: h <= k < |L| ==> !ExactFit(L[k], needed)
    ensures Choose(L, h, needed, true) == Take(x, true)
    ensures ScanCount(L, h, needed, true) == CountFree(L, h, x + 1)
  {
    FirstFitIs(L, h, needed, x);
    FirstExactIs(L, h, needed, |L|);
  }

  /** Reaching the end of the chain with nothing that fits: malloc fails,
      and free_cnt counted every FREE chunk from h on. */
  lemma {:induction false} ScanFindsNothing(L: seq<Chunk>, h: nat, needed: nat, fullScan: bool)
    requires h < |L| && forall k :: h <= k < |L| ==> !Fits(L[k], needed)
    ensures Choose(L, h, needed, fullScan) == NoFit
    ensures ScanCount(L, h, needed, fullScan) == CountFree(L, h, |L|)
  {
    FirstFitIs(L, h, needed, |L|);
    FirstExactIs(L, h, needed, |L|);
  }

  /** The chunks before the hint are ALLOCATED, so a scan from the hint
      finds a fitting chunk exactly when the whole chain has one, and with
      the full scan it misses no exact fit. */
  lemma ScanFromHint(L: seq<Chunk>, start: nat, end: nat, h: nat, needed: nat, fullScan: bool)
    requires Tiles(L, start, end) && h < |L| && HintOk(L, L[h].addr)
    ensures var p := Choose(L, h, needed, fullScan);
      (p.NoFit? <==> forall i :: 0 <= i < |L| ==> !Fits(L[i], needed)) &&
      (p.Take? && fullScan ==> forall i :: 0 <= i < p.index ==> !ExactFit(L[i], needed))
  {
    HintPrefix(L, start, end, h);
  }

  /** malloc keeps the pool tiled and the sum of sizes unchanged. */
  lemma AllocTiles(L: seq<Chunk>, start: nat, end: nat, h: nat, size: nat, fullScan: bool)
    requires Tiles(L, start, end) && h < |L|
    ensures var p := Choose(L, h, Needed(size), fullScan);
      Tiles(AllocLayout(L, p, Needed(size)), start, end) &&
      SumSizes(AllocLayout(L, p, Needed(size))) == SumSizes(L)
  {
    var needed := Needed(size);
    var p := Choose(L, h, needed, fullScan);
    if p.Take? {
      if p.split {
        SplitTiles(L, start, end, p.index, needed);
      } else {
        SetStateTiles(L, start, end, p.index, Allocated);
        SetStateSum(L, p.index, Allocated);
      }
    }
  }

  /** Re-marking a chunk leaves the sum of sizes alone. */
  lemma SetStateSum(L: seq<Chunk>, k: nat, s: Mark)
    requires k < |L|
    ensures SumSizes(SetState(L, k, s)) == SumSizes(L)
  {
    var R := SetState(L, k, s);
    assert R == L[..k] + [R[k]] + L[k + 1..];
    SumSizesSplice(L, k, k + 1, [R[k]]);
    assert L[k..k + 1] == [L[k]];
    SumSizesPair(L[k], L[k]);
    SumSizesPair(R[k], R[k]);
  }

  /** malloc never leaves two FREE chunks side by side: the taken chunk
      becomes ALLOCATED, and a split's FREE remainder is followed by what
      followed a FREE chunk. */
  lemma AllocNoAdjacentFree(L: seq<Chunk>, h: nat, needed: nat, fullScan: bool)
    requires NoAdjacentFree(L) && h < |L|
    ensures NoAdjacentFree(AllocLayout(L, Choose(L, h, needed, fullScan), needed))
  {
    var p := Choose(L, h, needed, fullScan);
    var R := AllocLayout(L, p, needed);
    if p.Take? {
      var j := p.index;
      if p.split {
        SplitAt(L, j, needed);
        forall i, k | 0 <= i && k == i + 1 && k < |R|
          ensures !(R[i].state == Free && R[k].state == Free)
        {
          if k < j {
            assert R[i] == L[i] && R[k] == L[k];
          } else if k == j + 2 {
            assert R[k] == L[j + 1];
            assert !(L[j].state == Free && L[j + 1].state == Free);
          } else if k > j + 2 {
            assert R[i] == L[i - 1] && R[k] == L[k - 1];
          }
        }
      } else {
        forall i, k | 0 <= i && k == i + 1 && k < |R|
          ensures !(R[i].state == Free && R[k].state == Free)
        {
          assert i != j ==> R[i] == L[i];
          assert k != j ==> R[k] == L[k];
        }
      }
    }
  }

  /** The pointer malloc returns is non-null exactly when a chunk is taken;
      it is 4-aligned, the taken chunk is ALLOCATED in the new chain, and
      the `size` bytes requested fit between it and the next header (or the
      end of the pool). */
  lemma AllocHoldsRequest(L: seq<Chunk>, start: nat, end: nat, h: nat, size: nat, fullScan: bool)
    requires Tiles(L, start, end) && h < |L|
    ensures var p := Choose(L, h, Needed(size), fullScan);
      (Returned(L, p) != 0 <==> p.Take?) &&
      (p.Take? ==>
        var R := AllocLayout(L, p, Needed(size));
        p.index < |R| && R[p.index].state == Allocated && R[p.index].addr == L[p.index].addr &&
        Returned(L, p) % HEAP_ALIGN == 0 &&
        Returned(L, p) == R[p.index].addr + MCB_SIZE &&
        Returned(L, p) + size <= Limit(R, p.index, end))
  {
    var needed := Needed(size);
    var p := Choose(L, h, needed, fullScan);
    AllocTiles(L, start, end, h, size, fullScan);
    if p.Take? {
      var R := AllocLayout(L, p, needed);
      var j := p.index;
      if p.split {
        SplitAt(L, j, needed);
      }
      assert R[j].addr == L[j].addr && R[j].state == Allocated;
      ChunkFits(R, start, end, j);
      assert needed <= R[j].size;
    }
  }

  /** The hint after malloc is a live header with no FREE chunk before it. */
  lemma AllocHint(L: seq<Chunk>, start: nat, end: nat, h: nat, size: nat, fullScan: bool)
    requires Tiles(L, start, end) && h < |L| && HintOk(L, L[h].addr)
    ensures HintOk(AllocLayout(L, Choose(L, h, Needed(size), fullScan), Needed(size)),
                   HintAfter(L, h, Needed(size), fullScan))
  {
    var needed := Needed(size);
    var p := Choose(L, h, needed, fullScan);
    if p.NoFit? {
      assert Addrs(L)[h] == L[h].addr;
    } else if ScanCount(L, h, needed, fullScan) == 1 {
      AllocHintAdvanced(L, start, end, h, size, fullScan);
    } else {
      AllocHintKept(L, start, end, h, size, fullScan);
    }
  }

  /** The taken chunk and every chunk before it are unchanged in place,
      apart from the taken one becoming ALLOCATED. */
  lemma AllocPrefix(L: seq<Chunk>, h: nat, needed: nat, fullScan: bool)
    requires h < |L| && Choose(L, h, needed, fullScan).Take?
    ensures var p := Choose(L, h, needed, fullScan);
      var R := AllocLayout(L, p, needed);
      p.index < |R| && R[p.index].addr == L[p.index].addr && R[p.index].state == Allocated &&
      forall i :: 0 <= i < p.index ==> R[i] == L[i]
  {
    var p := Choose(L, h, needed, fullScan);
    if p.split {
      SplitAt(L, p.index, needed);
    }
  }

  lemma AllocHintAdvanced(L: seq<Chunk>, start: nat, end: nat, h: nat, size: nat, fullScan: bool)
    requires Tiles(L, start, end) && h < |L| && HintOk(L, L[h].addr)
    requires Choose(L, h, Needed(size), fullScan).Take? && ScanCount(L, h, Needed(size), fullScan) == 1
    ensures HintOk(AllocLayout(L, Choose(L, h, Needed(size), fullScan), Needed(size)),
                   HintAfter(L, h, Needed(size), fullScan))
  {
    var needed := Needed(size);
    var p := Choose(L, h, needed, fullScan);
    var R := AllocLayout(L, p, needed);
    var j := p.index;
    AllocTiles(L, start, end, h, size, fullScan);
    AllocPrefix(L, h, needed, fullScan);
    ScanCountOne(L, h, needed, fullScan);
    HintPrefix(L, start, end, h);
    assert forall i :: 0 <= i < j + 1 ==> R[i].state == Allocated;
    if j + 1 < |R| {
      HintOkAt(R, start, end, j + 1);
    } else {
      HintOkAt(R, start, end, 0);
    }
  }

  lemma AllocHintKept(L: seq<Chunk>, start: nat, end: nat, h: nat, size: nat, fullScan: bool)
    requires Tiles(L, start, end) && h < |L| && HintOk(L, L[h].addr)
    requires Choose(L, h, Needed(size), fullScan).Take? && ScanCount(L, h, Needed(size), fullScan) != 1
    ensures HintOk(AllocLayout(L, Choose(L, h, Needed(size), fullScan), Needed(size)),
                   HintAfter(L, h, Needed(size), fullScan))
  {
    var needed := Needed(size);
    var p := Choose(L, h, needed, fullScan);
    var R := AllocLayout(L, p, needed);
    AllocTiles(L, start, end, h, size, fullScan);
    AllocPrefix(L, h, needed, fullScan);
    HintPrefix(L, start, end, h);
    assert R[h].addr == L[h].addr;
    assert forall i :: 0 <= i < h ==> R[i].state == Allocated;
    HintOkAt(R, start, end, h);
  }
}

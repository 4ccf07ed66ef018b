/** The chunk chain of one pool, seen in address order: what the headers say,
    how they must tile the pool, how the header map mirrors the sequence, and
    the two primitive rewrites of the chain, mcb::split and
    mcb::merge_with_next. */
module ChunkLayout {
  import opened MemoryControlBlock

  /** One chunk as the chain sees it: where its header is, its type and its
      recorded size. */
  datatype Chunk = Chunk(addr: nat, state: Mark, size: nat)

  /** The header addresses, in chain order. */
  function Addrs(L: seq<Chunk>): (r: seq<nat>)
    ensures |r| == |L| && forall i :: 0 <= i < |L| ==> r[i] == L[i].addr
  {
    seq(|L|, i requires 0 <= i < |L| => L[i].addr)
  }

  /** The first byte that does not belong to chunk i: the next header, or the
      end of the pool for the last chunk. */
  function Limit(L: seq<Chunk>, i: nat, end: nat): nat
    requires i < |L|
  {
    if i + 1 < |L| then L[i + 1].addr else end
  }

  /** What `next` must hold for chunk i: its address successor, or `start`
      (the first header) for the last chunk. */
  function NextAddr(L: seq<Chunk>, i: nat): nat
    requires i < |L|
  {
    if i + 1 < |L| then L[i + 1].addr else L[0].addr
  }

  /** What `prev` must hold for chunk i: its address predecessor, or itself
      for the first chunk. */
  function PrevAddr(L: seq<Chunk>, i: nat): nat
    requires i < |L|
  {
    if i > 0 then L[i - 1].addr else L[0].addr
  }

  /** The sum of all recorded sizes. */
  function SumSizes(L: seq<Chunk>): nat
  {
    if L == [] then 0 else SumSizes(L[..|L| - 1]) + L[|L| - 1].size
  }

  /** The headers tile the pool [start, end) in ascending order: every
      header is 4-aligned, every size fits the 24-bit field, every chunk has
      room for its header and for its recorded size before the next header
      (or the end of the pool), and the recorded sizes add up to the pool's
      byte count less one header (split stores a size that already includes
      the header, and merge_with_next adds sizes without adding a header
      back). */
  ghost predicate Tiles(L: seq<Chunk>, start: nat, end: nat)
  {
    |L| > 0 && L[0].addr == start && 0 < start &&
    Aligned(L) && Gaps(L, end) &&
    start + SumSizes(L) + MCB_SIZE == end && SumSizes(L) < SIZE_LIMIT
  }

  /** Every header is 4-aligned and every size fits the 24-bit field. */
  ghost predicate Aligned(L: seq<Chunk>)
  {
    forall i :: 0 <= i < |L| ==> L[i].addr % HEAP_ALIGN == 0 && L[i].size < SIZE_LIMIT
  }

  /** Every chunk has room for its header and its recorded size before the
      next header, or before `end` for the last one. */
  ghost predicate Gaps(L: seq<Chunk>, end: nat)
  {
    |L| > 0 &&
    (forall i, k :: 0 <= i && k == i + 1 && k < |L| ==>
       L[i].addr + MCB_SIZE <= L[k].addr && L[i].addr + L[i].size <= L[k].addr) &&
    L[|L| - 1].addr + MCB_SIZE <= end && L[|L| - 1].addr + L[|L| - 1].size <= end
  }

  /** The header map holds exactly the chain's headers; each header's type
      and size are its chunk's, `next` is the address successor (the last
      one's is `start`) and `prev` the address predecessor (`start`'s is
      itself). */
  ghost predicate Represents(m: map<nat, Mcb>, L: seq<Chunk>)
  {
    |L| > 0 && Keys(m, L) && Fields(m, L) && Links(m, L)
  }

  /** The map's keys are exactly the chain's header addresses. */
  ghost predicate Keys(m: map<nat, Mcb>, L: seq<Chunk>)
  {
    forall a :: a in m <==> a in Addrs(L)
  }

  /** Each chunk's header records its type and size. */
  ghost predicate Fields(m: map<nat, Mcb>, L: seq<Chunk>)
  {
    forall i :: 0 <= i < |L| ==>
      L[i].addr in m && m[L[i].addr].state == L[i].state && m[L[i].addr].size == L[i].size
  }

  /** `next` and `prev` link address neighbours; the last `next` wraps to
      the first header, whose `prev` is itself. */
  ghost predicate Links(m: map<nat, Mcb>, L: seq<Chunk>)
    requires Fields(m, L)
  {
    |L| > 0 &&
    (forall i, k :: 0 <= i && k == i + 1 && k < |L| ==>
       m[L[i].addr].next == L[k].addr && m[L[k].addr].prev == L[i].addr) &&
    m[L[|L| - 1].addr].next == L[0].addr && m[L[0].addr].prev == L[0].addr
  }

  /** No two address-consecutive chunks are both FREE. */
  ghost predicate NoAdjacentFree(L: seq<Chunk>)
  {
    forall i, k :: 0 <= i && k == i + 1 && k < |L| ==> !(L[i].state == Free && L[k].state == Free)
  }

  /** The hint `freemem` is a live header and no FREE chunk lies before it. */
  ghost predicate HintOk(L: seq<Chunk>, f: nat)
  {
    f in Addrs(L) && forall i :: 0 <= i < |L| && L[i].addr < f ==> L[i].state == Allocated
  }

  /** The index of the chunk whose header is at `a`, or |L| when there is none. */
  function Locate(L: seq<Chunk>, a: int): (k: nat)
    ensures k <= |L|
    ensures (k < |L|) == (a in Addrs(L))
    ensures k < |L| ==> L[k].addr == a
    ensures forall i :: 0 <= i < k ==> L[i].addr != a
  {
    if L == [] then 0
    else if L[0].addr == a then 0
    else
      var k := Locate(L[1..], a);
      assert forall i :: 0 < i < |L| ==> L[i] == L[1..][i - 1];
      assert a in Addrs(L) ==> a in Addrs(L[1..]) by {
        if a in Addrs(L) {
          var i :| 0 <= i < |L| && Addrs(L)[i] == a;
          assert i > 0 && Addrs(L[1..])[i - 1] == a;
        }
      }
      assert a in Addrs(L[1..]) ==> a in Addrs(L) by {
        if a in Addrs(L[1..]) {
          var i :| 0 <= i < |L| - 1 && Addrs(L[1..])[i] == a;
          assert Addrs(L)[i + 1] == a;
        }
      }
      k + 1
  }

  /** Chunk k with its type replaced. */
  function SetState(L: seq<Chunk>, k: nat, s: Mark): seq<Chunk>
    requires k < |L|
  {
    L[k := L[k].(state := s)]
  }

  /** mcb::split(needed) applied to chunk j: the chunk keeps its header,
      becomes ALLOCATED with size `needed`, and a new FREE chunk of size
      old - needed starts `needed` bytes after it. */
  function SplitLayout(L: seq<Chunk>, j: nat, needed: nat): seq<Chunk>
    requires j < |L| && needed <= L[j].size
  {
    L[..j] + [Chunk(L[j].addr, Allocated, needed), Chunk(L[j].addr + needed, Free, L[j].size - needed)] + L[j + 1..]
  }

  /** mcb::merge_with_next applied to chunk j: it absorbs chunk j+1, keeping
      its own header and type and adding the two recorded sizes. */
  function MergeLayout(L: seq<Chunk>, j: nat): seq<Chunk>
    requires j + 1 < |L|
  {
    L[..j] + [L[j].(size := L[j].size + L[j + 1].size)] + L[j + 2..]
  }

  // ----- sums ---------------------------------------------------------------

  lemma {:induction false} SumSizesAppend(A: seq<Chunk>, B: seq<Chunk>)
    ensures SumSizes(A + B) == SumSizes(A) + SumSizes(B)
    decreases |B|
  {
    if B == [] {
      assert A + B == A;
    } else {
      assert (A + B)[..|A + B| - 1] == A + B[..|B| - 1];
      SumSizesAppend(A, B[..|B| - 1]);
    }
  }

  /** Replacing the chunks L[i..k] by `mid` changes the sum by exactly the
      difference of the two parts. */
  lemma SumSizesSplice(L: seq<Chunk>, i: nat, k: nat, mid: seq<Chunk>)
    requires i <= k <= |L|
    ensures SumSizes(L[..i] + mid + L[k..]) + SumSizes(L[i..k]) == SumSizes(L) + SumSizes(mid)
  {
    SumSizesAppend(L[..i] + mid, L[k..]);
    SumSizesAppend(L[..i], mid);
    SumSizesAppend(L[..i], L[i..k]);
    SumSizesAppend(L[..i] + L[i..k], L[k..]);
    assert L[..i] + L[i..k] + L[k..] == L;
  }

  /** Two neighbouring sizes never exceed the total. */
  lemma {:induction false} PairWithinSum(L: seq<Chunk>, j: nat)
    requires j + 1 < |L|
    ensures L[j].size + L[j + 1].size <= SumSizes(L)
  {
    SumSizesSplice(L, j, j + 2, []);
    assert L[j..j + 2] == [L[j], L[j + 1]];
    SumSizesPair(L[j], L[j + 1]);
  }


  lemma SumSizesPair(c1: Chunk, c2: Chunk)
    ensures SumSizes([c1]) == c1.size
    ensures SumSizes([c1, c2]) == c1.size + c2.size
  {
    assert [c1][..0] == [];
    assert [c1, c2][..1] == [c1];
  }

  lemma SplitSum(L: seq<Chunk>, j: nat, needed: nat)
    requires j < |L| && needed <= L[j].size
    ensures SumSizes(SplitLayout(L, j, needed)) == SumSizes(L)
  {
    var c1 := Chunk(L[j].addr, Allocated, needed);
    var c2 := Chunk(L[j].addr + needed, Free, L[j].size - needed);
    var A, B := L[..j], L[j + 1..];
    assert SplitLayout(L, j, needed) == A + [c1, c2] + B;
    assert L == A + [L[j]] + B;
    SumSizesAppend(A + [c1, c2], B);
    SumSizesAppend(A, [c1, c2]);
    SumSizesAppend(A + [L[j]], B);
    SumSizesAppend(A, [L[j]]);
    SumSizesPair(L[j], c1);
    SumSizesPair(c1, c2);
  }

  lemma MergeSum(L: seq<Chunk>, j: nat)
    requires j + 1 < |L|
    ensures SumSizes(MergeLayout(L, j)) == SumSizes(L)
  {
    var c := L[j].(size := L[j].size + L[j + 1].size);
    SumSizesSplice(L, j, j + 2, [c]);
    assert L[j..j + 2] == [L[j], L[j + 1]];
    SumSizesPair(L[j], L[j + 1]);
    SumSizesPair(c, c);
  }

  /** The chunks of a split layout, position by position. */
  lemma SplitAt(L: seq<Chunk>, j: nat, needed: nat)
    requires j < |L| && needed <= L[j].size
    ensures var R := SplitLayout(L, j, needed);
      |R| == |L| + 1 &&
      R[j] == Chunk(L[j].addr, Allocated, needed) &&
      R[j + 1] == Chunk(L[j].addr + needed, Free, L[j].size - needed) &&
      (forall i :: 0 <= i < j ==> R[i] == L[i]) &&
      (forall i :: j + 1 < i < |R| ==> R[i] == L[i - 1])
  {
  }

  /** The chunks of a merged layout, position by position. */
  lemma MergeAt(L: seq<Chunk>, j: nat)
    requires j + 1 < |L|
    ensures var R := MergeLayout(L, j);
      |R| == |L| - 1 &&
      R[j] == L[j].(size := L[j].size + L[j + 1].size) &&
      (forall i :: 0 <= i < j ==> R[i] == L[i]) &&
      (forall i :: j < i < |R| ==> R[i] == L[i + 1])
  {
  }

  // ----- order --------------------------------------------------------------

  lemma {:induction false} AscendingPair(L: seq<Chunk>, start: nat, end: nat, i: nat, k: nat)
    requires Tiles(L, start, end) && i < k < |L|
    ensures L[i].addr + MCB_SIZE <= L[k].addr
    decreases k - i
  {
    assert L[i].addr + MCB_SIZE <= L[i + 1].addr;
    if i + 1 < k {
      AscendingPair(L, start, end, i + 1, k);
    }
  }

  /** Header addresses strictly increase along the chain and stay inside the
      pool, so `next` can only come back to `start` from the last chunk. */
  lemma Ascending(L: seq<Chunk>, start: nat, end: nat)
    requires Tiles(L, start, end)
    ensures forall i, k :: 0 <= i < k < |L| ==> L[i].addr < L[k].addr
    ensures forall i :: 0 <= i < |L| ==> start <= L[i].addr && L[i].addr + MCB_SIZE <= end
  {
    forall i, k | 0 <= i < k < |L|
      ensures L[i].addr < L[k].addr
    {
      AscendingPair(L, start, end, i, k);
    }
    forall i | 0 <= i < |L|
      ensures start <= L[i].addr && L[i].addr + MCB_SIZE <= end
    {
      if 0 < i {
        AscendingPair(L, start, end, 0, i);
      }
      if i + 1 < |L| {
        AscendingPair(L, start, end, i, |L| - 1);
      }
    }
  }

  /** Header addresses on either side of chunk j, and of a split point
      `needed` bytes into it that leaves room for one more header. */
  lemma Around(L: seq<Chunk>, start: nat, end: nat, j: nat, needed: nat)
    requires Tiles(L, start, end) && j < |L| && needed + MCB_SIZE <= L[j].size
    ensures forall i :: 0 <= i < j ==> L[i].addr + MCB_SIZE <= L[j].addr
    ensures forall i :: j < i < |L| ==> L[j].addr + needed + MCB_SIZE <= L[i].addr
    ensures forall i :: 0 < i < |L| ==> start < L[i].addr
  {
    forall i | 0 <= i < j
      ensures L[i].addr + MCB_SIZE <= L[j].addr
    {
      AscendingPair(L, start, end, i, j);
    }
    forall i | j < i < |L|
      ensures L[j].addr + needed + MCB_SIZE <= L[i].addr
    {
      assert L[j].addr + L[j].size <= L[j + 1].addr;
      if j + 1 < i {
        AscendingPair(L, start, end, j + 1, i);
      }
    }
    forall i | 0 < i < |L|
      ensures start < L[i].addr
    {
      AscendingPair(L, start, end, 0, i);
    }
  }

  /** `start` is the lowest header: the walk along `next` meets it again
      only after the last chunk. */
  lemma StartLowest(L: seq<Chunk>, start: nat, end: nat)
    requires Tiles(L, start, end)
    ensures forall i :: 0 < i < |L| ==> start < L[i].addr
  {
    forall i | 0 < i < |L|
      ensures start < L[i].addr
    {
      AscendingPair(L, start, end, 0, i);
    }
  }

  /** A chunk whose header lies below chunk k's comes before it. */
  lemma BelowIndex(L: seq<Chunk>, start: nat, end: nat, k: nat)
    requires Tiles(L, start, end) && k < |L|
    ensures forall i :: 0 <= i < |L| && L[i].addr < L[k].addr ==> i < k
  {
    forall i | 0 <= i < |L| && L[i].addr < L[k].addr
      ensures i < k
    {
      if k < i {
        AscendingPair(L, start, end, k, i);
      }
    }
  }

  /** Every chunk before a valid hint is ALLOCATED. */
  lemma HintPrefix(L: seq<Chunk>, start: nat, end: nat, h: nat)
    requires Tiles(L, start, end) && h < |L| && HintOk(L, L[h].addr)
    ensures forall i :: 0 <= i < h ==> L[i].state == Allocated
  {
    forall i | 0 <= i < h
      ensures L[i].state == Allocated
    {
      AscendingPair(L, start, end, i, h);
    }
  }

  /** A header with only ALLOCATED chunks before it is a valid hint. */
  lemma HintOkAt(L: seq<Chunk>, start: nat, end: nat, k: nat)
    requires Tiles(L, start, end) && k < |L|
    requires forall i :: 0 <= i < k ==> L[i].state == Allocated
    ensures HintOk(L, L[k].addr)
  {
    BelowIndex(L, start, end, k);
    assert Addrs(L)[k] == L[k].addr;
  }

  /** Header addresses are distinct, so locating chunk k's header finds k. */
  lemma LocateAt(L: seq<Chunk>, start: nat, end: nat, k: nat)
    requires Tiles(L, start, end) && k < |L|
    ensures L[k].addr in Addrs(L) && Locate(L, L[k].addr) == k
  {
    assert Addrs(L)[k] == L[k].addr;
    var r := Locate(L, L[k].addr);
    if r < k {
      AscendingPair(L, start, end, r, k);
    }
  }

  /** The neighbours of a FREE chunk are ALLOCATED. */
  lemma FreeNeighbours(L: seq<Chunk>, k: nat)
    requires NoAdjacentFree(L) && k < |L| && L[k].state == Free
    ensures k + 1 < |L| ==> L[k + 1].state == Allocated
    ensures 0 < k ==> L[k - 1].state == Allocated
  {
    if 0 < k {
      assert L[k].state == Free && L[k - 1].state != Free;
    }
    if k + 1 < |L| {
      assert L[k].state == Free && L[k + 1].state != Free;
    }
  }

  /** Chunk i has room for its header and its recorded size before its limit. */
  lemma ChunkFits(L: seq<Chunk>, start: nat, end: nat, i: nat)
    requires Tiles(L, start, end) && i < |L|
    ensures L[i].addr + MCB_SIZE <= Limit(L, i, end) && L[i].addr + L[i].size <= Limit(L, i, end)
  {
    if i + 1 < |L| {
      assert L[i].addr + MCB_SIZE <= L[i + 1].addr;
    }
  }

  /** The header of chunk i, field by field. */
  lemma LinkAt(m: map<nat, Mcb>, L: seq<Chunk>, i: nat)
    requires Fields(m, L) && Links(m, L) && i < |L|
    ensures L[i].addr in m && m[L[i].addr] == Mcb(NextAddr(L, i), PrevAddr(L, i), L[i].state, L[i].size)
  {
    if i + 1 < |L| {
      assert m[L[i].addr].next == L[i + 1].addr;
    }
    if 0 < i {
      assert m[L[i].addr].prev == L[i - 1].addr;
    }
  }

  // ----- the rewrites keep the pool tiled ------------------------------------

  lemma AlignedSum(a: nat, n: nat)
    requires a % HEAP_ALIGN == 0 && n % HEAP_ALIGN == 0
    ensures (a + n) % HEAP_ALIGN == 0
  {
  }

  /** Re-marking a chunk keeps the pool tiled. */
  lemma SetStateTiles(L: seq<Chunk>, start: nat, end: nat, k: nat, s: Mark)
    requires Tiles(L, start, end) && k < |L|
    ensures Tiles(SetState(L, k, s), start, end)
  {
    var R := SetState(L, k, s);
    assert R == L[..k] + [R[k]] + L[k + 1..];
    SumSizesSplice(L, k, k + 1, [R[k]]);
    assert L[k..k + 1] == [L[k]];
    SumSizesPair(L[k], L[k]);
    SumSizesPair(R[k], R[k]);
    forall i, j | 0 <= i && j == i + 1 && j < |R|
      ensures R[i].addr + MCB_SIZE <= R[j].addr && R[i].addr + R[i].size <= R[j].addr
    {
      assert L[i].addr + MCB_SIZE <= L[j].addr;
    }
    assert Gaps(R, end);
  }

  /** Neighbouring chunks of a split layout leave room for header and size. */
  lemma SplitGaps(L: seq<Chunk>, start: nat, end: nat, j: nat, needed: nat)
    requires Tiles(L, start, end) && j < |L|
    requires MCB_SIZE <= needed && needed + MCB_SIZE <= L[j].size
    ensures Gaps(SplitLayout(L, j, needed), end)
  {
    var R := SplitLayout(L, j, needed);
    SplitAt(L, j, needed);
    ChunkFits(L, start, end, j);
    forall i, k | 0 <= i && k == i + 1 && k < |R|
      ensures R[i].addr + MCB_SIZE <= R[k].addr && R[i].addr + R[i].size <= R[k].addr
    {
      if k < j {
        assert L[i].addr + MCB_SIZE <= L[k].addr;
      } else if k == j {
        assert L[i].addr + MCB_SIZE <= L[j].addr;
      } else if k == j + 2 {
        assert R[k] == L[j + 1];
      } else if k > j + 2 {
        assert R[i] == L[i - 1] && R[k] == L[k - 1];
        assert L[i - 1].addr + MCB_SIZE <= L[k - 1].addr;
      }
    }
    if j + 1 < |L| {
      assert R[|R| - 1] == L[|L| - 1];
    }
  }

  /** A split keeps the pool tiled and the sum of sizes unchanged, given room
      for the new header after `needed` bytes. */
  lemma SplitTiles(L: seq<Chunk>, start: nat, end: nat, j: nat, needed: nat)
    requires Tiles(L, start, end) && j < |L|
    requires MCB_SIZE <= needed && needed % HEAP_ALIGN == 0 && needed + MCB_SIZE <= L[j].size
    ensures Tiles(SplitLayout(L, j, needed), start, end)
    ensures SumSizes(SplitLayout(L, j, needed)) == SumSizes(L)
  {
    SplitSum(L, j, needed);
    SplitGaps(L, start, end, j, needed);
    SplitAligned(L, start, end, j, needed);
  }

  lemma SplitAligned(L: seq<Chunk>, start: nat, end: nat, j: nat, needed: nat)
    requires Tiles(L, start, end) && j < |L|
    requires needed % HEAP_ALIGN == 0 && needed <= L[j].size
    ensures Aligned(SplitLayout(L, j, needed))
  {
    var R := SplitLayout(L, j, needed);
    SplitAt(L, j, needed);
    AlignedSum(L[j].addr, needed);
    forall i | 0 <= i < |R|
      ensures R[i].addr % HEAP_ALIGN == 0 && R[i].size < SIZE_LIMIT
    {
      if i > j + 1 {
        assert R[i] == L[i - 1];
      }
    }
  }

  /** Neighbouring chunks of a merged layout leave room for header and size. */
  lemma MergeGaps(L: seq<Chunk>, start: nat, end: nat, j: nat)
    requires Tiles(L, start, end) && j + 1 < |L|
    ensures Gaps(MergeLayout(L, j), end)
  {
    var R := MergeLayout(L, j);
    MergeAt(L, j);
    assert L[j].addr + MCB_SIZE <= L[j + 1].addr && L[j].addr + L[j].size <= L[j + 1].addr;
    ChunkFits(L, start, end, j + 1);
    forall i, k | 0 <= i && k == i + 1 && k < |R|
      ensures R[i].addr + MCB_SIZE <= R[k].addr && R[i].addr + R[i].size <= R[k].addr
    {
      if k < j {
        assert L[i].addr + MCB_SIZE <= L[k].addr;
      } else if k == j {
        assert L[i].addr + MCB_SIZE <= L[j].addr;
      } else if k == j + 1 {
        assert R[k] == L[j + 2];
      } else {
        assert R[i] == L[i + 1] && R[k] == L[k + 1];
        assert L[i + 1].addr + MCB_SIZE <= L[k + 1].addr;
      }
    }
    if j + 2 < |L| {
      assert R[|R| - 1] == L[|L| - 1];
    }
  }

  /** A merge keeps the pool tiled and the sum of sizes unchanged. */
  lemma MergeTiles(L: seq<Chunk>, start: nat, end: nat, j: nat)
    requires Tiles(L, start, end) && j + 1 < |L|
    ensures Tiles(MergeLayout(L, j), start, end)
    ensures SumSizes(MergeLayout(L, j)) == SumSizes(L)
  {
    MergeSum(L, j);
    MergeGaps(L, start, end, j);
    MergeAligned(L, start, end, j);
  }

  lemma MergeAligned(L: seq<Chunk>, start: nat, end: nat, j: nat)
    requires Tiles(L, start, end) && j + 1 < |L|
    ensures Aligned(MergeLayout(L, j))
  {
    var R := MergeLayout(L, j);
    MergeAt(L, j);
    PairWithinSum(L, j);
    forall i | 0 <= i < |R|
      ensures R[i].addr % HEAP_ALIGN == 0 && R[i].size < SIZE_LIMIT
    {
      if i > j {
        assert R[i] == L[i + 1];
      }
    }
  }

  // ----- the header map follows the rewrites --------------------------------

  /** Re-marking one header's type is exactly re-marking its chunk. */
  lemma SetStateRepresents(m: map<nat, Mcb>, L: seq<Chunk>, end: nat, k: nat, s: Mark)
    requires Represents(m, L) && Tiles(L, L[0].addr, end) && k < |L|
    ensures Represents(m[L[k].addr := m[L[k].addr].(state := s)], SetState(L, k, s))
  {
    var m2 := m[L[k].addr := m[L[k].addr].(state := s)];
    var R := SetState(L, k, s);
    Ascending(L, L[0].addr, end);
    assert Addrs(R) == Addrs(L);
    forall i | 0 <= i < |R|
      ensures R[i].addr in m2 && m2[R[i].addr].state == R[i].state && m2[R[i].addr].size == R[i].size
    {
      if i != k {
        assert L[i].addr != L[k].addr;
      }
    }
    forall i, j | 0 <= i && j == i + 1 && j < |R|
      ensures m2[R[i].addr].next == R[j].addr && m2[R[j].addr].prev == R[i].addr
    {
      assert m[L[i].addr].next == L[j].addr;
    }
  }

  /** The addresses of a split layout: the old ones with the new header
      inserted after chunk j. */
  lemma SplitAddrs(L: seq<Chunk>, j: nat, needed: nat)
    requires j < |L| && needed <= L[j].size
    ensures Addrs(SplitLayout(L, j, needed)) == Addrs(L)[..j + 1] + [L[j].addr + needed] + Addrs(L)[j + 1..]
  {
    SplitAt(L, j, needed);
  }

  /** The addresses of a merged layout: the old ones without chunk j+1. */
  lemma MergeAddrs(L: seq<Chunk>, j: nat)
    requires j + 1 < |L|
    ensures Addrs(MergeLayout(L, j)) == Addrs(L)[..j + 1] + Addrs(L)[j + 2..]
  {
    MergeAt(L, j);
  }
}

/** What heap::free does, stated on the chain in address order: which
    pointers it accepts, how the freed chunk coalesces with FREE neighbours,
    where the hint goes, and how it undoes a malloc. */
module FreeSpec {
  import opened MemoryControlBlock
  import opened ChunkLayout
  import opened AllocSpec

  /** heap::free's checks, in the order heap.cpp makes them: a null or misaligned
      pointer is refused; the header in front of it must be a live header
      (the model cannot read a header anywhere else); its `prev` must be
      itself or point back at it through `next`; and the pointer must not
      lie below `start`. */
  predicate Accepts(m: map<nat, Mcb>, start: nat, pool: nat)
  {
    pool != 0 && pool % HEAP_ALIGN == 0 &&
    MCB_SIZE <= pool && pool - MCB_SIZE in m &&
    var t := pool - MCB_SIZE;
    var x := m[t].prev;
    (x == t || (x in m && m[x].next == t)) && start <= pool
  }

  /** Chunk k marked FREE and, when its successor is FREE and is not
      `start`, merged with it. */
  function FreeForward(L: seq<Chunk>, k: nat): (r: seq<Chunk>)
    requires k < |L|
    ensures k < |r| && r[k].addr == L[k].addr && r[k].state == Free
    ensures forall i :: 0 <= i < k ==> r[i] == L[i]
  {
    var M := SetState(L, k, Free);
    if k + 1 < |L| && L[k + 1].state == Free then MergeLayout(M, k) else M
  }

  /** The chunk that holds the freed storage at the end: the predecessor
      when it was FREE and k is not `start`, otherwise k itself. */
  function FreedIndex(L: seq<Chunk>, k: nat): (r: nat)
    requires k < |L|
    ensures r <= k && k - r <= 1
  {
    if 0 < k && L[k - 1].state == Free then k - 1 else k
  }

  /** One past the last chunk absorbed by the forward merge. */
  function FreedEnd(L: seq<Chunk>, k: nat): (r: nat)
    requires k < |L|
    ensures k < r <= |L| && r - k <= 2
  {
    if k + 1 < |L| && L[k + 1].state == Free then k + 2 else k + 1
  }

  /** The chain after heap::free of chunk k: marked FREE, merged forward,
      then merged into a FREE predecessor. */
  function FreeLayout(L: seq<Chunk>, k: nat): seq<Chunk>
    requires k < |L|
  {
    var F := FreeForward(L, k);
    if 0 < k && L[k - 1].state == Free then MergeLayout(F, k - 1) else F
  }

  // ----- lemmas --------------------------------------------------------------

  /** free accepts exactly the storage areas of live chunks: for those the
      cross-check and the `start` bound always pass. */
  lemma AcceptsLive(m: map<nat, Mcb>, L: seq<Chunk>, end: nat, pool: nat)
    requires Represents(m, L) && Tiles(L, L[0].addr, end)
    ensures Accepts(m, L[0].addr, pool) <==> MCB_SIZE <= pool && pool - MCB_SIZE in Addrs(L)
  {
    if MCB_SIZE <= pool && pool - MCB_SIZE in Addrs(L) {
      var k := Locate(L, pool - MCB_SIZE);
      AcceptsChunk(m, L, end, k);
      assert Pool(L[k].addr) == pool;
    } else {
      assert !(MCB_SIZE <= pool && pool - MCB_SIZE in m);
    }
  }

  /** The storage area of chunk k passes every check of heap::free. */
  lemma AcceptsChunk(m: map<nat, Mcb>, L: seq<Chunk>, end: nat, k: nat)
    requires Represents(m, L) && Tiles(L, L[0].addr, end) && k < |L|
    ensures Accepts(m, L[0].addr, Pool(L[k].addr))
  {
    var t := L[k].addr;
    LinkAt(m, L, k);
    if 0 < k {
      LinkAt(m, L, k - 1);
      AscendingPair(L, L[0].addr, end, 0, k);
    }
    assert Pool(t) - MCB_SIZE == t;
  }

  /** free replaces the run L[a..b] (the freed chunk with its FREE
      neighbours) by one FREE chunk at L[a]'s header whose size is the sum of
      the run's sizes; everything else is unchanged. */
  lemma FreeCoalesces(L: seq<Chunk>, k: nat)
    requires k < |L|
    ensures var a, b := FreedIndex(L, k), FreedEnd(L, k);
      FreeLayout(L, k) == L[..a] + [Chunk(L[a].addr, Free, SumSizes(L[a..b]))] + L[b..]
  {
    var a, b := FreedIndex(L, k), FreedEnd(L, k);
    var M := SetState(L, k, Free);
    var F := FreeForward(L, k);
    if b == k + 2 {
      assert L[k..k + 2] == [L[k], L[k + 1]];
      SumSizesPair(L[k], L[k + 1]);
    } else {
      assert L[k..k + 1] == [L[k]];
      SumSizesPair(L[k], L[k]);
    }
    if a == k - 1 {
      if b == k + 2 {
        assert L[a..b] == [L[a]] + L[k..k + 2];
        SumSizesAppend([L[a]], L[k..k + 2]);
      } else {
        assert L[a..b] == [L[a], L[k]];
      }
      SumSizesPair(L[a], L[a]);
      SumSizesPair(L[a], L[k]);
      assert F[k - 1] == L[k - 1];
    }
  }

  /** Freeing keeps the pool tiled and the sum of sizes unchanged. */
  lemma FreeTiles(L: seq<Chunk>, start: nat, end: nat, k: nat)
    requires Tiles(L, start, end) && k < |L|
    ensures Tiles(FreeLayout(L, k), start, end) && SumSizes(FreeLayout(L, k)) == SumSizes(L)
  {
    var M := SetState(L, k, Free);
    SetStateTiles(L, start, end, k, Free);
    SetStateSum(L, k, Free);
    var F := FreeForward(L, k);
    if k + 1 < |L| && L[k + 1].state == Free {
      MergeTiles(M, start, end, k);
    }
    if 0 < k && L[k - 1].state == Free {
      MergeTiles(F, start, end, k - 1);
    }
  }

  /** Freeing never leaves two FREE chunks side by side. */
  lemma FreeNoAdjacentFree(L: seq<Chunk>, k: nat)
    requires NoAdjacentFree(L) && k < |L|
    ensures NoAdjacentFree(FreeLayout(L, k))
  {
    var a, b := FreedIndex(L, k), FreedEnd(L, k);
    var G := FreeLayout(L, k);
    FreeCoalesces(L, k);
    var c := Chunk(L[a].addr, Free, SumSizes(L[a..b]));
    assert |G| == a + 1 + (|L| - b);
    forall i, j | 0 <= i && j == i + 1 && j < |G|
      ensures !(G[i].state == Free && G[j].state == Free)
    {
      if j < a {
        assert G[i] == L[i] && G[j] == L[j];
      } else if j == a {
        assert G[i] == L[i];
        if a == k - 1 {
          assert L[a].state == Free;
        }
      } else if i == a {
        assert G[j] == L[b];
        if b == k + 2 {
          assert L[b - 1].state == Free;
        }
      } else {
        assert G[i] == L[i - a - 1 + b] && G[j] == L[j - a - 1 + b];
      }
    }
  }

  /** After free the hint is the lower of the old hint and the freed
      chunk's header, and it is still a live header with no FREE chunk
      before it. */
  lemma FreeHint(L: seq<Chunk>, start: nat, end: nat, k: nat, f: nat)
    requires Tiles(L, start, end) && k < |L| && HintOk(L, f)
    ensures var a := FreedIndex(L, k);
      HintOk(FreeLayout(L, k), if L[a].addr < f then L[a].addr else f)
  {
    var a := FreedIndex(L, k);
    var G := FreeLayout(L, k);
    FreePrefix(L, k);
    FreeTiles(L, start, end, k);
    var q: nat;
    if L[a].addr < f {
      q := a;
      forall i | 0 <= i < a
        ensures L[i].state == Allocated
      {
        AscendingPair(L, start, end, i, a);
      }
    } else {
      q := HintBelow(L, start, end, f, a);
    }
    FreeHintAt(L, start, end, k, q);
  }

  /** The header of chunk q <= FreedIndex survives free, and if every
      chunk before it was ALLOCATED it is a valid hint afterwards. */
  lemma FreeHintAt(L: seq<Chunk>, start: nat, end: nat, k: nat, q: nat)
    requires k < |L| && q <= FreedIndex(L, k)
    requires Tiles(FreeLayout(L, k), start, end)
    requires forall i :: 0 <= i < q ==> L[i].state == Allocated
    ensures q < |FreeLayout(L, k)| && FreeLayout(L, k)[q].addr == L[q].addr
    ensures HintOk(FreeLayout(L, k), L[q].addr)
  {
    var G := FreeLayout(L, k);
    FreePrefix(L, k);
    HintOkAt(G, start, end, q);
  }

  /** The chunks before the freed one are untouched, and the freed one
      keeps the header of the chunk it started from. */
  lemma FreePrefix(L: seq<Chunk>, k: nat)
    requires k < |L|
    ensures var a, G := FreedIndex(L, k), FreeLayout(L, k);
      a < |G| && G[a].addr == L[a].addr && G[a].state == Free &&
      forall i :: 0 <= i < a ==> G[i] == L[i]
  {
    var F := FreeForward(L, k);
    if 0 < k && L[k - 1].state == Free {
      assert F[k - 1] == L[k - 1];
    }
  }

  /** A valid hint at or below chunk a's header is the header of some chunk
      q <= a, and every chunk before q is ALLOCATED. */
  lemma HintBelow(L: seq<Chunk>, start: nat, end: nat, f: nat, a: nat) returns (q: nat)
    requires Tiles(L, start, end) && a < |L| && HintOk(L, f) && f <= L[a].addr
    ensures q <= a && L[q].addr == f
    ensures forall i :: 0 <= i < q ==> L[i].state == Allocated
  {
    q := Locate(L, f);
    if q > a {
      AscendingPair(L, start, end, a, q);
    }
    HintPrefix(L, start, end, q);
  }

  /** Freeing an already FREE chunk of a chain without adjacent FREE chunks
      changes nothing, and leaves a valid hint where it was. */
  lemma DoubleFree(L: seq<Chunk>, start: nat, end: nat, k: nat, f: nat)
    requires Tiles(L, start, end) && NoAdjacentFree(L) && HintOk(L, f)
    requires k < |L| && L[k].state == Free
    ensures FreeLayout(L, k) == L
    ensures FreedIndex(L, k) == k && f <= L[k].addr
  {
    assert SetState(L, k, Free) == L;
    FreeNeighbours(L, k);
  }

  /** Re-marking a FREE chunk ALLOCATED and freeing it again gives back the
      chain. */
  lemma FreeUndoesMark(L: seq<Chunk>, j: nat)
    requires NoAdjacentFree(L) && j < |L| && L[j].state == Free
    ensures FreeLayout(SetState(L, j, Allocated), j) == L
  {
    FreeNeighbours(L, j);
    var R := SetState(L, j, Allocated);
    assert SetState(R, j, Free) == L;
  }

  /** Splitting a FREE chunk and freeing its first part merges the parts
      back. */
  lemma FreeUndoesSplit(L: seq<Chunk>, j: nat, needed: nat)
    requires NoAdjacentFree(L) && j < |L| && L[j].state == Free && needed <= L[j].size
    ensures FreeLayout(SplitLayout(L, j, needed), j) == L
  {
    FreeNeighbours(L, j);
    var R := SplitLayout(L, j, needed);
    SplitAt(L, j, needed);
    var M := SetState(R, j, Free);
    var G := MergeLayout(M, j);
    assert |G| == |L|;
    forall i | 0 <= i < |L|
      ensures G[i] == L[i]
    {
      if j < i {
        assert G[i] == M[i + 1] == R[i + 1];
      }
    }
  }

  /** free of the pointer malloc returned restores the chain malloc
      started from: the chunk taken whole is re-marked FREE, and a split
      chunk's remainder is merged back. */
  lemma MallocFreeRoundTrip(L: seq<Chunk>, start: nat, end: nat, h: nat, size: nat, fullScan: bool)
    requires Tiles(L, start, end) && NoAdjacentFree(L) && h < |L|
    requires Choose(L, h, Needed(size), fullScan).Take?
    ensures var p := Choose(L, h, Needed(size), fullScan);
      var R := AllocLayout(L, p, Needed(size));
      Returned(L, p) - MCB_SIZE in Addrs(R) &&
      Locate(R, Returned(L, p) - MCB_SIZE) == p.index &&
      FreeLayout(R, p.index) == L
  {
    var needed := Needed(size);
    var p := Choose(L, h, needed, fullScan);
    var R := AllocLayout(L, p, needed);
    AllocTiles(L, start, end, h, size, fullScan);
    AllocPrefix(L, h, needed, fullScan);
    LocateAt(R, start, end, p.index);
    if p.split {
      FreeUndoesSplit(L, p.index, needed);
    } else {
      FreeUndoesMark(L, p.index);
    }
  }
}

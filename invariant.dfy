/** The heap invariant stated header by header, as a walk along the chain
    would check it, and proved equal to the whole-chain statements of
    ChunkLayout and ChainRewrites. The heap's methods carry this form: it
    states one header at a time, so a method that needs the facts about
    header i asks for them with HeaderAt. */
module HeapInvariant {
  import opened MemoryControlBlock
  import opened ChunkLayout
  import opened ChainRewrites
  import opened AllocSpec
  import opened FreeSpec
  import opened Stats

  /** The header addresses of L, as a set. */
  function AddrSet(L: seq<Chunk>): set<nat>
  {
    if L == [] then {} else AddrSet(L[..|L| - 1]) + {L[|L| - 1].addr}
  }

  /** Header i is 4-aligned, its size fits the 24-bit field, its header and
      its recorded size fit before the next header (or the end of the pool),
      and the map holds it with its type, its size and the `next` and
      `prev` of an address-ordered circular chain. */
  ghost predicate HeaderOk(m: map<nat, Mcb>, L: seq<Chunk>, end: nat, i: nat)
    requires i < |L|
  {
    L[i].addr % HEAP_ALIGN == 0 && L[i].size < SIZE_LIMIT &&
    L[i].addr + MCB_SIZE <= Limit(L, i, end) && L[i].addr + L[i].size <= Limit(L, i, end) &&
    L[i].addr in m && m[L[i].addr] == Mcb(NextAddr(L, i), PrevAddr(L, i), L[i].state, L[i].size)
  }

  /** Every header from i to the last is well formed. */
  ghost predicate HeadersFrom(m: map<nat, Mcb>, L: seq<Chunk>, end: nat, i: nat)
    decreases |L| - i
  {
    i < |L| ==> HeaderOk(m, L, end, i) && HeadersFrom(m, L, end, i + 1)
  }

  /** The chain of a pool [start, end): it begins at `start`, the map holds
      exactly its headers, every header is well formed, and the recorded
      sizes add up to the pool less one header. */
  ghost predicate Formed(m: map<nat, Mcb>, L: seq<Chunk>, start: nat, end: nat)
  {
    |L| > 0 && L[0].addr == start && 0 < start &&
    start + SumSizes(L) + MCB_SIZE == end && SumSizes(L) < SIZE_LIMIT &&
    m.Keys == AddrSet(L) && HeadersFrom(m, L, end, 0)
  }

  /** Chunk i and its successor are not both FREE, and chunk i is ALLOCATED
      if it lies below the hint f. */
  ghost predicate TidyAt(L: seq<Chunk>, f: nat, i: nat)
    requires i < |L|
  {
    (i + 1 < |L| ==> !(L[i].state == Free && L[i + 1].state == Free)) &&
    (L[i].addr < f ==> L[i].state == Allocated)
  }

  /** TidyAt holds from chunk i to the last. */
  ghost predicate TidyFrom(L: seq<Chunk>, f: nat, i: nat)
    decreases |L| - i
  {
    i < |L| ==> TidyAt(L, f, i) && TidyFrom(L, f, i + 1)
  }

  /** The hint is a live header, no FREE chunk lies below it and no two
      neighbouring chunks are FREE. */
  ghost predicate Tidy(L: seq<Chunk>, f: nat)
  {
    f in AddrSet(L) && TidyFrom(L, f, 0)
  }

  // ----- the two statements agree --------------------------------------------

  /** AddrSet holds the elements of Addrs. */
  lemma {:induction false} AddrSetIs(L: seq<Chunk>)
    ensures forall a :: a in AddrSet(L) <==> a in Addrs(L)
  {
    if L != [] {
      var P := L[..|L| - 1];
      AddrSetIs(P);
      forall a | a in Addrs(L)
        ensures a in AddrSet(L)
      {
        var i :| 0 <= i < |L| && Addrs(L)[i] == a;
        if i < |P| {
          assert Addrs(P)[i] == a;
        }
      }
      forall a | a in AddrSet(L)
        ensures a in Addrs(L)
      {
        if a in AddrSet(P) {
          var i :| 0 <= i < |P| && Addrs(P)[i] == a;
          assert Addrs(L)[i] == a;
        } else {
          assert Addrs(L)[|L| - 1] == a;
        }
      }
    }
  }

  lemma {:induction false} HeadersFromAll(m: map<nat, Mcb>, L: seq<Chunk>, end: nat, i: nat)
    ensures HeadersFrom(m, L, end, i) <==> forall k :: i <= k < |L| ==> HeaderOk(m, L, end, k)
    decreases |L| - i
  {
    if i < |L| {
      HeadersFromAll(m, L, end, i + 1);
    }
  }

  lemma {:induction false} TidyFromAll(L: seq<Chunk>, f: nat, i: nat)
    ensures TidyFrom(L, f, i) <==> forall k :: i <= k < |L| ==> TidyAt(L, f, k)
    decreases |L| - i
  {
    if i < |L| {
      TidyFromAll(L, f, i + 1);
    }
  }

  /** A chain that is Formed tiles the pool and is mirrored by its map. */
  lemma FormedChain(m: map<nat, Mcb>, L: seq<Chunk>, start: nat, end: nat)
    requires Formed(m, L, start, end)
    ensures Chain(m, L, start, end)
  {
    HeadersFromAll(m, L, end, 0);
    AddrSetIs(L);
    forall i | 0 <= i < |L|
      ensures L[i].addr % HEAP_ALIGN == 0 && L[i].size < SIZE_LIMIT
      ensures L[i].addr in m && m[L[i].addr].state == L[i].state && m[L[i].addr].size == L[i].size
    {
      assert HeaderOk(m, L, end, i);
    }
    forall i, k | 0 <= i && k == i + 1 && k < |L|
      ensures L[i].addr + MCB_SIZE <= L[k].addr && L[i].addr + L[i].size <= L[k].addr
      ensures m[L[i].addr].next == L[k].addr && m[L[k].addr].prev == L[i].addr
    {
      assert HeaderOk(m, L, end, i) && HeaderOk(m, L, end, k);
    }
    assert HeaderOk(m, L, end, |L| - 1) && HeaderOk(m, L, end, 0);
    assert Aligned(L) && Gaps(L, end);
    assert Fields(m, L) && Links(m, L);
  }

  /** A tiled chain mirrored by its map is Formed. */
  lemma ChainFormed(m: map<nat, Mcb>, L: seq<Chunk>, start: nat, end: nat)
    requires Chain(m, L, start, end)
    ensures Formed(m, L, start, end)
  {
    AddrSetIs(L);
    forall k | 0 <= k < |L|
      ensures HeaderOk(m, L, end, k)
    {
      LinkAt(m, L, k);
      ChunkFits(L, start, end, k);
    }
    HeadersFromAll(m, L, end, 0);
  }

  /** Formed is Chain. */
  lemma FormedIff(m: map<nat, Mcb>, L: seq<Chunk>, start: nat, end: nat)
    ensures Formed(m, L, start, end) <==> Chain(m, L, start, end)
  {
    if Formed(m, L, start, end) {
      FormedChain(m, L, start, end);
    }
    if Chain(m, L, start, end) {
      ChainFormed(m, L, start, end);
    }
  }

  /** Tidy is "no two neighbouring FREE chunks and a valid hint". */
  lemma TidyIff(L: seq<Chunk>, f: nat)
    ensures Tidy(L, f) <==> NoAdjacentFree(L) && HintOk(L, f)
  {
    TidyFromAll(L, f, 0);
    AddrSetIs(L);
    if NoAdjacentFree(L) && HintOk(L, f) {
      forall k | 0 <= k < |L|
        ensures TidyAt(L, f, k)
      {
        if k + 1 < |L| {
          assert !(L[k].state == Free && L[k + 1].state == Free);
        }
      }
    }
    if Tidy(L, f) {
      forall i | 0 <= i < |L| && L[i].addr < f
        ensures L[i].state == Allocated
      {
        assert TidyAt(L, f, i);
      }
      forall i, k | 0 <= i && k == i + 1 && k < |L|
        ensures !(L[i].state == Free && L[k].state == Free)
      {
        assert TidyAt(L, f, i);
      }
    }
  }

  // ----- what the heap's methods use -----------------------------------------

  /** The facts about header i of a Formed chain, and where `start` lies
      relative to it and to its successor. */
  lemma HeaderAt(m: map<nat, Mcb>, L: seq<Chunk>, start: nat, end: nat, i: nat)
    requires Formed(m, L, start, end) && i < |L|
    ensures HeaderOk(m, L, end, i)
    ensures 0 < i ==> start < L[i].addr
    ensures i + 1 < |L| ==> start < L[i + 1].addr
  {
    HeadersFromAll(m, L, end, 0);
    FormedChain(m, L, start, end);
    StartLowest(L, start, end);
  }

  /** init lays out one FREE chunk over the pool whose `next` and `prev` are
      itself; that chain is Formed and its only header is a valid hint. */
  lemma InitFormed(pstart: nat, sizeBytes: nat)
    requires 0 < pstart && pstart % HEAP_ALIGN == 0 && MCB_SIZE <= sizeBytes < MCB_SIZE + SIZE_LIMIT
    ensures var L := [Chunk(pstart, Free, sizeBytes - MCB_SIZE)];
      Formed(map[pstart := Mcb(pstart, pstart, Free, sizeBytes - MCB_SIZE)], L, pstart, pstart + sizeBytes) &&
      Tidy(L, pstart)
  {
    var L := [Chunk(pstart, Free, sizeBytes - MCB_SIZE)];
    var m := map[pstart := Mcb(pstart, pstart, Free, sizeBytes - MCB_SIZE)];
    assert SumSizes(L) == sizeBytes - MCB_SIZE by {
      SumSizesPair(L[0], L[0]);
    }
    assert AddrSet(L) == {pstart} by {
      assert L[..0] == [];
    }
    assert HeaderOk(m, L, pstart + sizeBytes, 0);
    assert HeadersFrom(m, L, pstart + sizeBytes, 1);
    assert TidyAt(L, pstart, 0) && TidyFrom(L, pstart, 1);
  }

  /** Splitting chunk j keeps the chain Formed. */
  lemma FormedSplit(m: map<nat, Mcb>, L: seq<Chunk>, start: nat, end: nat, j: nat, needed: nat)
    requires Formed(m, L, start, end) && j < |L|
    requires MCB_SIZE <= needed && needed % HEAP_ALIGN == 0 && needed + MCB_SIZE <= L[j].size
    ensures L[j].addr in m && needed <= m[L[j].addr].size
    ensures m[L[j].addr].next != start ==> m[L[j].addr].next in m
    ensures Formed(SplitHeaders(m, L[j].addr, needed, start), SplitLayout(L, j, needed), start, end)
  {
    FormedChain(m, L, start, end);
    LinkAt(m, L, j);
    SplitChain(m, L, start, end, j, needed);
    ChainFormed(SplitHeaders(m, L[j].addr, needed, start), SplitLayout(L, j, needed), start, end);
  }

  /** Merging chunk j with chunk j+1 keeps the chain Formed. */
  lemma FormedMerge(m: map<nat, Mcb>, L: seq<Chunk>, start: nat, end: nat, j: nat)
    requires Formed(m, L, start, end) && j + 1 < |L|
    ensures L[j].addr in m && m[L[j].addr].next == L[j + 1].addr && L[j + 1].addr in m
    ensures L[j + 1].addr != L[j].addr
    ensures m[L[j + 1].addr].next != start ==> m[L[j + 1].addr].next in m
    ensures Formed(MergeHeaders(m, L[j].addr, start), MergeLayout(L, j), start, end)
  {
    FormedChain(m, L, start, end);
    MergeChain(m, L, start, end, j);
    ChainFormed(MergeHeaders(m, L[j].addr, start), MergeLayout(L, j), start, end);
  }

  /** Re-marking chunk k keeps the chain Formed. */
  lemma FormedMark(m: map<nat, Mcb>, L: seq<Chunk>, start: nat, end: nat, k: nat, s: Mark)
    requires Formed(m, L, start, end) && k < |L|
    ensures L[k].addr in m
    ensures Formed(SetMark(m, L[k].addr, s), SetState(L, k, s), start, end)
  {
    FormedChain(m, L, start, end);
    MarkChain(m, L, start, end, k, s);
    ChainFormed(SetMark(m, L[k].addr, s), SetState(L, k, s), start, end);
  }

  /** malloc leaves the chain tidy: after it takes the chunk Choose picks
      (or none), no two neighbours are FREE and HintAfter is a valid hint. */
  lemma MallocTidy(m: map<nat, Mcb>, L: seq<Chunk>, start: nat, end: nat, f: nat, size: nat, fullScan: bool)
    requires Formed(m, L, start, end) && Tidy(L, f)
    ensures Locate(L, f) < |L| && L[Locate(L, f)].addr == f
    ensures var h, needed := Locate(L, f), Needed(size);
      var p := Choose(L, h, needed, fullScan);
      (p.Take? ==> p.index < |L| && needed <= L[p.index].size) &&
      Tidy(AllocLayout(L, p, needed), HintAfter(L, h, needed, fullScan))
  {
    var h, needed := Locate(L, f), Needed(size);
    FormedChain(m, L, start, end);
    TidyIff(L, f);
    assert h < |L|;
    AllocNoAdjacentFree(L, h, needed, fullScan);
    AllocHint(L, start, end, h, size, fullScan);
    var p := Choose(L, h, needed, fullScan);
    TidyIff(AllocLayout(L, p, needed), HintAfter(L, h, needed, fullScan));
  }

  /** What free reads around the header of chunk k: both neighbours named by
      `next` and `prev` are live headers, and heap::free's two merge tests
      ("the next chunk is FREE and is not `start`", "the previous chunk is
      FREE and this one is not `start`") hold exactly when chunk k+1,
      respectively chunk k-1, exists and is FREE. */
  lemma Neighbours(m: map<nat, Mcb>, L: seq<Chunk>, start: nat, end: nat, k: nat)
    requires Formed(m, L, start, end) && k < |L|
    ensures HeaderOk(m, L, end, k)
    ensures NextAddr(L, k) in m && PrevAddr(L, k) in m
    ensures (m[NextAddr(L, k)].state == Free && NextAddr(L, k) != start) <==> (k + 1 < |L| && L[k + 1].state == Free)
    ensures (m[PrevAddr(L, k)].state == Free && L[k].addr != start) <==> (0 < k && L[k - 1].state == Free)
  {
    HeaderAt(m, L, start, end, k);
    if k + 1 < |L| {
      HeaderAt(m, L, start, end, k + 1);
    } else {
      HeaderAt(m, L, start, end, 0);
    }
    if 0 < k {
      HeaderAt(m, L, start, end, k - 1);
    }
  }

  /** free leaves the chain tidy: the pointer it accepts is the storage area
      of a live chunk k, and after chunk k is freed and coalesced, no two
      neighbours are FREE and the lower of the old hint and the freed
      chunk's header is a valid hint. */
  lemma FreeTidy(m: map<nat, Mcb>, L: seq<Chunk>, start: nat, end: nat, f: nat, pool: nat)
    requires Formed(m, L, start, end) && Tidy(L, f) && Accepts(m, start, pool)
    ensures Locate(L, pool - MCB_SIZE) < |L| && L[Locate(L, pool - MCB_SIZE)].addr == pool - MCB_SIZE
    ensures var k := Locate(L, pool - MCB_SIZE);
      var a := FreedIndex(L, k);
      Tidy(FreeLayout(L, k), if L[a].addr < f then L[a].addr else f)
  {
    FormedChain(m, L, start, end);
    TidyIff(L, f);
    AddrSetIs(L);
    var k := Locate(L, pool - MCB_SIZE);
    assert k < |L|;
    var a := FreedIndex(L, k);
    FreeNoAdjacentFree(L, k);
    FreeHint(L, start, end, k, f);
    TidyIff(FreeLayout(L, k), if L[a].addr < f then L[a].addr else f);
  }

  /** info() starts its walk at the hint, a live header; its FREE tally is
      that of the whole chain, and only the ALLOCATED chunks below the hint
      go uncounted. */
  lemma InfoStart(m: map<nat, Mcb>, L: seq<Chunk>, start: nat, end: nat, f: nat)
    requires Formed(m, L, start, end) && Tidy(L, f)
    ensures Locate(L, f) < |L| && L[Locate(L, f)].addr == f
    ensures Summarize(L[Locate(L, f)..]).free == Summarize(L).free
    ensures Summarize(L[Locate(L, f)..]).used.blocks + Locate(L, f) == Summarize(L).used.blocks
  {
    FormedChain(m, L, start, end);
    TidyIff(L, f);
    InfoFromHint(L, start, end, Locate(L, f));
  }
}

/** What heap::info reports, stated on the chain in address order: per
    chunk type, the number of blocks, the largest recorded size and the sum
    of recorded sizes. */
module Stats {
  import opened MemoryControlBlock
  import opened ChunkLayout
  import opened AllocSpec

  /** summary::info: Blocks, Block_max_size and Size of one chunk type. */
  datatype Counts = Counts(blocks: nat, blockMaxSize: nat, size: nat)

  /** summary: the tallies for ALLOCATED (`Used`) and FREE chunks. */
  datatype Summary = Summary(used: Counts, free: Counts)

  /** The summary info() starts from: all six fields zero. */
  const Empty: Summary := Summary(Counts(0, 0, 0), Counts(0, 0, 0))

  /** The tally of one chunk type. */
  function Of(r: Summary, s: Mark): Counts
  {
    if s == Free then r.free else r.used
  }

  /** One more block of the given size: count it, raise the maximum if it is
      larger, add its size. */
  function Add(c: Counts, size: nat): (r: Counts)
    ensures r.blocks == c.blocks + 1 && r.size == c.size + size
    ensures c.blockMaxSize <= r.blockMaxSize && size <= r.blockMaxSize
    ensures r.blockMaxSize == c.blockMaxSize || r.blockMaxSize == size
  {
    Counts(c.blocks + 1, if c.blockMaxSize < size then size else c.blockMaxSize, c.size + size)
  }

  /** The loop body of info(): the chunk is added to its type's tally. */
  function Tally(r: Summary, c: Chunk): (t: Summary)
    ensures Of(t, c.state) == Add(Of(r, c.state), c.size)
    ensures forall s :: s != c.state ==> Of(t, s) == Of(r, s)
  {
    if c.state == Free then r.(free := Add(r.free, c.size)) else r.(used := Add(r.used, c.size))
  }

  /** The summary of a walk over the chunks of L in order. */
  function Summarize(L: seq<Chunk>): Summary
  {
    if L == [] then Empty else Tally(Summarize(L[..|L| - 1]), L[|L| - 1])
  }

  /** The number of chunks of type s in L. */
  function CountOf(L: seq<Chunk>, s: Mark): nat
  {
    if L == [] then 0 else CountOf(L[..|L| - 1], s) + (if L[|L| - 1].state == s then 1 else 0)
  }

  // ----- lemmas --------------------------------------------------------------

  /** One more step of the walk over L[h..]: chunk i is tallied onto the
      summary of L[h..i]. */
  lemma SummarizeStep(L: seq<Chunk>, h: nat, i: nat)
    requires h <= i < |L|
    ensures Summarize(L[h..i + 1]) == Tally(Summarize(L[h..i]), L[i])
  {
    assert L[h..i + 1][..i - h] == L[h..i];
  }

  /** Every chunk is counted once, under its own type, and the two sizes add
      up to the sum of all recorded sizes. */
  lemma {:induction false} SummarizeTotals(L: seq<Chunk>)
    ensures Summarize(L).used.blocks + Summarize(L).free.blocks == |L|
    ensures Summarize(L).used.size + Summarize(L).free.size == SumSizes(L)
    ensures forall s :: Of(Summarize(L), s).blocks == CountOf(L, s)
  {
    if L != [] {
      SummarizeTotals(L[..|L| - 1]);
    }
  }

  /** The FREE tally counts exactly the FREE chunks. */
  lemma {:induction false} FreeBlocksCounted(L: seq<Chunk>)
    ensures Summarize(L).free.blocks == CountFree(L, 0, |L|)
  {
    if L != [] {
      var P := L[..|L| - 1];
      FreeBlocksCounted(P);
      CountFreePrefix(L, |L| - 1);
    }
  }

  /** Counting the FREE chunks of a prefix of L. */
  lemma {:induction false} CountFreePrefix(L: seq<Chunk>, n: nat)
    requires n <= |L|
    ensures CountFree(L[..n], 0, n) == CountFree(L, 0, n)
    decreases n
  {
    if n > 0 {
      CountFreePrefix(L[..n], n - 1);
      CountFreePrefix(L, n - 1);
      assert L[..n][..n - 1] == L[..n - 1];
    }
  }

  /** Block_max_size is the largest recorded size of the type: no chunk of
      the type is larger, some chunk of the type has exactly that size when
      there is any, and it stays zero when there is none. */
  lemma {:induction false} SummarizeMax(L: seq<Chunk>, s: Mark)
    ensures forall i :: 0 <= i < |L| && L[i].state == s ==> L[i].size <= Of(Summarize(L), s).blockMaxSize
    ensures Of(Summarize(L), s).blocks == 0 ==> Of(Summarize(L), s).blockMaxSize == 0
    ensures Of(Summarize(L), s).blocks > 0 ==>
      exists i :: 0 <= i < |L| && L[i].state == s && L[i].size == Of(Summarize(L), s).blockMaxSize
  {
    if L != [] {
      var P := L[..|L| - 1];
      SummarizeMax(P, s);
      var c := L[|L| - 1];
      assert forall i :: 0 <= i < |P| ==> L[i] == P[i];
      if c.state == s && Of(Summarize(L), s).blockMaxSize != c.size {
        var i :| 0 <= i < |P| && P[i].state == s && P[i].size == Of(Summarize(P), s).blockMaxSize;
        assert L[i] == P[i];
      } else if c.state != s && Of(Summarize(L), s).blocks > 0 {
        var i :| 0 <= i < |P| && P[i].state == s && P[i].size == Of(Summarize(P), s).blockMaxSize;
        assert L[i] == P[i];
      }
    }
  }

  /** A walk over ALLOCATED chunks only leaves the FREE tally at zero. */
  lemma {:induction false} AllocatedOnly(L: seq<Chunk>)
    requires forall i :: 0 <= i < |L| ==> L[i].state == Allocated
    ensures Summarize(L).free == Counts(0, 0, 0)
    ensures Summarize(L).used.blocks == |L|
  {
    if L != [] {
      AllocatedOnly(L[..|L| - 1]);
    }
  }

  /** Dropping a prefix of ALLOCATED chunks from a walk leaves the FREE tally
      as it was and lowers the ALLOCATED block count by the prefix length. */
  lemma {:induction false} SkipAllocated(L: seq<Chunk>, h: nat)
    requires h <= |L| && forall i :: 0 <= i < h ==> L[i].state == Allocated
    ensures Summarize(L[h..]).free == Summarize(L).free
    ensures Summarize(L[h..]).used.blocks + h == Summarize(L).used.blocks
    decreases |L|
  {
    if |L| == h {
      assert L[h..] == [];
      AllocatedOnly(L);
    } else {
      var P := L[..|L| - 1];
      SkipAllocated(P, h);
      assert L[h..][..|L[h..]| - 1] == P[h..];
    }
  }

  /** info() starts at the hint, not at `start`: since every chunk before a
      valid hint is ALLOCATED, its FREE tally is that of the whole chain,
      and only the ALLOCATED chunks before the hint go uncounted. */
  lemma InfoFromHint(L: seq<Chunk>, start: nat, end: nat, h: nat)
    requires Tiles(L, start, end) && h < |L| && HintOk(L, L[h].addr)
    ensures Summarize(L[h..]).free == Summarize(L).free
    ensures Summarize(L[h..]).used.blocks + h == Summarize(L).used.blocks
  {
    HintPrefix(L, start, end, h);
    SkipAllocated(L, h);
  }

  /** A pool of 44 bytes at address 4 after malloc(0) in either scan mode:
      the single FREE chunk is split, the hint moves to the remainder at
      16, and a walk from the hint sees no ALLOCATED chunk although the
      chain holds one. */
  lemma InfoSkipsAllocated(fullScan: bool)
    ensures var L0 := [Chunk(4, Free, 32)];
      var p := Choose(L0, 0, Needed(0), fullScan);
      var L := AllocLayout(L0, p, Needed(0));
      Tiles(L0, 4, 48) &&
      L == [Chunk(4, Allocated, 12), Chunk(16, Free, 20)] &&
      HintAfter(L0, 0, Needed(0), fullScan) == 16 &&
      Summarize(L[1..]).used.blocks == 0 && Summarize(L).used.blocks == 1
  {
    var L0 := [Chunk(4, Free, 32)];
    assert Needed(0) == 12;
    assert FirstFit(L0, 0, 12) == 0;
    assert FirstExact(L0, 1, 12) == 1;
    assert FirstExact(L0, 0, 12) == 1;
    var L := AllocLayout(L0, Choose(L0, 0, 12, fullScan), 12);
    assert L == [Chunk(4, Allocated, 12), Chunk(16, Free, 20)];
    assert L[1..] == [Chunk(16, Free, 20)];
    assert [Chunk(16, Free, 20)][..0] == [];
    assert L[..1] == [Chunk(4, Allocated, 12)];
    assert [Chunk(4, Allocated, 12)][..0] == [];
    assert CountFree(L0, 0, 1) == 1;
    assert SumSizes(L0) == 32 by { assert L0[..0] == []; }
  }
}

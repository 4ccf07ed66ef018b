/** heap<locker>: one pool carved into chunks, each an MCB header followed by
    its storage area. The headers form an address-ordered circular
    doubly-linked chain anchored at `start`; `freemem` says where allocation
    scans begin. */
module ZltigoHeap {
  import opened MemoryControlBlock
  import opened ChunkLayout
  import opened ChainRewrites
  import opened AllocSpec
  import opened FreeSpec
  import opened Stats
  import opened HeapInvariant

  class Heap {
    /** USE_FULL_SCAN, fixed for the lifetime of the heap. heap.h compiles
        it as 1 (a full scan); the class takes it as a parameter so that
        both scan modes are modelled. */
    const fullScan: bool

    /** The first header, at the base of the pool. */
    var start: nat

    /** The header where the next malloc scan begins. */
    var freemem: nat

    /** The live headers of the pool, by address. */
    var mcbs: map<nat, Mcb>

    /** The chunks in address order. */
    ghost var Blocks: seq<Chunk>

    /** One past the last byte of the pool. */
    ghost var End: nat

    /** The headers tile the pool and the map mirrors the chain. */
    ghost predicate Shaped()
      reads this
    {
      Formed(mcbs, Blocks, start, End)
    }

    /** The heap invariant: a well-formed chain, no two neighbouring FREE
        chunks, and a hint with no FREE chunk before it. */
    ghost predicate Valid()
      reads this
    {
      Shaped() && Tidy(Blocks, freemem)
    }

    /** heap(uint32_t *pool, int size_bytes): `start` and `freemem` are the
        pool base, and init lays out a single FREE chunk over the pool. */
    constructor (pool: nat, sizeBytes: int, fullScan: bool)
      requires 0 < pool && pool % HEAP_ALIGN == 0
      requires MCB_SIZE <= sizeBytes < MCB_SIZE + SIZE_LIMIT
      ensures Valid() && this.fullScan == fullScan
      ensures start == pool && freemem == pool && End == pool + sizeBytes
      ensures Blocks == [Chunk(pool, Free, sizeBytes - MCB_SIZE)]
    {
      this.fullScan := fullScan;
      start := pool;
      freemem := pool;
      mcbs := map[];
      Blocks := [];
      End := pool;
      new;
      Init(start, sizeBytes);
    }

    /** heap(uint32_t (&pool)[size_items]): as above, with the byte size
        sizeof(pool) = size_items words of HEAP_ALIGN bytes. */
    constructor FromArray(pool: nat, sizeItems: nat, fullScan: bool)
      requires 0 < pool && pool % HEAP_ALIGN == 0
      requires MCB_SIZE <= HEAP_ALIGN * sizeItems < MCB_SIZE + SIZE_LIMIT
      ensures Valid() && this.fullScan == fullScan
      ensures start == pool && freemem == pool && End == pool + HEAP_ALIGN * sizeItems
      ensures Blocks == [Chunk(pool, Free, HEAP_ALIGN * sizeItems - MCB_SIZE)]
    {
      this.fullScan := fullScan;
      start := pool;
      freemem := pool;
      mcbs := map[];
      Blocks := [];
      End := pool;
      new;
      Init(start, HEAP_ALIGN * sizeItems);
    }

    /** heap::init: the pool becomes one FREE chunk whose `next` and `prev`
        are itself and whose size is the pool less one header. */
    method Init(pstart: nat, sizeBytes: nat)
      requires pstart == start && pstart == freemem && 0 < pstart && pstart % HEAP_ALIGN == 0
      requires MCB_SIZE <= sizeBytes < MCB_SIZE + SIZE_LIMIT
      modifies this
      ensures mcbs == map[pstart := Mcb(pstart, pstart, Free, sizeBytes - MCB_SIZE)]
      ensures Blocks == [Chunk(pstart, Free, sizeBytes - MCB_SIZE)] && End == pstart + sizeBytes
      ensures start == old(start) && freemem == old(freemem)
      ensures Valid()
    {
      mcbs := map[pstart := Mcb(pstart, pstart, Free, sizeBytes - MCB_SIZE)];
      Blocks := [Chunk(pstart, Free, sizeBytes - MCB_SIZE)];
      End := pstart + sizeBytes;
      InitFormed(pstart, sizeBytes);
    }

    /** mcb::split applied to the chunk at t (chunk j of the chain): the
        first `needed` bytes stay with t, now ALLOCATED, and a new FREE header
        at t + needed takes the rest; its address is returned. */
    method Split(t: nat, needed: nat, ghost j: nat) returns (newMcb: nat)
      requires Shaped() && j < |Blocks| && Blocks[j].addr == t
      requires MCB_SIZE <= needed && needed % HEAP_ALIGN == 0 && needed + MCB_SIZE <= Blocks[j].size
      modifies this
      ensures newMcb == t + needed
      ensures t in old(mcbs) && needed <= old(mcbs)[t].size
      ensures old(mcbs)[t].next != start ==> old(mcbs)[t].next in old(mcbs)
      ensures mcbs == SplitHeaders(old(mcbs), t, needed, start)
      ensures Blocks == SplitLayout(old(Blocks), j, needed) && Shaped()
      ensures start == old(start) && freemem == old(freemem) && End == old(End)
    {
      FormedSplit(mcbs, Blocks, start, End, j, needed);
      newMcb := t + needed;
      mcbs := SplitHeaders(mcbs, t, needed, start);
      Blocks := SplitLayout(Blocks, j, needed);
    }

    /** The write of a header's type field, as malloc (ALLOCATED) and free
        (FREE) do it in place, to the header at t (chunk k of the chain). */
    method SetType(t: nat, ghost k: nat, s: Mark)
      requires Shaped() && k < |Blocks| && Blocks[k].addr == t
      modifies this
      ensures t in old(mcbs)
      ensures mcbs == SetMark(old(mcbs), t, s)
      ensures Blocks == SetState(old(Blocks), k, s) && Shaped()
      ensures start == old(start) && freemem == old(freemem) && End == old(End)
    {
      FormedMark(mcbs, Blocks, start, End, k, s);
      mcbs := SetMark(mcbs, t, s);
      Blocks := SetState(Blocks, k, s);
    }

    /** mcb::merge_with_next applied to the chunk at t (chunk j of the
        chain): t absorbs chunk j+1, whose header disappears. */
    method MergeWithNext(t: nat, ghost j: nat)
      requires Shaped() && j + 1 < |Blocks| && Blocks[j].addr == t
      modifies this
      ensures t in old(mcbs) && old(mcbs)[t].next in old(mcbs) && old(mcbs)[t].next != t
      ensures old(mcbs)[old(mcbs)[t].next].next != start ==> old(mcbs)[old(mcbs)[t].next].next in old(mcbs)
      ensures mcbs == MergeHeaders(old(mcbs), t, start)
      ensures Blocks == MergeLayout(old(Blocks), j) && Shaped()
      ensures start == old(start) && freemem == old(freemem) && End == old(End)
    {
      FormedMerge(mcbs, Blocks, start, End, j);
      mcbs := MergeHeaders(mcbs, t, start);
      Blocks := MergeLayout(Blocks, j);
    }

    /** The for(;;) loop of heap::malloc up to the point where it breaks:
        the walk from `freemem` along `next`, counting FREE chunks in
        free_cnt and, with the full scan, remembering the first fitting
        chunk in xptr. It reports the chunk to take (`found`), whether it is
        taken whole, and the final free_cnt. */
    method Scan(needed: nat, ghost h: nat) returns (tptr: nat, freeCnt: nat, found: bool, whole: bool, ghost j: nat)
      requires Shaped() && h < |Blocks| && Blocks[h].addr == freemem
      ensures found <==> Choose(Blocks, h, needed, fullScan).Take?
      ensures found ==> Choose(Blocks, h, needed, fullScan) == Take(j, !whole) && tptr == Blocks[j].addr
      ensures freeCnt == ScanCount(Blocks, h, needed, fullScan)
    {
      ghost var L := Blocks;
      var xptr: nat := 0;
      freeCnt := 0;
      tptr := freemem;
      found, whole, j := false, false, 0;
      ghost var i := h;
      ghost var xi: nat := 0;
      while true
        invariant h <= i < |L| && tptr == L[i].addr
        invariant forall k :: h <= k < i ==> !ExactFit(L[k], needed)
        invariant !fullScan ==> xptr == 0
        invariant xptr == 0 ==> (forall k :: h <= k < i ==> !Fits(L[k], needed))
        invariant xptr == 0 ==> freeCnt == CountFree(L, h, i)
        invariant xptr != 0 ==>
          h <= xi < i && xptr == L[xi].addr &&
          Fits(L[xi], needed) && !ExactFit(L[xi], needed) &&
          (forall k :: h <= k < xi ==> !Fits(L[k], needed)) && freeCnt == CountFree(L, h, xi + 1)
        decreases |L| - i
      {
        HeaderAt(mcbs, L, start, End, i);
        assert CountFree(L, h, i + 1) == CountFree(L, h, i) + (if L[i].state == Free then 1 else 0);
        if mcbs[tptr].state == Free {
          if !fullScan {
            freeCnt := freeCnt + 1;
          }
          if mcbs[tptr].size >= needed && mcbs[tptr].size <= needed + MCB_SIZE + HEAP_ALIGN {
            ScanStopsAtExact(L, h, needed, fullScan, i, if xptr == 0 then i else xi);
            if fullScan {
              freeCnt := freeCnt + 1;
            }
            found, whole, j := true, true, i;
            return;
          } else {
            if fullScan {
              if xptr == 0 {
                if mcbs[tptr].size >= needed {
                  xptr := tptr;
                  xi := i;
                }
                freeCnt := freeCnt + 1;
              }
            } else if mcbs[tptr].size >= needed {
              ScanSplitsFirst(L, h, needed, i);
              found, whole, j := true, false, i;
              return;
            }
          }
        }
        assert xptr == 0 ==> freeCnt == CountFree(L, h, i + 1);
        tptr := mcbs[tptr].next;
        if tptr == start {
          if fullScan && xptr != 0 {
            ScanSplitsRemembered(L, h, needed, xi);
            tptr := xptr;
            found, whole, j := true, false, xi;
            return;
          } else {
            ScanFindsNothing(L, h, needed, fullScan);
            return;
          }
        }
        i := i + 1;
      }
    }

    /** heap::malloc: rounds the request plus a header up to HEAP_ALIGN, scans
        from `freemem` for a FREE chunk that holds it, marks an exact fit
        ALLOCATED or splits any other, and returns the taken chunk's storage
        area, or 0 when no chunk fits. When the scan met no FREE chunk before
        the taken one, `freemem` moves to the taken chunk's successor. */
    method Malloc(size: nat) returns (ptr: nat)
      requires Valid()
      modifies this
      ensures Valid() && start == old(start) && End == old(End)
      ensures Locate(old(Blocks), old(freemem)) < |old(Blocks)|
      ensures var L := old(Blocks);
        var p := Choose(L, Locate(L, old(freemem)), Needed(size), fullScan);
        p.Take? ==> p.index < |L| && Needed(size) <= L[p.index].size
      ensures var L := old(Blocks);
        var h := Locate(L, old(freemem));
        var needed := Needed(size);
        var p := Choose(L, h, needed, fullScan);
        Blocks == AllocLayout(L, p, needed) &&
        ptr == Returned(L, p) &&
        freemem == HintAfter(L, h, needed, fullScan)
      ensures ptr == 0 ==> mcbs == old(mcbs) && Blocks == old(Blocks) && freemem == old(freemem)
    {
      ghost var L, h := Blocks, Locate(Blocks, freemem);
      var needed := Needed(size);
      MallocTidy(mcbs, L, start, End, freemem, size, fullScan);
      var tptr, freeCnt, found, whole, j := Scan(needed, h);
      if found {
        if whole {
          SetType(tptr, j, Allocated);
        } else {
          var _ := Split(tptr, needed, j);
        }
        ptr := Pool(tptr);
        if freeCnt == 1 {
          HeaderAt(mcbs, Blocks, start, End, j);
          freemem := mcbs[tptr].next;
        }
      } else {
        ptr := 0;
      }
    }

    /** heap::free: a pointer that fails its checks (null,
        misaligned, no live header in front of it, a `prev` that does not
        point back at it, below `start`) is ignored. Otherwise its chunk is
        marked FREE, merged with a FREE successor other than `start`, merged
        into a FREE predecessor unless it is `start`, and `freemem` moves
        down to the freed chunk if that lies below it. */
    method Release(pool: nat)
      requires Valid()
      modifies this
      ensures Valid() && start == old(start) && End == old(End)
      ensures !Accepts(old(mcbs), start, pool) ==>
        mcbs == old(mcbs) && Blocks == old(Blocks) && freemem == old(freemem)
      ensures Accepts(old(mcbs), start, pool) ==>
        Locate(old(Blocks), pool - MCB_SIZE) < |old(Blocks)|
      ensures Accepts(old(mcbs), start, pool) ==>
        var L := old(Blocks);
        var k := Locate(L, pool - MCB_SIZE);
        var a := FreedIndex(L, k);
        Blocks == FreeLayout(L, k) &&
        freemem == if L[a].addr < old(freemem) then L[a].addr else old(freemem)
    {
      if pool == 0 || pool % HEAP_ALIGN != 0 {
        return;
      }
      if pool < MCB_SIZE || pool - MCB_SIZE !in mcbs {
        return;
      }
      var tptr := pool - MCB_SIZE;
      var xptr := mcbs[tptr].prev;
      if (xptr != tptr && (xptr !in mcbs || mcbs[xptr].next != tptr)) || pool < start {
        return;
      }
      ghost var L, k := Blocks, Locate(Blocks, tptr);
      FreeOrigin(pool);
      tptr := Coalesce(tptr, k);
      if tptr < freemem {
        freemem := tptr;
      }
    }

    /** The body of heap::free once the pointer is accepted: chunk k is
        marked FREE, merged with a FREE successor that is not `start`, and
        then into a FREE predecessor when k is not `start`; the result is
        the header of the chunk that now holds the freed storage. */
    method Coalesce(t: nat, ghost k: nat) returns (u: nat)
      requires Shaped() && k < |Blocks| && Blocks[k].addr == t
      modifies this
      ensures Shaped() && start == old(start) && End == old(End) && freemem == old(freemem)
      ensures Blocks == FreeLayout(old(Blocks), k)
      ensures u == old(Blocks)[FreedIndex(old(Blocks), k)].addr
    {
      ghost var L := Blocks;
      SetType(t, k, Free);
      NeighboursOf(k);
      var x := mcbs[t].next;
      if mcbs[x].state == Free && x != start {
        MergeWithNext(t, k);
      }
      NeighboursOf(k);
      x := mcbs[t].prev;
      u := t;
      if mcbs[x].state == Free && t != start {
        MergeWithNext(x, k - 1);
        u := x;
      }
    }

    /** The facts about header i of the chain. */
    lemma HeaderOf(i: nat)
      requires Shaped() && i < |Blocks|
      ensures HeaderOk(mcbs, Blocks, End, i)
      ensures 0 < i ==> start < Blocks[i].addr
      ensures i + 1 < |Blocks| ==> start < Blocks[i + 1].addr
    {
      HeaderAt(mcbs, Blocks, start, End, i);
    }

    /** Header k and what its `next` and `prev` neighbours say about the
        types of chunks k + 1 and k - 1. */
    lemma NeighboursOf(k: nat)
      requires Shaped() && k < |Blocks|
      ensures HeaderOk(mcbs, Blocks, End, k)
      ensures NextAddr(Blocks, k) in mcbs && PrevAddr(Blocks, k) in mcbs
      ensures (mcbs[NextAddr(Blocks, k)].state == Free && NextAddr(Blocks, k) != start) <==>
        (k + 1 < |Blocks| && Blocks[k + 1].state == Free)
      ensures (mcbs[PrevAddr(Blocks, k)].state == Free && Blocks[k].addr != start) <==>
        (0 < k && Blocks[k - 1].state == Free)
    {
      Neighbours(mcbs, Blocks, start, End, k);
    }

    /** A pointer free accepts is the storage area of a live chunk, and
        freeing that chunk leaves the chain tidy. */
    lemma FreeOrigin(pool: nat)
      requires Valid() && Accepts(mcbs, start, pool)
      ensures Locate(Blocks, pool - MCB_SIZE) < |Blocks| && Blocks[Locate(Blocks, pool - MCB_SIZE)].addr == pool - MCB_SIZE
      ensures var k := Locate(Blocks, pool - MCB_SIZE);
        var a := FreedIndex(Blocks, k);
        Tidy(FreeLayout(Blocks, k), if Blocks[a].addr < freemem then Blocks[a].addr else freemem)
    {
      FreeTidy(mcbs, Blocks, start, End, freemem, pool);
    }

    /** Where info() starts and what skipping the chunks below the hint
        leaves out. */
    lemma InfoOrigin()
      requires Valid()
      ensures Locate(Blocks, freemem) < |Blocks| && Blocks[Locate(Blocks, freemem)].addr == freemem
      ensures Summarize(Blocks[Locate(Blocks, freemem)..]).free == Summarize(Blocks).free
      ensures Summarize(Blocks[Locate(Blocks, freemem)..]).used.blocks + Locate(Blocks, freemem) == Summarize(Blocks).used.blocks
    {
      InfoStart(mcbs, Blocks, start, End, freemem);
    }

    /** heap::info: a walk along `next` from `freemem` back to `start` that
        tallies every chunk it meets under its type. The ALLOCATED chunks
        below the hint are not met. */
    method Info() returns (r: Summary)
      requires Valid()
      ensures Locate(Blocks, freemem) < |Blocks|
      ensures r == Summarize(Blocks[Locate(Blocks, freemem)..])
      ensures r.free == Summarize(Blocks).free
      ensures r.used.blocks + Locate(Blocks, freemem) == Summarize(Blocks).used.blocks
    {
      InfoOrigin();
      r := WalkFrom(freemem, Locate(Blocks, freemem));
    }

    /** info() with its walk begun at `start`: every chunk of the pool is
        tallied. */
    method InfoAll() returns (r: Summary)
      requires Shaped()
      ensures r == Summarize(Blocks)
    {
      HeaderOf(0);
      r := WalkFrom(start, 0);
      assert Blocks[0..] == Blocks;
    }

    /** The do-while loop of heap::info, begun at the header `from` of
        chunk h: it tallies chunks h, h + 1, ... up to the last one, whose
        `next` is `start`. */
    method WalkFrom(from: nat, ghost h: nat) returns (r: Summary)
      requires Shaped() && h < |Blocks| && Blocks[h].addr == from
      ensures r == Summarize(Blocks[h..])
    {
      ghost var L := Blocks;
      r := Empty;
      var pBlock := from;
      ghost var i := h;
      assert L[h..h] == [];
      while true
        invariant h <= i < |L| && pBlock == L[i].addr
        invariant r == Summarize(L[h..i])
        decreases |L| - i
      {
        HeaderOf(i);
        SummarizeStep(L, h, i);
        var c := mcbs[pBlock];
        var info := if c.state == Free then r.free else r.used;
        info := Counts(info.blocks + 1, if info.blockMaxSize < c.size then c.size else info.blockMaxSize, info.size + c.size);
        r := if c.state == Free then r.(free := info) else r.(used := info);
        assert r == Summarize(L[h..i + 1]);
        pBlock := c.next;
        if pBlock == start {
          assert i + 1 == |L|;
          assert L[h..i + 1] == L[h..];
          return;
        }
        assert i + 1 < |L| && pBlock == L[i + 1].addr;
        i := i + 1;
      }
    }
  }
}

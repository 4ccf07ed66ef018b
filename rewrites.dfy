/** mcb::split and mcb::merge_with_next as writes to the header map, and the
    proofs that each write keeps the map an exact picture of the rewritten
    chain. */
module ChainRewrites {
  import opened MemoryControlBlock
  import opened ChunkLayout

  /** mcb::split(needed) on the header map, in the order mcb::split writes:
      the new header at t + needed takes t's old `next`, points back at t,
      is FREE and gets the rest of t's size; t then points at it, is
      ALLOCATED with size `needed`; last, the old successor's `prev` is
      repointed at the new header unless that successor is `start`. */
  function SplitHeaders(m: map<nat, Mcb>, t: nat, needed: nat, start: nat): (r: map<nat, Mcb>)
    requires t in m && needed <= m[t].size
    requires m[t].next != start ==> m[t].next in m
    ensures forall a :: a in r <==> a in m || a == t + needed
    ensures forall a :: a in m && a != t && a != t + needed && a != m[t].next ==> r[a] == m[a]
  {
    var c := m[t];
    var n := t + needed;
    var m1 := m[n := Mcb(c.next, t, Free, c.size - needed)][t := Mcb(n, c.prev, Allocated, needed)];
    if c.next != start then m1[c.next := m1[c.next].(prev := n)] else m1
  }

  /** Writing a chunk's type field, as free and malloc do in place. */
  function SetMark(m: map<nat, Mcb>, t: nat, s: Mark): (r: map<nat, Mcb>)
    requires t in m
    ensures forall a :: a in r <==> a in m
    ensures r[t] == Mcb(m[t].next, m[t].prev, s, m[t].size)
    ensures forall a :: a in m && a != t ==> r[a] == m[a]
  {
    m[t := m[t].(state := s)]
  }

  /** mcb::merge_with_next on the header map: t absorbs its successor o,
      adding o's size to its own and taking o's `next`; the new successor's
      `prev` is repointed at t unless it is `start`. o's header is no longer
      part of the chain, so its key leaves the map. */
  function MergeHeaders(m: map<nat, Mcb>, t: nat, start: nat): (r: map<nat, Mcb>)
    requires t in m && m[t].next in m && m[t].next != t
    requires m[m[t].next].next != start ==> m[m[t].next].next in m
    ensures forall a :: a in r <==> a in m && a != m[t].next
    ensures forall a :: a in r && a != t && a != m[m[t].next].next ==> r[a] == m[a]
  {
    var o := m[t].next;
    var c := m[t];
    var m1 := m[t := c.(size := c.size + m[o].size, next := m[o].next)];
    var m2 := if m[o].next != start then m1[m[o].next := m1[m[o].next].(prev := t)] else m1;
    m2 - {o}
  }

  // ----- split ---------------------------------------------------------------

  /** What a split needs to know about the chain around chunk j: where the
      other headers lie relative to the split point, and what j's header
      holds. */
  ghost predicate SplitSite(m: map<nat, Mcb>, L: seq<Chunk>, j: nat, needed: nat)
  {
    j < |L| && 0 < needed <= L[j].size &&
    (forall i :: 0 <= i < j ==> L[i].addr < L[j].addr) &&
    (forall i :: j < i < |L| ==> L[j].addr + needed < L[i].addr) &&
    (forall i :: 0 < i < |L| ==> L[0].addr < L[i].addr) &&
    L[j].addr in m && m[L[j].addr].size == L[j].size &&
    m[L[j].addr].next == NextAddr(L, j) && m[L[j].addr].prev == PrevAddr(L, j) &&
    (m[L[j].addr].next != L[0].addr ==> m[L[j].addr].next in m)
  }

  /** A chunk of a well-formed chain with room for a header after `needed`
      bytes is a split site. */
  lemma SplitSiteOf(m: map<nat, Mcb>, L: seq<Chunk>, end: nat, j: nat, needed: nat)
    requires Represents(m, L) && Tiles(L, L[0].addr, end) && j < |L|
    requires 0 < needed && needed + MCB_SIZE <= L[j].size
    ensures SplitSite(m, L, j, needed)
  {
    Around(L, L[0].addr, end, j, needed);
    LinkAt(m, L, j);
  }

  lemma SplitKeys(m: map<nat, Mcb>, L: seq<Chunk>, j: nat, needed: nat)
    requires Keys(m, L) && SplitSite(m, L, j, needed)
    ensures Keys(SplitHeaders(m, L[j].addr, needed, L[0].addr), SplitLayout(L, j, needed))
  {
    var r := SplitHeaders(m, L[j].addr, needed, L[0].addr);
    var A := Addrs(L);
    SplitAddrs(L, j, needed);
    assert A == A[..j + 1] + A[j + 1..];
    forall a
      ensures a in r <==> a in Addrs(SplitLayout(L, j, needed))
    {
      assert a in A <==> a in A[..j + 1] || a in A[j + 1..];
    }
  }

  lemma SplitFields(m: map<nat, Mcb>, L: seq<Chunk>, j: nat, needed: nat)
    requires Fields(m, L) && SplitSite(m, L, j, needed)
    ensures Fields(SplitHeaders(m, L[j].addr, needed, L[0].addr), SplitLayout(L, j, needed))
  {
    var r := SplitHeaders(m, L[j].addr, needed, L[0].addr);
    var R := SplitLayout(L, j, needed);
    SplitAt(L, j, needed);
    forall i | 0 <= i < |R|
      ensures R[i].addr in r && r[R[i].addr].state == R[i].state && r[R[i].addr].size == R[i].size
    {
      if j + 1 < i {
        assert R[i] == L[i - 1];
      }
    }
  }

  /** One pair of neighbours in the split chain is linked both ways. */
  lemma SplitLinkPair(m: map<nat, Mcb>, L: seq<Chunk>, j: nat, needed: nat, i: nat)
    requires Fields(m, L) && Links(m, L) && SplitSite(m, L, j, needed)
    requires i + 1 < |SplitLayout(L, j, needed)|
    ensures var r := SplitHeaders(m, L[j].addr, needed, L[0].addr);
      var R := SplitLayout(L, j, needed);
      R[i].addr in r && R[i + 1].addr in r &&
      r[R[i].addr].next == R[i + 1].addr && r[R[i + 1].addr].prev == R[i].addr
  {
    var R := SplitLayout(L, j, needed);
    var k := i + 1;
    SplitAt(L, j, needed);
    if k < j {
      assert m[L[i].addr].next == L[k].addr && m[L[k].addr].prev == L[i].addr;
    } else if k == j {
      assert m[L[i].addr].next == L[j].addr;
    } else if k == j + 2 {
      assert R[k] == L[j + 1];
    } else if k > j + 2 {
      assert R[i] == L[i - 1] && R[k] == L[k - 1];
      assert m[L[i - 1].addr].next == L[k - 1].addr && m[L[k - 1].addr].prev == L[i - 1].addr;
    }
  }

  lemma SplitLinks(m: map<nat, Mcb>, L: seq<Chunk>, j: nat, needed: nat)
    requires Fields(m, L) && Links(m, L) && SplitSite(m, L, j, needed)
    requires Fields(SplitHeaders(m, L[j].addr, needed, L[0].addr), SplitLayout(L, j, needed))
    ensures Links(SplitHeaders(m, L[j].addr, needed, L[0].addr), SplitLayout(L, j, needed))
  {
    var r := SplitHeaders(m, L[j].addr, needed, L[0].addr);
    var R := SplitLayout(L, j, needed);
    forall i, k | 0 <= i && k == i + 1 && k < |R|
      ensures r[R[i].addr].next == R[k].addr && r[R[k].addr].prev == R[i].addr
    {
      SplitLinkPair(m, L, j, needed, i);
    }
    SplitAt(L, j, needed);
    if j + 1 < |L| {
      assert R[|R| - 1] == L[|L| - 1];
    }
  }

  /** After mcb::split the header map is an exact picture of the split
      chain: the new header is FREE with the remaining size, linked between
      t and t's old successor, and every other header is as it was. */
  lemma SplitRepresents(m: map<nat, Mcb>, L: seq<Chunk>, end: nat, j: nat, needed: nat)
    requires Represents(m, L) && Tiles(L, L[0].addr, end) && j < |L|
    requires 0 < needed && needed + MCB_SIZE <= L[j].size
    ensures L[j].addr in m && m[L[j].addr].size == L[j].size
    ensures m[L[j].addr].next != L[0].addr ==> m[L[j].addr].next in m
    ensures Represents(SplitHeaders(m, L[j].addr, needed, L[0].addr), SplitLayout(L, j, needed))
  {
    SplitSiteOf(m, L, end, j, needed);
    SplitKeys(m, L, j, needed);
    SplitFields(m, L, j, needed);
    SplitLinks(m, L, j, needed);
  }

  // ----- merge ---------------------------------------------------------------

  /** What a merge of chunk j with chunk j+1 needs to know: the order of the
      headers around the pair, and what the pair's headers hold. */
  ghost predicate MergeSite(m: map<nat, Mcb>, L: seq<Chunk>, j: nat)
  {
    j + 1 < |L| &&
    (forall i :: 0 <= i < j ==> L[i].addr < L[j].addr) &&
    L[j].addr < L[j + 1].addr &&
    (forall i :: j + 1 < i < |L| ==> L[j + 1].addr < L[i].addr) &&
    (forall i :: 0 < i < |L| ==> L[0].addr < L[i].addr) &&
    L[j].addr in m && L[j + 1].addr in m &&
    m[L[j].addr].next == L[j + 1].addr && m[L[j].addr].prev == PrevAddr(L, j) &&
    m[L[j + 1].addr].next == NextAddr(L, j + 1) && m[L[j + 1].addr].size == L[j + 1].size &&
    (NextAddr(L, j + 1) != L[0].addr ==> NextAddr(L, j + 1) in m)
  }

  /** Any two neighbouring chunks of a well-formed chain form a merge site. */
  lemma MergeSiteOf(m: map<nat, Mcb>, L: seq<Chunk>, end: nat, j: nat)
    requires Represents(m, L) && Tiles(L, L[0].addr, end) && j + 1 < |L|
    ensures MergeSite(m, L, j)
  {
    var s := L[0].addr;
    forall i | 0 <= i < j
      ensures L[i].addr < L[j].addr
    {
      AscendingPair(L, s, end, i, j);
    }
    AscendingPair(L, s, end, j, j + 1);
    forall i | j + 1 < i < |L|
      ensures L[j + 1].addr < L[i].addr
    {
      AscendingPair(L, s, end, j + 1, i);
    }
    forall i | 0 < i < |L|
      ensures s < L[i].addr
    {
      AscendingPair(L, s, end, 0, i);
    }
    LinkAt(m, L, j);
    LinkAt(m, L, j + 1);
  }

  lemma MergeKeys(m: map<nat, Mcb>, L: seq<Chunk>, j: nat)
    requires Keys(m, L) && MergeSite(m, L, j)
    ensures Keys(MergeHeaders(m, L[j].addr, L[0].addr), MergeLayout(L, j))
  {
    var r := MergeHeaders(m, L[j].addr, L[0].addr);
    var A := Addrs(L);
    MergeAddrs(L, j);
    assert A == A[..j + 1] + [L[j + 1].addr] + A[j + 2..];
    forall a
      ensures a in r <==> a in Addrs(MergeLayout(L, j))
    {
      assert a in A <==> a in A[..j + 1] || a == L[j + 1].addr || a in A[j + 2..];
      if a in A[..j + 1] {
        var i :| 0 <= i < j + 1 && A[..j + 1][i] == a;
        assert L[i].addr == a;
      }
      if a in A[j + 2..] {
        var i :| 0 <= i < |A| - (j + 2) && A[j + 2..][i] == a;
        assert L[i + j + 2].addr == a;
      }
    }
  }

  lemma MergeFields(m: map<nat, Mcb>, L: seq<Chunk>, j: nat)
    requires Fields(m, L) && MergeSite(m, L, j)
    ensures Fields(MergeHeaders(m, L[j].addr, L[0].addr), MergeLayout(L, j))
  {
    var r := MergeHeaders(m, L[j].addr, L[0].addr);
    var R := MergeLayout(L, j);
    MergeAt(L, j);
    forall i | 0 <= i < |R|
      ensures R[i].addr in r && r[R[i].addr].state == R[i].state && r[R[i].addr].size == R[i].size
    {
      if j < i {
        assert R[i] == L[i + 1];
      }
    }
  }

  /** One pair of neighbours in the merged chain is linked both ways. */
  lemma MergeLinkPair(m: map<nat, Mcb>, L: seq<Chunk>, j: nat, i: nat)
    requires Fields(m, L) && Links(m, L) && MergeSite(m, L, j)
    requires i + 1 < |MergeLayout(L, j)|
    ensures var r := MergeHeaders(m, L[j].addr, L[0].addr);
      var R := MergeLayout(L, j);
      R[i].addr in r && R[i + 1].addr in r &&
      r[R[i].addr].next == R[i + 1].addr && r[R[i + 1].addr].prev == R[i].addr
  {
    var R := MergeLayout(L, j);
    var k := i + 1;
    MergeAt(L, j);
    if k < j {
      assert m[L[i].addr].next == L[k].addr && m[L[k].addr].prev == L[i].addr;
    } else if k == j {
      assert m[L[i].addr].next == L[j].addr;
    } else if k == j + 1 {
      assert R[k] == L[j + 2];
    } else {
      assert R[i] == L[i + 1] && R[k] == L[k + 1];
      assert m[L[i + 1].addr].next == L[k + 1].addr && m[L[k + 1].addr].prev == L[i + 1].addr;
    }
  }

  lemma MergeLinks(m: map<nat, Mcb>, L: seq<Chunk>, j: nat)
    requires Fields(m, L) && Links(m, L) && MergeSite(m, L, j)
    requires Fields(MergeHeaders(m, L[j].addr, L[0].addr), MergeLayout(L, j))
    ensures Links(MergeHeaders(m, L[j].addr, L[0].addr), MergeLayout(L, j))
  {
    var r := MergeHeaders(m, L[j].addr, L[0].addr);
    var R := MergeLayout(L, j);
    forall i, k | 0 <= i && k == i + 1 && k < |R|
      ensures r[R[i].addr].next == R[k].addr && r[R[k].addr].prev == R[i].addr
    {
      MergeLinkPair(m, L, j, i);
    }
    MergeAt(L, j);
    if j + 2 < |L| {
      assert R[|R| - 1] == L[|L| - 1];
    }
  }

  /** After mcb::merge_with_next the header map is an exact picture of the
      merged chain: chunk j spans both sizes and links to the old successor
      of chunk j+1, whose header is gone. */
  lemma MergeRepresents(m: map<nat, Mcb>, L: seq<Chunk>, end: nat, j: nat)
    requires Represents(m, L) && Tiles(L, L[0].addr, end) && j + 1 < |L|
    ensures L[j].addr in m && m[L[j].addr].next == L[j + 1].addr && L[j + 1].addr in m
    ensures L[j + 1].addr != L[j].addr
    ensures m[L[j + 1].addr].next != L[0].addr ==> m[L[j + 1].addr].next in m
    ensures Represents(MergeHeaders(m, L[j].addr, L[0].addr), MergeLayout(L, j))
  {
    MergeSiteOf(m, L, end, j);
    MergeKeys(m, L, j);
    MergeFields(m, L, j);
    MergeLinks(m, L, j);
  }

  // ----- the whole chain -----------------------------------------------------

  /** A heap's state: the chunks tile the pool from `start` to `end` and the
      header map mirrors them. */
  ghost predicate Chain(m: map<nat, Mcb>, L: seq<Chunk>, start: nat, end: nat)
  {
    Tiles(L, start, end) && Represents(m, L)
  }

  /** mcb::split keeps the chain well formed: after splitting chunk j at
      `needed` bytes the new headers mirror SplitLayout. */
  lemma SplitChain(m: map<nat, Mcb>, L: seq<Chunk>, start: nat, end: nat, j: nat, needed: nat)
    requires Chain(m, L, start, end) && j < |L|
    requires MCB_SIZE <= needed && needed % HEAP_ALIGN == 0 && needed + MCB_SIZE <= L[j].size
    ensures L[j].addr in m && (m[L[j].addr].next != start ==> m[L[j].addr].next in m)
    ensures Chain(SplitHeaders(m, L[j].addr, needed, start), SplitLayout(L, j, needed), start, end)
  {
    SplitRepresents(m, L, end, j, needed);
    SplitTiles(L, start, end, j, needed);
  }

  /** mcb::merge_with_next keeps the chain well formed: after chunk j absorbs
      chunk j+1 the headers mirror MergeLayout. */
  lemma MergeChain(m: map<nat, Mcb>, L: seq<Chunk>, start: nat, end: nat, j: nat)
    requires Chain(m, L, start, end) && j + 1 < |L|
    ensures L[j].addr in m && m[L[j].addr].next == L[j + 1].addr && L[j + 1].addr in m
    ensures L[j + 1].addr != L[j].addr
    ensures m[L[j + 1].addr].next != start ==> m[L[j + 1].addr].next in m
    ensures Chain(MergeHeaders(m, L[j].addr, start), MergeLayout(L, j), start, end)
  {
    MergeRepresents(m, L, end, j);
    MergeTiles(L, start, end, j);
  }

  /** Re-marking chunk k keeps the chain well formed. */
  lemma MarkChain(m: map<nat, Mcb>, L: seq<Chunk>, start: nat, end: nat, k: nat, s: Mark)
    requires Chain(m, L, start, end) && k < |L|
    ensures L[k].addr in m
    ensures Chain(SetMark(m, L[k].addr, s), SetState(L, k, s), start, end)
  {
    SetStateRepresents(m, L, end, k, s);
    SetStateTiles(L, start, end, k, s);
  }
}

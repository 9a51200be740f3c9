/** The index only ever names pages the store holds, and allocPage is
    handed a page nobody holds, so its insertion into the index never
    clashes. */
module StoreFacts {
  import opened BufTypes
  import opened BufHash
  import opened PageFile
  import opened BufState
  import opened FlushSpec
  import opened FlushFacts
  import opened EvictSpec
  import opened EvictFacts
  import opened BufOps

  /** A store with the same pages and extents, and an index that has only
      lost entries, are still backed. */
  lemma BackedShrink(index: Index, d: Disk, index': Index, d': Disk)
    requires Backed(index, d)
    requires d'.pages.Keys == d.pages.Keys && d'.extent == d.extent
    requires forall k :: k in index' ==> k in index
    ensures Backed(index', d')
  {
    forall k | k in d'.pages
      ensures 0 <= k.1 < Extent(d', k.0)
    {
      assert k in d.pages;
    }
  }

  lemma EvictKeepsBacked(s: PoolState)
    requires Consistent(s) && Backed(s.index, s.disk)
    ensures var e := Evict(s).state; Backed(e.index, e.disk)
  {
    var e := Evict(s).state;
    EvictKeepsStore(s, (0, 0));
    EvictKeepsConsistent(s);
    BackedShrink(s.index, s.disk, e.index, e.disk);
  }

  lemma FlushKeepsBacked(s: PoolState, f: FileId)
    requires WellFormed(s) && Backed(s.index, s.disk)
    ensures var r := Flush(s, f, 0).state; Backed(r.index, r.disk)
  {
    var r := Flush(s, f, 0).state;
    FlushKeepsStoreShape(s, f, 0);
    FlushEffects(s, f, 0);
    BackedShrink(s.index, s.disk, r.index, r.disk);
  }

  /** readPage indexes a page only once the store has read it. */
  lemma ReadKeepsBacked(s: PoolState, f: FileId, p: int)
    requires Consistent(s)
    ensures var r := Read(s, f, p).state; Backed(s.index, s.disk) ==> Backed(r.index, r.disk)
  {
    if Backed(s.index, s.disk) && (Ptr(f), p) !in s.index {
      EvictKeepsBacked(s);
    }
  }

  lemma UnpinKeepsBacked(s: PoolState, f: FileId, p: int, dirty: bool)
    requires Consistent(s)
    ensures var r := Unpin(s, f, p, dirty).state; Backed(s.index, s.disk) ==> Backed(r.index, r.disk)
  {
  }

  /** disposePage drops the entry of the page it releases. */
  lemma DisposeKeepsBacked(s: PoolState, f: FileId, p: int)
    requires Consistent(s)
    ensures var r := Dispose(s, f, p).state; Backed(s.index, s.disk) ==> Backed(r.index, r.disk)
  {
    var r := Dispose(s, f, p).state;
    forall k | k in r.disk.pages && Backed(s.index, s.disk)
      ensures 0 <= k.1 < Extent(r.disk, k.0)
    {
      assert k in s.disk.pages;
    }
  }

  /** The invariant does not speak of the store. */
  lemma ConsistentIgnoresDisk(s: PoolState, d: Disk)
    requires Consistent(s)
    ensures Consistent(s.(disk := d))
  {
    var s' := s.(disk := d);
    assert s'.table == s.table && s'.index == s.index && s'.hand == s.hand;
  }

  /** Eviction after the store handed out a fresh page keeps the page
      allocated and unindexed. */
  lemma EvictAfterExtend(s: PoolState, f: FileId, p: int)
    requires Consistent(s) && Backed(s.index, s.disk)
    requires (f, p) in s.disk.pages && (Ptr(f), p) !in s.index
    ensures var e := Evict(s).state;
      Backed(e.index, e.disk) && (f, p) in e.disk.pages && (Ptr(f), p) !in e.index
  {
    EvictKeepsBacked(s);
    EvictKeepsStore(s, (f, p));
    EvictKeepsConsistent(s);
  }

  /** In a backed state, allocPage is handed a page that was not allocated
      and is not indexed, so it never fails with HASHTBLERROR; it keeps the
      state backed. */
  lemma AllocFresh(s: PoolState, f: FileId)
    requires Consistent(s)
    ensures var r := Alloc(s, f);
      Backed(s.index, s.disk) ==>
        r.status != HASHTBLERROR && Backed(r.state.index, r.state.disk) &&
        (r.status == OK ==> (f, r.pageNo) !in s.disk.pages)
  {
    var a := AllocatePage(s.disk, f);
    if Backed(s.index, s.disk) && a.0 == OK {
      var s0 := s.(disk := a.2);
      assert Backed(s0.index, s0.disk);
      ConsistentIgnoresDisk(s, a.2);
      EvictAfterExtend(s0, f, a.1);
    }
  }

  /** flushFile keeps both invariants, whichever of them held before. */
  lemma FlushKeepsInvariants(s: PoolState, f: FileId)
    requires WellFormed(s)
    ensures Consistent(s) ==> Consistent(Flush(s, f, 0).state)
    ensures var r := Flush(s, f, 0).state; Backed(s.index, s.disk) ==> Backed(r.index, r.disk)
  {
    if Consistent(s) {
      FlushKeepsConsistent(s, f);
    }
    if Backed(s.index, s.disk) {
      FlushKeepsBacked(s, f);
    }
  }
}

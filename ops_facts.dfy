/** What readPage, unPinPage, allocPage and disposePage guarantee, proved
    about their functions. */
module BufOpsFacts {
  import opened BufTypes
  import opened BufHash
  import opened PageFile
  import opened BufState
  import opened Clock
  import opened FlushSpec
  import opened EvictSpec
  import opened EvictFacts
  import opened BufOps

  /** Binding a free frame under the hand to a page that is not indexed, as
      readPage and allocPage do after a successful eviction, keeps the
      invariant whatever the frame's contents become. */
  lemma BindKeepsConsistent(s: PoolState, v: int, f: FileId, p: int, pool: seq<Page>)
    requires Consistent(s) && v == s.hand && Free(s, v) && (Ptr(f), p) !in s.index
    requires |pool| == |s.pool|
    ensures Consistent(s.(pool := pool, index := s.index[(Ptr(f), p) := v],
                          table := s.table[v := s.table[v].Set(f, p)]))
  {
    var s' := s.(pool := pool, index := s.index[(Ptr(f), p) := v],
                 table := s.table[v := s.table[v].Set(f, p)]);
    forall i | 0 <= i < |s'.table| && s'.table[i].valid
      ensures Indexed(s', i) || (i == s'.hand && Stale(s', i))
    {
      if i != v {
        assert Indexed(s, i);
      }
    }
  }

  /** readPage of a resident page: the call succeeds without reading the
      store, the frame the index names gains exactly one pin, and nothing
      else changes. */
  lemma ReadHit(s: PoolState, f: FileId, p: int)
    requires Consistent(s) && (Ptr(f), p) in s.index
    ensures var r, i := Read(s, f, p), s.index[(Ptr(f), p)];
      r.status == OK && r.frame == i && !r.counted &&
      r.state.table[i].pinCnt == s.table[i].pinCnt + 1 &&
      r.state.table[i] == s.table[i].(pinCnt := r.state.table[i].pinCnt) &&
      (forall j :: 0 <= j < |s.table| && j != i ==> r.state.table[j] == s.table[j]) &&
      r.state.pool == s.pool && r.state.index == s.index &&
      r.state.disk == s.disk && r.state.hand == s.hand
  {
  }

  /** readPage of a page that is not resident succeeds exactly when a frame
      can be evicted and the store can read the page; the disk-read counter
      goes up exactly then. The frame is then allocBuf's victim: it holds
      what the store held before the call, is indexed under the page and is
      bound by Set, and the rest of the state is the one allocBuf left. */
  lemma ReadMiss(s: PoolState, f: FileId, p: int)
    requires Consistent(s) && (Ptr(f), p) !in s.index
    ensures var r, e := Read(s, f, p), Evict(s);
      (r.status == OK <==> e.status == OK && Writable(s.disk, (f, p))) &&
      (r.counted <==> r.status == OK) &&
      (r.status == OK ==>
        r.frame == e.frame &&
        Lookup(r.state.index, (Ptr(f), p)) == Ok(r.frame) &&
        r.state.index == e.state.index[(Ptr(f), p) := r.frame] &&
        r.state.table[r.frame] == e.state.table[r.frame].Set(f, p) &&
        (forall j :: 0 <= j < |s.table| && j != r.frame ==> r.state.table[j] == e.state.table[j]) &&
        ReadPage(s.disk, f, p) == Ok(r.state.pool[r.frame]) &&
        r.state.pool == e.state.pool[r.frame := r.state.pool[r.frame]] &&
        r.state.disk == e.state.disk && r.state.hand == e.state.hand)
  {
    EvictKeepsStore(s, (f, p));
    EvictKeepsConsistent(s);
  }

  /** The weaker invariant is needed: from a state where every valid frame
      is indexed, a readPage whose eviction takes a clean frame and whose
      store read then fails leaves that frame valid but unindexed. */
  lemma ReadLeavesStaleFrame()
    ensures var s := PoolState([BufDesc(Ptr(1), 0, 0, 0, false, true, false)], [Blank],
                               map[(Ptr(1), 0) := 0],
                               Disk(map[(1, 0) := Blank, (1, 1) := Blank], map[1 := 2], [], {(1, 1)}, {}), 0);
      var r := Read(s, 1, 1).state;
      Consistent(s) && Indexed(s, 0) &&
      Read(s, 1, 1).status == UNIXERR && r.table[0].valid && Stale(r, 0) && !Indexed(r, 0)
  {
    var s := PoolState([BufDesc(Ptr(1), 0, 0, 0, false, true, false)], [Blank],
                       map[(Ptr(1), 0) := 0],
                       Disk(map[(1, 0) := Blank, (1, 1) := Blank], map[1 := 2], [], {(1, 1)}, {}), 0);
    assert ScanFrom(s.table, 0, 0) == 0;
    assert Evict(s).state.index == map[];
  }

  /** A failing readPage reports the eviction's or the store's status, never
      a clash in the index, and leaves the page unindexed and the counter
      alone; it is BUFFEREXCEEDED exactly when the page is not resident and
      every frame is pinned. */
  lemma ReadFails(s: PoolState, f: FileId, p: int)
    requires Consistent(s)
    ensures var r := Read(s, f, p);
      (r.status != OK ==>
        r.status in {BUFFEREXCEEDED, UNIXERR, BADPAGENO} && !r.counted &&
        (Ptr(f), p) !in r.state.index) &&
      (r.status == BUFFEREXCEEDED <==> (Ptr(f), p) !in s.index && AllPinned(s.table)) &&
      ((Ptr(f), p) !in s.index && Evict(s).status != OK ==> r.status == Evict(s).status) &&
      ((Ptr(f), p) !in s.index && Evict(s).status == OK && ReadPage(Evict(s).state.disk, f, p).Err? ==>
        r.status == ReadPage(Evict(s).state.disk, f, p).status)
  {
    EvictKeepsConsistent(s);
    EvictExhausted(s);
  }

  /** readPage keeps the invariant, and a frame pinned before the call
      still holds the same page and contents afterwards. */
  lemma ReadKeepsConsistent(s: PoolState, f: FileId, p: int, j: int)
    requires Consistent(s) && 0 <= j < |s.table|
    ensures Consistent(Read(s, f, p).state)
    ensures s.table[j].pinCnt > 0 ==>
      var t := Read(s, f, p).state;
      t.table[j].valid && t.table[j].Key() == s.table[j].Key() &&
      t.table[j].pinCnt >= s.table[j].pinCnt && t.pool[j] == s.pool[j]
  {
    ConsistentFacts(s, j, j);
    if (Ptr(f), p) !in s.index {
      var e := Evict(s);
      EvictKeepsConsistent(s);
      if s.table[j].pinCnt > 0 {
        EvictSparesPinned(s, j);
      }
      if e.status == OK && ReadPage(e.state.disk, f, p).Ok? {
        BindKeepsConsistent(e.state, e.frame, f, p, e.state.pool[e.frame := ReadPage(e.state.disk, f, p).value]);
      }
    }
  }

  /** unPinPage fails with HASHNOTFOUND exactly when the page is not
      resident and with PAGENOTPINNED exactly when it has no pin, changing
      nothing in either case. Otherwise the frame loses one pin, becomes
      dirty if asked and is never made clean, and nothing else changes. */
  lemma UnpinFacts(s: PoolState, f: FileId, p: int, dirty: bool)
    requires Consistent(s)
    ensures var r, k := Unpin(s, f, p, dirty), (Ptr(f), p);
      r.status in {OK, HASHNOTFOUND, PAGENOTPINNED} &&
      (r.status == HASHNOTFOUND <==> k !in s.index) &&
      (r.status == PAGENOTPINNED <==> k in s.index && s.table[s.index[k]].pinCnt == 0) &&
      (r.status != OK ==> r.state == s) &&
      (r.status == OK ==>
        var i := s.index[k];
        r.state.table[i].pinCnt + 1 == s.table[i].pinCnt &&
        r.state.table[i].dirty == (s.table[i].dirty || dirty) &&
        r.state.table[i] == s.table[i].(pinCnt := r.state.table[i].pinCnt, dirty := r.state.table[i].dirty) &&
        (forall j :: 0 <= j < |s.table| && j != i ==> r.state.table[j] == s.table[j]) &&
        r.state.pool == s.pool && r.state.index == s.index &&
        r.state.disk == s.disk && r.state.hand == s.hand)
  {
  }

  lemma UnpinKeepsConsistent(s: PoolState, f: FileId, p: int, dirty: bool)
    requires Consistent(s)
    ensures Consistent(Unpin(s, f, p, dirty).state)
  {
    var r := Unpin(s, f, p, dirty).state;
    forall i | 0 <= i < |r.table| && r.table[i].valid
      ensures Indexed(r, i) || (i == r.hand && Stale(r, i))
    {
      assert r.table[i].Key() == s.table[i].Key();
    }
  }

  /** allocPage fails with UNIXERR, touching nothing, exactly when the
      store cannot extend the file. */
  lemma AllocStoreFails(s: PoolState, f: FileId)
    requires Consistent(s)
    ensures Alloc(s, f).status == UNIXERR && Alloc(s, f).state == s <== f in s.disk.full
    ensures f !in s.disk.full ==> AllocatePage(s.disk, f).0 == OK
  {
  }

  /** Otherwise the store is extended before a frame is sought, and stays
      extended whatever happens next: the new page exists and the file's
      extent has grown by one. */
  lemma AllocExtends(s: PoolState, f: FileId)
    requires Consistent(s) && f !in s.disk.full
    ensures var d := Alloc(s, f).state.disk;
      Alloc(s, f).pageNo == Extent(s.disk, f) && (f, Extent(s.disk, f)) in d.pages &&
      Extent(d, f) == Extent(s.disk, f) + 1
  {
    var a := AllocatePage(s.disk, f);
    var s2 := s.(disk := a.2);
    EvictKeepsStore(s2, (f, 0));
    assert Alloc(s, f).state.disk == Evict(s2).state.disk;
  }

  /** A successful allocPage indexes the new page under the frame allocBuf
      handed out after the store was extended and binds that frame by Set
      (valid, clean, one pin, reference bit raised); the rest of the state
      is allocBuf's, and no frame's contents are touched: the frame keeps
      the bytes of whatever it held before. */
  lemma AllocOk(s: PoolState, f: FileId)
    requires Consistent(s) && Alloc(s, f).status == OK
    ensures var r, e := Alloc(s, f), Evict(s.(disk := AllocatePage(s.disk, f).2));
      e.status == OK && r.frame == e.frame &&
      Lookup(r.state.index, (Ptr(f), r.pageNo)) == Ok(r.frame) &&
      r.state.index == e.state.index[(Ptr(f), r.pageNo) := r.frame] &&
      r.state.table[r.frame] == e.state.table[r.frame].Set(f, r.pageNo) &&
      r.state.table[r.frame].Key() == (Ptr(f), r.pageNo) && r.state.table[r.frame].valid &&
      r.state.table[r.frame].pinCnt == 1 && !r.state.table[r.frame].dirty &&
      r.state.table[r.frame].refbit &&
      (forall j :: 0 <= j < |s.table| && j != r.frame ==> r.state.table[j] == e.state.table[j]) &&
      r.state.disk == e.state.disk && r.state.hand == e.state.hand &&
      r.state.pool == s.pool
  {
  }

  /** If the store was extended but no frame could be evicted, allocPage
      fails with the eviction's status, which is BUFFEREXCEEDED exactly when
      every frame is pinned; the new page stays allocated in the store, and
      the index gains no entry for it or any other page. */
  lemma AllocLeaks(s: PoolState, f: FileId)
    requires Consistent(s) && f !in s.disk.full
    requires Evict(s.(disk := AllocatePage(s.disk, f).2)).status != OK
    ensures var r := Alloc(s, f);
      r.status in {BUFFEREXCEEDED, UNIXERR} &&
      r.status == Evict(s.(disk := AllocatePage(s.disk, f).2)).status &&
      (r.status == BUFFEREXCEEDED <==> AllPinned(s.table)) &&
      (f, r.pageNo) in r.state.disk.pages &&
      (forall k :: k in r.state.index ==> k in s.index)
  {
    var s0 := s.(disk := AllocatePage(s.disk, f).2);
    EvictKeepsStore(s0, (f, 0));
    EvictKeepsConsistent(s0);
    EvictExhausted(s0);
  }

  lemma AllocKeepsConsistent(s: PoolState, f: FileId)
    requires Consistent(s)
    ensures Consistent(Alloc(s, f).state)
  {
    var a := AllocatePage(s.disk, f);
    if a.0 == OK {
      var e := Evict(s.(disk := a.2));
      EvictKeepsConsistent(s.(disk := a.2));
      if e.status == OK && (Ptr(f), a.1) !in e.state.index {
        BindKeepsConsistent(e.state, e.frame, f, a.1, e.state.pool);
      }
    }
  }

  /** After disposePage the page has no index entry; a resident page's
      frame is cleared even when it is pinned, and no other frame changes;
      the status is the store's, which succeeds exactly when the page can be
      released, and then releases it. */
  lemma DisposeFacts(s: PoolState, f: FileId, p: int)
    requires Consistent(s)
    ensures var r, k := Dispose(s, f, p), (Ptr(f), p);
      k !in r.state.index &&
      (forall k' :: k' in r.state.index <==> k' in s.index && k' != k) &&
      (k in s.index ==> r.state.table[s.index[k]] == s.table[s.index[k]].Clear()) &&
      (forall j :: 0 <= j < |s.table| && (k !in s.index || j != s.index[k]) ==>
        r.state.table[j] == s.table[j]) &&
      (r.status == OK <==> Writable(s.disk, (f, p))) &&
      r.status == DisposePage(s.disk, f, p).0 && r.state.disk == DisposePage(s.disk, f, p).1 &&
      (r.status != OK ==> r.status == (if (f, p) in s.disk.pages then UNIXERR else BADPAGENO)) &&
      (r.status == OK ==> r.state.disk == s.disk.(pages := s.disk.pages - {(f, p)})) &&
      (r.status == OK ==> (f, p) !in r.state.disk.pages) &&
      (r.status != OK ==> r.state.disk == s.disk) &&
      r.state.pool == s.pool && r.state.hand == s.hand
  {
  }

  lemma DisposeKeepsConsistent(s: PoolState, f: FileId, p: int)
    requires Consistent(s)
    ensures Consistent(Dispose(s, f, p).state)
  {
    var r, k := Dispose(s, f, p).state, (Ptr(f), p);
    forall i | 0 <= i < |r.table| && r.table[i].valid
      ensures Indexed(r, i) || (i == r.hand && Stale(r, i))
    {
      assert r.table[i] == s.table[i];
      ConsistentFacts(s, i, i);
    }
  }
}

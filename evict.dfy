/** allocBuf as a function on the whole buffer state. */
module EvictSpec {
  import opened BufTypes
  import opened BufHash
  import opened PageFile
  import opened BufState
  import opened Clock
  import opened FlushSpec

  datatype Eviction = Eviction(status: Status, frame: int, state: PoolState)

  /** Every dirty frame names a file, so that its file can be flushed. */
  predicate DirtyNamed(t: seq<BufDesc>)
  {
    forall i :: 0 <= i < |t| && t[i].dirty ==> t[i].file.Ptr?
  }

  /** Inspecting frames changes no dirty bit and no file. */
  lemma ClearRefsNamed(t: seq<BufDesc>, h: int, k: nat)
    requires 0 <= h < |t| && k <= |t| + 1 && DirtyNamed(t)
    ensures DirtyNamed(ClearRefs(t, h, k))
  {
    ClearRefsAt(t, h, k);
  }

  /** The clock scan starts at the hand and clears the reference bit of
      every frame it inspects. It stops at the first unpinned frame,
      whatever that frame's reference bit was, and leaves the hand there for
      Take. When every frame is pinned the scan goes once round the table
      and once more onto the starting frame, then reports BUFFEREXCEEDED
      with the hand back where it started. */
  function Evict(s: PoolState): (e: Eviction)
    requires WellFormed(s) && DirtyNamed(s.table)
    ensures WellFormed(e.state) && |e.state.table| == |s.table| && e.state.pool == s.pool
    ensures e.status in {OK, BUFFEREXCEEDED, UNIXERR} && e.frame == e.state.hand
  {
    var n := |s.table|;
    var r := ScanFrom(s.table, s.hand, 0);
    if r == n then Eviction(BUFFEREXCEEDED, s.hand, s.(table := ClearRefs(s.table, s.hand, n + 1)))
    else
      ClearRefsNamed(s.table, s.hand, r + 1);
      Take(s.(table := ClearRefs(s.table, s.hand, r + 1), hand := Pos(s.hand, r, n)))
  }

  /** Replacement of the frame under the hand: a clean frame only loses its
      index entry; a dirty one has its whole file flushed, and any failure
      of that flush is UNIXERR. */
  function Take(s: PoolState): (e: Eviction)
    requires WellFormed(s) && DirtyNamed(s.table)
    ensures WellFormed(e.state) && |e.state.table| == |s.table| && e.state.pool == s.pool
    ensures e.status in {OK, UNIXERR} && e.frame == e.state.hand == s.hand
  {
    var v := s.hand;
    if s.table[v].dirty then
      var fl := Flush(s, s.table[v].file.id, 0);
      Eviction(if fl.status == OK then OK else UNIXERR, v, fl.state)
    else
      Eviction(OK, v, s.(index := Remove(s.index, s.table[v].Key()).1))
  }
}

/** What allocBuf guarantees, proved about the functions Take and Evict. */
module EvictFacts {
  import opened BufTypes
  import opened BufHash
  import opened PageFile
  import opened BufState
  import opened Clock
  import opened FlushSpec
  import opened FlushFacts
  import opened EvictSpec

  /** The state the scan leaves before the victim is handled. */
  function Scanned(s: PoolState): (s1: PoolState)
    requires Consistent(s) && ScanFrom(s.table, s.hand, 0) < |s.table|
  {
    var r := ScanFrom(s.table, s.hand, 0);
    s.(table := ClearRefs(s.table, s.hand, r + 1), hand := Pos(s.hand, r, |s.table|))
  }

  /** Frame `v` may be refilled: nothing pins it, it is clean and no index
      entry leads to it or to the page it still names. */
  predicate Free(s: PoolState, v: int)
    requires 0 <= v < |s.table|
  {
    s.table[v].pinCnt == 0 && !s.table[v].dirty &&
    (s.table[v].valid ==> s.table[v].Key() !in s.index) &&
    forall k :: k in s.index ==> s.index[k] != v
  }

  /** A state Take may work on: consistent, with the hand on an unpinned
      frame. */
  predicate Ready(s: PoolState)
  {
    Consistent(s) && s.table[s.hand].pinCnt == 0
  }

  /** The scan keeps the invariant: the frame it stops on is unpinned, so a
      stale frame at the old hand is either that frame or cleared of nothing
      but its reference bit. */
  lemma ScanKeepsConsistent(s: PoolState)
    requires Consistent(s) && ScanFrom(s.table, s.hand, 0) < |s.table|
    ensures Ready(Scanned(s))
  {
    ClearRefsAt(s.table, s.hand, ScanFrom(s.table, s.hand, 0) + 1);
    var n, h, r := |s.table|, s.hand, ScanFrom(s.table, s.hand, 0);
    var s1 := Scanned(s);
    assert Pos(h, 0, n) == h;
    forall i | 0 <= i < n && s1.table[i].valid
      ensures Indexed(s1, i) || (i == s1.hand && Stale(s1, i))
    {
      assert s1.table[i].Key() == s.table[i].Key();
    }
  }

  /** Evict is the scan followed by Take; the scan changes only reference
      bits and the hand. */
  lemma EvictSplit(s: PoolState)
    requires Consistent(s)
    ensures var r, n := ScanFrom(s.table, s.hand, 0), |s.table|;
      (r == n ==> Evict(s) == Eviction(BUFFEREXCEEDED, s.hand, s.(table := ClearRefs(s.table, s.hand, n + 1)))) &&
      (r < n ==>
        Ready(Scanned(s)) && Evict(s) == Take(Scanned(s)) &&
        Scanned(s).index == s.index && Scanned(s).disk == s.disk && Scanned(s).pool == s.pool &&
        forall i :: 0 <= i < n ==> Scanned(s).table[i] == s.table[i].(refbit := Scanned(s).table[i].refbit))
  {
    var r := ScanFrom(s.table, s.hand, 0);
    ClearRefsAt(s.table, s.hand, r + 1);
    if r < |s.table| {
      ScanKeepsConsistent(s);
    }
  }

  /** Pool exhausted: the eviction fails exactly when every frame is
      pinned, and then only the reference bits change, all to false. */
  lemma EvictExhausted(s: PoolState)
    requires Consistent(s)
    ensures Evict(s).status == BUFFEREXCEEDED <==> AllPinned(s.table)
    ensures Evict(s).status == BUFFEREXCEEDED ==>
      var e := Evict(s).state;
      e.hand == s.hand && e.index == s.index && e.disk == s.disk &&
      forall i :: 0 <= i < |s.table| ==> e.table[i] == s.table[i].(refbit := false)
  {
    EvictSplit(s);
    ScanFindsVictim(s.table, s.hand);
    if AllPinned(s.table) {
      var e := Evict(s).state;
      forall i | 0 <= i < |s.table| ensures e.table[i] == s.table[i].(refbit := false) {
        ClearRefsAtPoint(s.table, s.hand, |s.table| + 1, i);
        PosOfDist(s.hand, i, |s.table|);
      }
    }
  }

  /** Victim choice: otherwise the victim is the first unpinned frame at or
      after the hand in clock order, the hand is left on it, and the frames
      passed over, the victim included, have their reference bits cleared. */
  lemma EvictVictim(s: PoolState)
    requires Consistent(s) && Evict(s).status != BUFFEREXCEEDED
    ensures var e := Evict(s);
      IsVictim(s.table, s.hand, e.frame) && e.state.hand == e.frame &&
      forall i :: 0 <= i < |s.table| && Dist(s.hand, i, |s.table|) <= Dist(s.hand, e.frame, |s.table|) ==>
        !e.state.table[i].refbit
  {
    EvictSplit(s);
    ClearRefsAt(s.table, s.hand, ScanFrom(s.table, s.hand, 0) + 1);
    ScanFindsVictim(s.table, s.hand);
    var s1 := Scanned(s);
    if s1.table[s1.hand].dirty {
      FlushEffects(s1, s1.table[s1.hand].file.id, 0);
    }
  }

  /** A clean frame under the hand is taken at once: its index entry goes
      and nothing else changes. */
  lemma TakeClean(s: PoolState)
    requires Ready(s) && !s.table[s.hand].dirty
    ensures var e := Take(s);
      e.status == OK && e.state == s.(index := s.index - {s.table[s.hand].Key()})
  {
  }

  /** A clean victim: the eviction succeeds, drops the victim's index entry
      and changes nothing else but the reference bits it cleared. */
  lemma EvictClean(s: PoolState)
    requires Consistent(s) && Evict(s).status != BUFFEREXCEEDED
    requires !s.table[Evict(s).frame].dirty
    ensures var e := Evict(s);
      e.status == OK && e.state.disk == s.disk &&
      e.state.index == s.index - {s.table[e.frame].Key()} &&
      forall i :: 0 <= i < |s.table| ==>
        e.state.table[i] == s.table[i].(refbit := e.state.table[i].refbit)
  {
    EvictSplit(s);
    TakeClean(Scanned(s));
  }

  /** A dirty frame under the hand: taking it succeeds exactly when flushing
      its whole file does, and then it is invalid, no frame or index entry
      of that file remains, and no index entry leads to it. */
  lemma TakeDirty(s: PoolState)
    requires Ready(s) && s.table[s.hand].dirty
    ensures var e, v := Take(s), s.hand; var f := s.table[v].file.id;
      e.state == Flush(s, f, 0).state &&
      (e.status == OK <==> Flush(s, f, 0).status == OK) &&
      (e.status == OK ==>
        !e.state.table[v].valid &&
        (forall j :: 0 <= j < |s.table| ==> e.state.table[j].file != Ptr(f)) &&
        (forall k :: k in e.state.index ==> k.0 != Ptr(f) && e.state.index[k] != v))
  {
    var e, v := Take(s), s.hand;
    var f := s.table[v].file.id;
    if e.status == OK {
      FlushClearsFile(s, f);
      FlushEffects(s, f, 0);
      FlushKeepsConsistent(s, f);
    }
  }

  /** A dirty victim: the eviction succeeds exactly when flushing the
      victim's whole file does, and then the victim is invalid, no frame or
      index entry of that file remains, and no index entry leads to it. */
  lemma EvictDirty(s: PoolState)
    requires Consistent(s) && Evict(s).status != BUFFEREXCEEDED
    requires s.table[Evict(s).frame].dirty
    ensures var e, v := Evict(s), Evict(s).frame; var f := s.table[v].file.id;
      e.state == Flush(Scanned(s), f, 0).state &&
      (e.status == OK <==> Flush(Scanned(s), f, 0).status == OK) &&
      (e.status == OK ==>
        !e.state.table[v].valid &&
        (forall j :: 0 <= j < |s.table| ==> e.state.table[j].file != Ptr(f)) &&
        (forall k :: k in e.state.index ==> k.0 != Ptr(f) && e.state.index[k] != v))
  {
    EvictSplit(s);
    TakeDirty(Scanned(s));
  }

  /** allocBuf writes a modified victim back before reusing it: after a
      successful eviction of a dirty frame its contents are in its page. */
  lemma EvictDirtyPersists(s: PoolState)
    requires Consistent(s) && Evict(s).status == OK && s.table[Evict(s).frame].dirty
    ensures var v := Evict(s).frame; var f := s.table[v].file.id;
      Evict(s).state == Flush(Scanned(s), f, 0).state &&
      ReadPage(Evict(s).state.disk, f, s.table[v].pageNo) == Ok(s.pool[v])
  {
    var v := Evict(s).frame;
    EvictSplit(s);
    var s1 := Scanned(s);
    assert s1.table[v] == s.table[v].(refbit := s1.table[v].refbit);
    ConsistentFacts(s, v, v);
    FlushPersistsConsistent(s1, s.table[v].file.id, v);
  }

  /** The reason a dirty frame is not enough: if any other frame of its
      file is pinned, the flush stops and Take fails with UNIXERR although
      the frame itself could have been written back. */
  lemma TakeDirtySiblingPinned(s: PoolState, j: int)
    requires Ready(s) && s.table[s.hand].dirty
    requires 0 <= j < |s.table| && s.table[j].valid && s.table[j].pinCnt > 0
    requires s.table[j].file == s.table[s.hand].file
    ensures Take(s).status == UNIXERR
  {
    var f := s.table[s.hand].file.id;
    FlushStatus(s, f, 0);
    assert !FlushFacts.Flushable(s.table[j], s.disk, f);
  }

  /** The same for the eviction: a pinned sibling of a dirty victim makes
      allocBuf fail with UNIXERR. */
  lemma EvictDirtySiblingPinned(s: PoolState, j: int)
    requires Consistent(s) && Evict(s).status != BUFFEREXCEEDED
    requires s.table[Evict(s).frame].dirty
    requires 0 <= j < |s.table| && s.table[j].valid && s.table[j].pinCnt > 0
    requires s.table[j].file == s.table[Evict(s).frame].file
    ensures Evict(s).status == UNIXERR
  {
    EvictSplit(s);
    TakeDirtySiblingPinned(Scanned(s), j);
  }

  /** Take keeps the invariant, only ever removes index entries, and on
      success hands out a frame that may be refilled. */
  lemma TakeKeepsConsistent(s: PoolState)
    requires Ready(s)
    ensures var e := Take(s);
      Consistent(e.state) &&
      (forall k :: k in e.state.index ==> k in s.index && e.state.index[k] == s.index[k]) &&
      (e.status == OK ==> Free(e.state, e.frame))
  {
    var e, v := Take(s), s.hand;
    if s.table[v].dirty {
      var f := s.table[v].file.id;
      FlushKeepsConsistent(s, f);
      FlushEffects(s, f, 0);
      if e.status == OK {
        FlushClearsFile(s, f);
      }
    } else {
      forall i | 0 <= i < |e.state.table| && e.state.table[i].valid
        ensures Indexed(e.state, i) || (i == e.state.hand && Stale(e.state, i))
      {
        ConsistentFacts(s, i, v);
      }
    }
  }

  /** allocBuf keeps the invariant, only ever removes index entries, and on
      success hands out a frame that may be refilled. */
  lemma EvictKeepsConsistent(s: PoolState)
    requires Consistent(s)
    ensures var e := Evict(s);
      Consistent(e.state) &&
      (forall k :: k in e.state.index ==> k in s.index && e.state.index[k] == s.index[k]) &&
      (e.status == OK ==> e.frame == e.state.hand && Free(e.state, e.frame))
  {
    EvictSplit(s);
    if ScanFrom(s.table, s.hand, 0) < |s.table| {
      TakeKeepsConsistent(Scanned(s));
    } else {
      ClearRefsKeepConsistent(s, |s.table| + 1);
    }
  }

  /** Clearing reference bits, with the hand where it was, keeps the
      invariant. */
  lemma ClearRefsKeepConsistent(s: PoolState, k: nat)
    requires Consistent(s) && k <= |s.table| + 1
    ensures Consistent(s.(table := ClearRefs(s.table, s.hand, k)))
  {
    ClearRefsAt(s.table, s.hand, k);
    var s1 := s.(table := ClearRefs(s.table, s.hand, k));
    forall i | 0 <= i < |s.table| && s1.table[i].valid
      ensures Indexed(s1, i) || (i == s1.hand && Stale(s1, i))
    {
      assert s1.table[i].Key() == s.table[i].Key();
    }
  }

  /** Take never touches a pinned frame: it keeps its descriptor, its
      contents and its index entry. */
  lemma TakeSparesPinned(s: PoolState, j: int)
    requires Ready(s) && 0 <= j < |s.table| && s.table[j].pinCnt > 0
    ensures var e := Take(s).state;
      e.table[j] == s.table[j] && e.pool[j] == s.pool[j] &&
      s.table[j].Key() in e.index && e.index[s.table[j].Key()] == j
  {
    var e, v := Take(s), s.hand;
    ConsistentFacts(s, j, v);
    if s.table[v].dirty {
      var f := s.table[v].file.id;
      FlushEffects(s, f, 0);
      FlushKeepsIndexed(s, f, j);
    }
  }

  /** A pinned frame is never evicted: it keeps its descriptor apart from
      the reference bit, its contents and its index entry. */
  lemma EvictSparesPinned(s: PoolState, j: int)
    requires Consistent(s) && 0 <= j < |s.table| && s.table[j].pinCnt > 0
    ensures var e := Evict(s).state;
      e.table[j] == s.table[j].(refbit := e.table[j].refbit) && e.pool[j] == s.pool[j] &&
      s.table[j].Key() in e.index && e.index[s.table[j].Key()] == j
  {
    ConsistentFacts(s, j, j);
    EvictSplit(s);
    if ScanFrom(s.table, s.hand, 0) < |s.table| {
      TakeSparesPinned(Scanned(s), j);
    } else {
      ClearRefsAt(s.table, s.hand, |s.table| + 1);
    }
  }

  /** Take allocates nothing, releases nothing and changes no failure in
      the store, and leaves alone the contents of every page that no
      resident page names. */
  lemma TakeKeepsStore(s: PoolState, k: DiskKey)
    requires Ready(s)
    ensures var d := Take(s).state.disk;
      d.pages.Keys == s.disk.pages.Keys && d.faulty == s.disk.faulty &&
      d.extent == s.disk.extent && d.full == s.disk.full
    ensures k in s.disk.pages && (Ptr(k.0), k.1) !in s.index ==>
      Take(s).state.disk.pages[k] == s.disk.pages[k]
  {
    var v := s.hand;
    if s.table[v].dirty {
      var g := s.table[v].file.id;
      FlushKeepsStoreShape(s, g, 0);
      if k in s.disk.pages && (Ptr(k.0), k.1) !in s.index {
        forall m | 0 <= m < |s.table| && s.table[m].file == Ptr(g)
          ensures (g, s.table[m].pageNo) != k
        {
          ConsistentFacts(s, m, v);
        }
        FlushKeepsPage(s, g, 0, k);
      }
    }
  }

  /** Eviction allocates nothing, releases nothing and changes no failure
      in the store, and leaves alone the contents of every page that no
      resident page names. */
  lemma EvictKeepsStore(s: PoolState, k: DiskKey)
    requires Consistent(s)
    ensures var d := Evict(s).state.disk;
      d.pages.Keys == s.disk.pages.Keys && d.faulty == s.disk.faulty &&
      d.extent == s.disk.extent && d.full == s.disk.full
    ensures k in s.disk.pages && (Ptr(k.0), k.1) !in s.index ==>
      Evict(s).state.disk.pages[k] == s.disk.pages[k]
  {
    EvictSplit(s);
    if ScanFrom(s.table, s.hand, 0) < |s.table| {
      TakeKeepsStore(Scanned(s), k);
    }
  }

  /** There is no second chance: an unpinned frame under the hand is taken
      at once, even when its reference bit is set. */
  lemma NoSecondChance(s: PoolState)
    requires Consistent(s) && s.table[s.hand].pinCnt == 0
    ensures Evict(s).status != BUFFEREXCEEDED && Evict(s).frame == s.hand
  {
    EvictSplit(s);
    assert Pos(s.hand, 0, |s.table|) == s.hand;
  }

  /** On a freshly constructed pool the hand starts on the last frame, and
      the first scan inspects and takes that frame before any other. */
  lemma FirstScanTakesLast(s: PoolState)
    requires |s.table| > 0 && |s.pool| == |s.table| && s.hand == |s.table| - 1
    requires forall i :: 0 <= i < |s.table| ==> s.table[i] == ZeroDesc.(frameNo := i)
    requires s.index == map[]
    ensures Consistent(s)
    ensures Evict(s).status == OK && Evict(s).frame == |s.table| - 1
  {
    assert Consistent(s);
    NoSecondChance(s);
    EvictClean(s);
  }
}

/** flushFile as a function on the whole buffer state: walk the table in
    order; for every frame of the file, stop on a pin, write it back if it
    is dirty (stop if that fails), then drop its index entry and unbind it;
    stop on an invalid frame that still names the file. */
module FlushSpec {
  import opened BufTypes
  import opened BufHash
  import opened PageFile
  import opened BufState

  datatype Outcome = Outcome(status: Status, state: PoolState)

  /** Frames `0..i` of the table have already been handled. */
  function Flush(s: PoolState, f: FileId, i: nat): (r: Outcome)
    requires WellFormed(s) && i <= |s.table|
    ensures WellFormed(r.state) && |r.state.table| == |s.table|
    ensures r.state.pool == s.pool && r.state.hand == s.hand
    ensures r.status in {OK, PAGEPINNED, BADBUFFER, BADPAGENO, UNIXERR}
    decreases |s.table| - i
  {
    if i == |s.table| then Outcome(OK, s)
    else
      var d := s.table[i];
      if d.valid && d.file == Ptr(f) then
        if d.pinCnt > 0 then Outcome(PAGEPINNED, s)
        else
          var w := WriteFrame(s, f, i);
          if w.0 != OK then Outcome(w.0, s.(disk := w.1))
          else
            Flush(Release(s, i, w.1), f, i + 1)
      else if !d.valid && d.file == Ptr(f) then Outcome(BADBUFFER, s)
      else Flush(s, f, i + 1)
  }

  /** Write frame `i` back to page `pageNo` of file `f` if it is dirty. */
  function WriteFrame(s: PoolState, f: FileId, i: nat): (Status, Disk)
    requires WellFormed(s) && i < |s.table|
  {
    if s.table[i].dirty then WritePage(s.disk, f, s.table[i].pageNo, s.pool[i]) else (OK, s.disk)
  }

  /** Drop frame `i`'s index entry and unbind it, with the store as `disk`. */
  function Release(s: PoolState, i: nat, disk: Disk): (s': PoolState)
    requires WellFormed(s) && i < |s.table|
    ensures WellFormed(s')
  {
    s.(table := s.table[i := s.table[i].Unbind()],
       index := Remove(s.index, s.table[i].Key()).1,
       disk := disk)
  }
}

/** What flushFile guarantees, proved about the function Flush. */
module FlushFacts {
  import opened BufTypes
  import opened BufHash
  import opened PageFile
  import opened BufState
  import opened FlushSpec

  /** Writing back one frame: a clean frame costs nothing; a dirty one
      issues one request for its page, which stores the frame's contents
      exactly when the page is writable; the store's shape is kept. */
  lemma WriteFrameFacts(s: PoolState, f: FileId, i: nat)
    requires WellFormed(s) && i < |s.table|
    ensures var r := WriteFrame(s, f, i);
      (!s.table[i].dirty ==> r == (OK, s.disk)) &&
      (s.table[i].dirty ==>
        (r.0 == OK <==> Writable(s.disk, (f, s.table[i].pageNo))) &&
        r.1.writes == s.disk.writes + [(f, s.table[i].pageNo)] &&
        r.1.pages == (if r.0 == OK then s.disk.pages[(f, s.table[i].pageNo) := s.pool[i]] else s.disk.pages)) &&
      r.1.pages.Keys == s.disk.pages.Keys && r.1.extent == s.disk.extent &&
      r.1.faulty == s.disk.faulty && r.1.full == s.disk.full
  {
  }

  /** Releasing a frame unbinds it, keeping its pin count, and drops
      exactly its key from the index; nothing else changes but the store. */
  lemma ReleaseFacts(s: PoolState, i: nat, disk: Disk)
    requires WellFormed(s) && i < |s.table|
    ensures var s' := Release(s, i, disk);
      |s'.table| == |s.table| &&
      !s'.table[i].valid && s'.table[i].file == Null && s'.table[i].pinCnt == s.table[i].pinCnt &&
      (forall k :: k in s'.index <==> k in s.index && k != s.table[i].Key()) &&
      (forall k :: k in s'.index ==> s'.index[k] == s.index[k]) &&
      (forall j :: 0 <= j < |s.table| && j != i ==> s'.table[j] == s.table[j]) &&
      s'.pool == s.pool && s'.hand == s.hand && s'.disk == disk
  {
  }

  /** Frame `d` does not stop a flush of file `f`. */
  predicate Flushable(d: BufDesc, disk: Disk, f: FileId)
  {
    d.file == Ptr(f) ==> d.valid && d.pinCnt == 0 && (d.dirty ==> Writable(disk, (f, d.pageNo)))
  }

  /** The status with which a frame that is not flushable stops the flush. */
  function BlockStatus(d: BufDesc, disk: Disk, f: FileId): (st: Status)
  {
    if !d.valid then BADBUFFER
    else if d.pinCnt > 0 then PAGEPINNED
    else if (f, d.pageNo) in disk.pages then UNIXERR
    else BADPAGENO
  }

  /** The first frame from `i` on that stops a flush of `f`; `|t|` if none. */
  function FirstBlocked(t: seq<BufDesc>, disk: Disk, f: FileId, i: nat): (j: nat)
    requires i <= |t|
    ensures i <= j <= |t|
    ensures j < |t| ==> !Flushable(t[j], disk, f)
    ensures forall m :: i <= m < j ==> Flushable(t[m], disk, f)
    decreases |t| - i
  {
    if i == |t| then |t|
    else if !Flushable(t[i], disk, f) then i
    else FirstBlocked(t, disk, f, i + 1)
  }

  lemma {:induction false} FirstBlockedAgree(t: seq<BufDesc>, t': seq<BufDesc>, d: Disk, d': Disk, f: FileId, i: nat)
    requires i <= |t| == |t'|
    requires forall m :: i <= m < |t| ==> t[m] == t'[m]
    requires d.pages.Keys == d'.pages.Keys && d.faulty == d'.faulty
    ensures FirstBlocked(t, d, f, i) == FirstBlocked(t', d', f, i)
    decreases |t| - i
  {
    if i < |t| {
      FirstBlockedAgree(t, t', d, d', f, i + 1);
    }
  }

  /** The state after the flush has released frame `i`. */
  function Released(s: PoolState, f: FileId, i: nat): (s1: PoolState)
    requires WellFormed(s) && i < |s.table|
  {
    Release(s, i, WriteFrame(s, f, i).1)
  }

  /** One step over a frame of the file that does not stop the flush: it
      is written back if dirty, released, and the flush goes on. */
  lemma ReleaseStep(s: PoolState, f: FileId, i: nat)
    requires WellFormed(s) && i < |s.table|
    requires s.table[i].file == Ptr(f) && Flushable(s.table[i], s.disk, f)
    ensures WriteFrame(s, f, i).0 == OK
    ensures Flush(s, f, i) == Flush(Released(s, f, i), f, i + 1)
    ensures Released(s, f, i).table == s.table[i := s.table[i].Unbind()]
    ensures Released(s, f, i).index == s.index - {s.table[i].Key()}
    ensures Released(s, f, i).disk.pages.Keys == s.disk.pages.Keys
    ensures Released(s, f, i).disk.faulty == s.disk.faulty
    ensures FirstBlocked(s.table, s.disk, f, i) ==
      FirstBlocked(Released(s, f, i).table, Released(s, f, i).disk, f, i + 1)
  {
    var s' := Released(s, f, i);
    FirstBlockedAgree(s.table, s'.table, s.disk, s'.disk, f, i + 1);
  }

  /** One step over a frame of another file: the flush moves on. */
  lemma SkipStep(s: PoolState, f: FileId, i: nat)
    requires WellFormed(s) && i < |s.table| && s.table[i].file != Ptr(f)
    ensures Flush(s, f, i) == Flush(s, f, i + 1)
    ensures FirstBlocked(s.table, s.disk, f, i) == FirstBlocked(s.table, s.disk, f, i + 1)
  {
  }

  /** One step over a frame of the file that stops the flush. */
  lemma StopStep(s: PoolState, f: FileId, i: nat)
    requires WellFormed(s) && i < |s.table|
    requires s.table[i].file == Ptr(f) && !Flushable(s.table[i], s.disk, f)
    ensures FirstBlocked(s.table, s.disk, f, i) == i
    ensures Flush(s, f, i).status == BlockStatus(s.table[i], s.disk, f) != OK
    ensures Flush(s, f, i).state.table == s.table && Flush(s, f, i).state.index == s.index
  {
  }

  /** What a flush does to the table and the index, whatever its status:
      every frame is left as it was, or was a valid unpinned frame of the
      file that is now unbound and has lost its index entry; the index only
      loses entries, and only those of frames it unbound. */
  lemma {:induction false} FlushEffects(s: PoolState, f: FileId, i: nat)
    requires WellFormed(s) && i <= |s.table|
    ensures var r := Flush(s, f, i).state;
      (forall j :: 0 <= j < |s.table| ==>
        r.table[j] == s.table[j] ||
        (i <= j && s.table[j].valid && s.table[j].file == Ptr(f) && s.table[j].pinCnt == 0 &&
         r.table[j] == s.table[j].Unbind() && s.table[j].Key() !in r.index)) &&
      (forall k :: k in r.index ==> k in s.index && r.index[k] == s.index[k]) &&
      (forall k :: k in s.index && k !in r.index ==>
        exists j :: i <= j < |s.table| && s.table[j].Key() == k && r.table[j] != s.table[j])
    decreases |s.table| - i, 1
  {
    if i == |s.table| {
      return;
    }
    var d := s.table[i];
    if d.file != Ptr(f) {
      SkipStep(s, f, i);
      FlushEffects(s, f, i + 1);
    } else if !Flushable(d, s.disk, f) {
      StopStep(s, f, i);
    } else {
      FlushEffectsRelease(s, f, i);
    }
  }

  /** The step of FlushEffects over a frame of the file that is released. */
  lemma {:induction false} FlushEffectsRelease(s: PoolState, f: FileId, i: nat)
    requires WellFormed(s) && i < |s.table|
    requires s.table[i].file == Ptr(f) && Flushable(s.table[i], s.disk, f)
    ensures var r := Flush(s, f, i).state;
      (forall j :: 0 <= j < |s.table| ==>
        r.table[j] == s.table[j] ||
        (i <= j && s.table[j].valid && s.table[j].file == Ptr(f) && s.table[j].pinCnt == 0 &&
         r.table[j] == s.table[j].Unbind() && s.table[j].Key() !in r.index)) &&
      (forall k :: k in r.index ==> k in s.index && r.index[k] == s.index[k]) &&
      (forall k :: k in s.index && k !in r.index ==>
        exists j :: i <= j < |s.table| && s.table[j].Key() == k && r.table[j] != s.table[j])
    decreases |s.table| - i, 0
  {
    var d := s.table[i];
    ReleaseStep(s, f, i);
    var s' := Released(s, f, i);
    var r := Flush(s', f, i + 1).state;
    FlushEffects(s', f, i + 1);
    assert r.table[i] == d.Unbind() != d;
    forall k | k in s.index && k !in r.index
      ensures exists j :: i <= j < |s.table| && s.table[j].Key() == k && r.table[j] != s.table[j]
    {
      if k != d.Key() {
        var j :| i + 1 <= j < |s.table| && s'.table[j].Key() == k && r.table[j] != s'.table[j];
        assert s'.table[j] == s.table[j];
      }
    }
  }

  /** The status of flushing file `f`: it succeeds exactly when no frame of
      the file is invalid, pinned, or dirty on a page that cannot be
      written; otherwise it stops at the first such frame, with the status
      that frame calls for. */
  lemma {:induction false} FlushStatus(s: PoolState, f: FileId, i: nat)
    requires WellFormed(s) && i <= |s.table|
    ensures var r, j := Flush(s, f, i), FirstBlocked(s.table, s.disk, f, i);
      (r.status == OK <==> j == |s.table|) &&
      (j < |s.table| ==> r.status == BlockStatus(s.table[j], s.disk, f))
    decreases |s.table| - i
  {
    if i == |s.table| {
      return;
    }
    var d := s.table[i];
    if d.file != Ptr(f) {
      SkipStep(s, f, i);
      FlushStatus(s, f, i + 1);
    } else if !Flushable(d, s.disk, f) {
      StopStep(s, f, i);
    } else {
      ReleaseStep(s, f, i);
      var s' := Released(s, f, i);
      FlushStatus(s', f, i + 1);
      var j := FirstBlocked(s.table, s.disk, f, i);
      if j < |s.table| {
        assert s'.table[j] == s.table[j];
      }
    }
  }

  /** No rollback: the frames of the file before the stopping point are
      unbound, while the stopping frame and every frame after it (and the
      frames before `i`) are left as they were. */
  lemma {:induction false} FlushNoRollback(s: PoolState, f: FileId, i: nat)
    requires WellFormed(s) && i <= |s.table|
    ensures var r, j := Flush(s, f, i), FirstBlocked(s.table, s.disk, f, i);
      (forall m :: i <= m < j && s.table[m].file == Ptr(f) ==> r.state.table[m] == s.table[m].Unbind()) &&
      (forall m :: 0 <= m < |s.table| && (m < i || j <= m) ==> r.state.table[m] == s.table[m])
    decreases |s.table| - i
  {
    if i == |s.table| {
      return;
    }
    var d := s.table[i];
    if d.file != Ptr(f) {
      SkipStep(s, f, i);
      FlushNoRollback(s, f, i + 1);
    } else if !Flushable(d, s.disk, f) {
      StopStep(s, f, i);
    } else {
      ReleaseStep(s, f, i);
      FlushNoRollback(Released(s, f, i), f, i + 1);
    }
  }

  lemma {:induction false} DirtyFramesAgree(t: seq<BufDesc>, t': seq<BufDesc>, sc: Scope, i: nat)
    requires i <= |t| == |t'|
    requires forall m :: i <= m < |t| ==> t[m] == t'[m]
    ensures DirtyFrames(t, sc, i) == DirtyFrames(t', sc, i)
    decreases |t| - i
  {
    if i < |t| {
      DirtyFramesAgree(t, t', sc, i + 1);
    }
  }

  /** A successful flush requests exactly one write for every dirty frame
      of the file, in table order, and no other write. */
  lemma {:induction false} FlushWrites(s: PoolState, f: FileId, i: nat)
    requires WellFormed(s) && i <= |s.table| && Flush(s, f, i).status == OK
    ensures Flush(s, f, i).state.disk.writes ==
      s.disk.writes + WriteRequests(s.table, DirtyFrames(s.table, OneFile(f), i))
    decreases |s.table| - i, 1
  {
    if i == |s.table| {
      return;
    }
    var d := s.table[i];
    if d.file != Ptr(f) {
      SkipStep(s, f, i);
      FlushWrites(s, f, i + 1);
    } else if !Flushable(d, s.disk, f) {
      StopStep(s, f, i);
    } else {
      FlushWritesRelease(s, f, i);
    }
  }

  /** The step of FlushWrites over a frame of the file that is released. */
  lemma {:induction false} FlushWritesRelease(s: PoolState, f: FileId, i: nat)
    requires WellFormed(s) && i < |s.table| && Flush(s, f, i).status == OK
    requires s.table[i].file == Ptr(f) && Flushable(s.table[i], s.disk, f)
    ensures Flush(s, f, i).state.disk.writes ==
      s.disk.writes + WriteRequests(s.table, DirtyFrames(s.table, OneFile(f), i))
    decreases |s.table| - i, 0
  {
    ReleaseStep(s, f, i);
    FlushWrites(Released(s, f, i), f, i + 1);
    ReleaseWrites(s, f, i);
  }

  /** Releasing frame `i` of the file requests the write of its page when
      it is dirty, which is the first of the writes still due from `i` on,
      so the writes made and due add up to the same before and after. */
  lemma ReleaseWrites(s: PoolState, f: FileId, i: nat)
    requires WellFormed(s) && i < |s.table|
    requires s.table[i].file == Ptr(f) && Flushable(s.table[i], s.disk, f)
    ensures var s', sc := Released(s, f, i), OneFile(f);
      s.disk.writes + WriteRequests(s.table, DirtyFrames(s.table, sc, i)) ==
      s'.disk.writes + WriteRequests(s'.table, DirtyFrames(s'.table, sc, i + 1))
  {
    var s', sc := Released(s, f, i), OneFile(f);
    DirtyFramesAgree(s.table, s'.table, sc, i + 1);
    var fs := DirtyFrames(s.table, sc, i + 1);
    WriteRequestsAgree(s.table, s'.table, i + 1, fs);
    if s.table[i].dirty {
      WriteRequestsCons(s.disk.writes, s.table, i, fs);
    }
  }

  /** A flush writes no page of the store other than those of its file's
      frames, so any other page keeps its contents. */
  lemma {:induction false} FlushKeepsPage(s: PoolState, f: FileId, i: nat, k: DiskKey)
    requires WellFormed(s) && i <= |s.table| && k in s.disk.pages
    requires forall m :: i <= m < |s.table| && s.table[m].file == Ptr(f) ==> (f, s.table[m].pageNo) != k
    ensures k in Flush(s, f, i).state.disk.pages
    ensures Flush(s, f, i).state.disk.pages[k] == s.disk.pages[k]
    decreases |s.table| - i
  {
    if i == |s.table| {
      return;
    }
    var d := s.table[i];
    if d.file != Ptr(f) {
      SkipStep(s, f, i);
      FlushKeepsPage(s, f, i + 1, k);
    } else if Flushable(d, s.disk, f) {
      ReleaseStep(s, f, i);
      FlushKeepsPage(Released(s, f, i), f, i + 1, k);
    } else if d.valid && d.pinCnt == 0 {
      assert Flush(s, f, i).state.disk == WriteFrame(s, f, i).1;
    }
  }

  /** A flush allocates and releases nothing in the store and changes no
      failure: only page contents and the write log move. */
  lemma {:induction false} FlushKeepsStoreShape(s: PoolState, f: FileId, i: nat)
    requires WellFormed(s) && i <= |s.table|
    ensures Flush(s, f, i).state.disk.faulty == s.disk.faulty
    ensures Flush(s, f, i).state.disk.pages.Keys == s.disk.pages.Keys
    ensures Flush(s, f, i).state.disk.extent == s.disk.extent
    ensures Flush(s, f, i).state.disk.full == s.disk.full
    decreases |s.table| - i
  {
    if i == |s.table| {
      return;
    }
    var d := s.table[i];
    if d.file != Ptr(f) {
      SkipStep(s, f, i);
      FlushKeepsStoreShape(s, f, i + 1);
    } else if Flushable(d, s.disk, f) {
      ReleaseStep(s, f, i);
      FlushKeepsStoreShape(Released(s, f, i), f, i + 1);
    } else if d.valid && d.pinCnt == 0 {
      assert Flush(s, f, i).state.disk == WriteFrame(s, f, i).1;
    }
  }

  /** No write is lost: after a successful flush, reading back the page of
      any dirty frame of the file returns that frame's contents, provided
      no two frames of the file name the same page. */
  lemma {:induction false} FlushPersists(s: PoolState, f: FileId, i: nat, j: nat)
    requires WellFormed(s) && i <= j < |s.table| && Flush(s, f, i).status == OK
    requires s.table[j].valid && s.table[j].dirty && s.table[j].file == Ptr(f)
    requires forall m :: i <= m < |s.table| && m != j && s.table[m].file == Ptr(f) ==>
      s.table[m].pageNo != s.table[j].pageNo
    ensures ReadPage(Flush(s, f, i).state.disk, f, s.table[j].pageNo) == Ok(s.pool[j])
    decreases |s.table| - i
  {
    var d := s.table[i];
    FlushStatus(s, f, i);
    if d.file != Ptr(f) {
      SkipStep(s, f, i);
      FlushPersists(s, f, i + 1, j);
    } else {
      ReleaseStep(s, f, i);
      var s' := Released(s, f, i);
      if i == j {
        FlushKeepsPage(s', f, i + 1, (f, d.pageNo));
        FlushKeepsStoreShape(s', f, i + 1);
      } else {
        FlushPersists(s', f, i + 1, j);
      }
    }
  }

  /** Under the invariant no two frames of the file name the same page, so
      after a successful flush every dirty frame's page of the file reads
      back that frame's contents, with no proviso. */
  lemma FlushPersistsConsistent(s: PoolState, f: FileId, j: int)
    requires Consistent(s) && 0 <= j < |s.table| && Flush(s, f, 0).status == OK
    requires s.table[j].valid && s.table[j].dirty && s.table[j].file == Ptr(f)
    ensures ReadPage(Flush(s, f, 0).state.disk, f, s.table[j].pageNo) == Ok(s.pool[j])
  {
    forall m | 0 <= m < |s.table| && m != j && s.table[m].file == Ptr(f)
      ensures s.table[m].pageNo != s.table[j].pageNo
    {
      ConsistentFacts(s, m, j);
    }
    FlushPersists(s, f, 0, j);
  }

  /** Under the invariant, an indexed frame that the flush leaves alone
      keeps its index entry: no other frame holds its page. */
  lemma FlushKeepsIndexed(s: PoolState, f: FileId, i: int)
    requires Consistent(s) && 0 <= i < |s.table| && Indexed(s, i)
    requires Flush(s, f, 0).state.table[i] == s.table[i]
    ensures Indexed(Flush(s, f, 0).state, i)
  {
    var r, k := Flush(s, f, 0).state, s.table[i].Key();
    FlushEffects(s, f, 0);
    forall j | 0 <= j < |s.table| && s.table[j].Key() == k
      ensures r.table[j] == s.table[j]
    {
      ConsistentFacts(s, i, j);
    }
  }

  /** Flushing keeps the buffer manager's invariant, whatever its status. */
  lemma FlushKeepsConsistent(s: PoolState, f: FileId)
    requires Consistent(s)
    ensures Consistent(Flush(s, f, 0).state)
  {
    var r := Flush(s, f, 0).state;
    FlushEffects(s, f, 0);
    forall i | 0 <= i < |r.table| && r.table[i].valid
      ensures Indexed(r, i) || (i == r.hand && Stale(r, i))
    {
      assert r.table[i] == s.table[i];
      if Indexed(s, i) {
        FlushKeepsIndexed(s, f, i);
      }
    }
  }

  /** After a successful flush of a consistent state, no frame and no index
      entry of the file remains. */
  lemma FlushClearsFile(s: PoolState, f: FileId)
    requires Consistent(s) && Flush(s, f, 0).status == OK
    ensures forall j :: 0 <= j < |s.table| ==> Flush(s, f, 0).state.table[j].file != Ptr(f)
    ensures forall k :: k in Flush(s, f, 0).state.index ==> k.0 != Ptr(f)
  {
    FlushEffects(s, f, 0);
    FlushStatus(s, f, 0);
    FlushNoRollback(s, f, 0);
  }

  /** In a consistent state the defensive BADBUFFER check never fires. */
  lemma FlushNeverBadBuffer(s: PoolState, f: FileId)
    requires Consistent(s)
    ensures Flush(s, f, 0).status != BADBUFFER
  {
    FlushStatus(s, f, 0);
  }
}

/** The buffer manager itself: the frame descriptor table and the frames as
    arrays updated in place, and the index, the clock hand, the disk-read
    counter and the page store as fields. Each method is proved to leave
    the state the matching function of BufOps, EvictSpec, FlushSpec or
    WriteBackSpec computes from the state before the call. */
module BufManager {
  import opened BufTypes
  import opened BufHash
  import opened PageFile
  import opened BufState
  import opened Clock
  import opened FlushSpec
  import opened WriteBackSpec
  import opened EvictSpec
  import opened BufOps
  import opened BufOpsFacts
  import opened StoreFacts

  class BufMgr {
    const numBufs: int
    const bufTable: array<BufDesc>
    const bufPool: array<Page>
    var hashTable: Index
    var clockHand: int
    var diskreads: nat
    var disk: Disk

    /** The shape of the object: both arrays hold `numBufs > 0` entries and
        the hand is on one of them. */
    ghost predicate Valid()
      reads this
    {
      numBufs > 0 && bufTable.Length == numBufs && bufPool.Length == numBufs &&
      0 <= clockHand < numBufs
    }

    /** The object's state as the value the specification functions take. */
    ghost function State(): (s: PoolState)
      reads this, bufTable, bufPool
      requires Valid()
      ensures WellFormed(s)
    {
      PoolState(bufTable[..], bufPool[..], hashTable, disk, clockHand)
    }

    /** BufMgr::BufMgr: `bufs` zeroed descriptors numbered by frame, all
        invalid, zeroed frames, an empty index and the hand on the last
        frame, so that the first scan starts at, and takes, the last frame
        (EvictFacts.FirstScanTakesLast). */
    constructor (bufs: int, store: Disk)
      requires bufs > 0
      ensures Valid() && Consistent(State())
      ensures numBufs == bufs && fresh(bufTable) && fresh(bufPool)
      ensures forall i :: 0 <= i < bufs ==> bufTable[i] == ZeroDesc.(frameNo := i) && !bufTable[i].valid
      ensures forall i :: 0 <= i < bufs ==> bufPool[i] == Blank
      ensures hashTable == map[] && clockHand == bufs - 1 && diskreads == 0 && disk == store
      ensures Backed(hashTable, disk) <==> StoreOk(store)
    {
      numBufs := bufs;
      var t := new BufDesc[bufs](_ => ZeroDesc);
      var i := 0;
      while i < bufs
        invariant 0 <= i <= bufs
        invariant forall j :: 0 <= j < i ==> t[j] == ZeroDesc.(frameNo := j)
        invariant forall j :: i <= j < bufs ==> t[j] == ZeroDesc
      {
        t[i] := t[i].(frameNo := i, valid := false);
        i := i + 1;
      }
      bufTable := t;
      bufPool := new Page[bufs](_ => Blank);
      hashTable := map[];
      clockHand := bufs - 1;
      diskreads := 0;
      disk := store;
    }

    /** BufMgr::~BufMgr: write every valid dirty frame back to its page,
        in table order, ignoring the store's status. */
    method Shutdown()
      requires Valid() && Consistent(State())
      modifies this
      ensures disk == WriteBack(old(bufTable[..]), old(bufPool[..]), old(disk), 0)
      ensures hashTable == old(hashTable) && clockHand == old(clockHand) && diskreads == old(diskreads)
    {
      assert FilesBound(bufTable[..]);
      var i := 0;
      while i < numBufs
        invariant 0 <= i <= numBufs
        invariant WriteBack(bufTable[..], bufPool[..], disk, i) == WriteBack(bufTable[..], bufPool[..], old(disk), 0)
        invariant hashTable == old(hashTable) && clockHand == old(clockHand) && diskreads == old(diskreads)
      {
        var tmpbuf := bufTable[i];
        if tmpbuf.valid && tmpbuf.dirty {
          var w := WritePage(disk, tmpbuf.file.id, tmpbuf.pageNo, bufPool[i]);
          disk := w.1;
        }
        i := i + 1;
      }
    }

    /** advanceClock: one step of the hand. */
    method AdvanceClock()
      requires Valid()
      modifies this
      ensures Valid() && clockHand == (old(clockHand) + 1) % numBufs
      ensures clockHand == if old(clockHand) + 1 == numBufs then 0 else old(clockHand) + 1
      ensures hashTable == old(hashTable) && disk == old(disk) && diskreads == old(diskreads)
    {
      clockHand := (clockHand + 1) % numBufs;
    }

    /** BufMgr::allocBuf: the clock scan, then the replacement on the frame
        it stops at. `inspections` counts the frames looked at, the last one
        included. */
    method AllocBuf() returns (status: Status, frame: int, ghost inspections: nat)
      requires Valid() && DirtyNamed(bufTable[..])
      modifies this, bufTable
      ensures Valid() && diskreads == old(diskreads)
      ensures var e := Evict(old(State()));
        status == e.status && State() == e.state && (status == OK ==> frame == e.frame)
      ensures status == BUFFEREXCEEDED ==> inspections == numBufs + 1
      ensures status != BUFFEREXCEEDED ==> inspections == Dist(old(clockHand), clockHand, numBufs) + 1
    {
      frame := 0;
      ghost var t0, h := bufTable[..], clockHand;
      var found;
      found, inspections := Sweep();
      if !found {
        return BUFFEREXCEEDED, frame, inspections;
      }
      ghost var r := ScanFrom(t0, h, 0);
      DistOfPos(h, r, numBufs);
      ClearRefsNamed(t0, h, r + 1);
      status, frame := Replace();
    }

    /** The loop of allocBuf: from the hand, clear the reference bit of each
        frame looked at and count the pinned ones; give up once the count
        exceeds the number of frames, and stop on the first frame that is
        neither referenced (after the clear) nor pinned. */
    method Sweep() returns (found: bool, ghost inspections: nat)
      requires Valid()
      modifies this, bufTable
      ensures Valid() && hashTable == old(hashTable) && disk == old(disk) && diskreads == old(diskreads)
      ensures var r := ScanFrom(old(bufTable[..]), old(clockHand), 0);
        found == (r < numBufs) &&
        bufTable[..] == ClearRefs(old(bufTable[..]), old(clockHand), if found then r + 1 else numBufs + 1) &&
        clockHand == (if found then Pos(old(clockHand), r, numBufs) else old(clockHand)) &&
        inspections == (if found then r + 1 else numBufs + 1)
    {
      ghost var t0, h, n := bufTable[..], clockHand, numBufs;
      ghost var r := ScanFrom(t0, h, 0);
      inspections := 0;
      var trace := 0;
      while trace <= numBufs
        invariant Valid() && 0 <= trace <= n && trace <= r && inspections == trace
        invariant clockHand == Pos(h, trace, n)
        invariant bufTable[..] == ClearRefs(t0, h, trace)
        invariant hashTable == old(hashTable) && disk == old(disk) && diskreads == old(diskreads)
        decreases n - trace
      {
        inspections := inspections + 1;
        ClearRefsAtPoint(t0, h, trace, clockHand);
        if bufTable[clockHand].refbit == true {
          bufTable[clockHand] := bufTable[clockHand].(refbit := false);
        } else {
          ClearRefsIdle(t0, h, trace);
        }
        if bufTable[clockHand].pinCnt != 0 {
          trace := trace + 1;
        }
        if trace > numBufs {
          return false, inspections;
        }
        if bufTable[clockHand].refbit == false && bufTable[clockHand].pinCnt == 0 {
          return true, inspections;
        }
        AdvanceClock();
      }
      assert false;
    }

    /** The replacement branch of allocBuf, on the unpinned frame under the
        hand. */
    method Replace() returns (status: Status, frame: int)
      requires Valid() && DirtyNamed(bufTable[..])
      modifies this, bufTable
      ensures Valid() && diskreads == old(diskreads)
      ensures var e := Take(old(State()));
        status == e.status && State() == e.state && (status == OK ==> frame == e.frame)
    {
      frame := 0;
      if bufTable[clockHand].dirty == true {
        var flushresult := FlushFile(bufTable[clockHand].file.id);
        if flushresult != OK {
          return UNIXERR, frame;
        }
        frame := clockHand;
        return OK, frame;
      } else {
        hashTable := Remove(hashTable, bufTable[clockHand].Key()).1;
        frame := clockHand;
        return OK, frame;
      }
    }

    /** BufMgr::readPage; the frame number stands for the page pointer. */
    method ReadPage(file: FileId, pageNo: int) returns (status: Status, frame: int)
      requires Valid() && Consistent(State())
      modifies this, bufTable, bufPool
      ensures Valid()
      ensures var r := Read(old(State()), file, pageNo);
        status == r.status && State() == r.state && (status == OK ==> frame == r.frame) &&
        diskreads == old(diskreads) + (if r.counted then 1 else 0)
      ensures Consistent(State())
      ensures old(Backed(hashTable, disk)) ==> Backed(hashTable, disk)
    {
      ReadKeepsConsistent(State(), file, pageNo, 0);
      ReadKeepsBacked(State(), file, pageNo);
      var lk := Lookup(hashTable, (Ptr(file), pageNo));
      if lk.Ok? {
        frame := lk.value;
        bufTable[frame] := bufTable[frame].(pinCnt := bufTable[frame].pinCnt + 1);
        status := OK;
      } else {
        ghost var inspections;
        status, frame, inspections := AllocBuf();
        if status != OK {
          return;
        }
        var rd := PageFile.ReadPage(disk, file, pageNo);
        if rd.Err? {
          return rd.status, frame;
        }
        bufPool[frame] := rd.value;
        var ins := Insert(hashTable, (Ptr(file), pageNo), frame);
        status, hashTable := ins.0, ins.1;
        if status != OK {
          return;
        }
        bufTable[frame] := bufTable[frame].Set(file, pageNo);
        diskreads := diskreads + 1;
      }
    }

    /** BufMgr::unPinPage. */
    method UnPinPage(file: FileId, pageNo: int, dirty: bool) returns (status: Status)
      requires Valid() && Consistent(State())
      modifies this, bufTable
      ensures Valid() && diskreads == old(diskreads)
      ensures var r := Unpin(old(State()), file, pageNo, dirty);
        status == r.status && State() == r.state
      ensures Consistent(State())
      ensures old(Backed(hashTable, disk)) ==> Backed(hashTable, disk)
    {
      UnpinKeepsConsistent(State(), file, pageNo, dirty);
      UnpinKeepsBacked(State(), file, pageNo, dirty);
      var lk := Lookup(hashTable, (Ptr(file), pageNo));
      if lk.Err? {
        return lk.status;
      }
      var frameNo := lk.value;
      if bufTable[frameNo].pinCnt == 0 {
        return PAGENOTPINNED;
      }
      if dirty {
        bufTable[frameNo] := bufTable[frameNo].(dirty := true);
      }
      bufTable[frameNo] := bufTable[frameNo].(pinCnt := bufTable[frameNo].pinCnt - 1);
      status := OK;
    }

    /** BufMgr::allocPage; the frame number stands for the page pointer. */
    method AllocPage(file: FileId) returns (status: Status, pageNo: int, frame: int)
      requires Valid() && Consistent(State())
      modifies this, bufTable
      ensures Valid() && diskreads == old(diskreads)
      ensures var r := Alloc(old(State()), file);
        status == r.status && pageNo == r.pageNo && State() == r.state &&
        (status == OK ==> frame == r.frame)
      ensures Consistent(State())
      ensures old(Backed(hashTable, disk)) ==> Backed(hashTable, disk) && status != HASHTBLERROR
    {
      AllocKeepsConsistent(State(), file);
      AllocFresh(State(), file);
      frame := 0;
      var a := AllocatePage(disk, file);
      status, pageNo, disk := a.0, a.1, a.2;
      if status != OK {
        return;
      }
      ghost var inspections;
      status, frame, inspections := AllocBuf();
      if status != OK {
        return;
      }
      var ins := Insert(hashTable, (Ptr(file), pageNo), frame);
      status, hashTable := ins.0, ins.1;
      if status != OK {
        return;
      }
      bufTable[frame] := bufTable[frame].Set(file, pageNo);
    }

    /** BufMgr::disposePage. */
    method DisposePage(file: FileId, pageNo: int) returns (status: Status)
      requires Valid() && Consistent(State())
      modifies this, bufTable
      ensures Valid() && diskreads == old(diskreads)
      ensures var r := Dispose(old(State()), file, pageNo);
        status == r.status && State() == r.state
      ensures Consistent(State())
      ensures old(Backed(hashTable, disk)) ==> Backed(hashTable, disk)
    {
      DisposeKeepsConsistent(State(), file, pageNo);
      DisposeKeepsBacked(State(), file, pageNo);
      var lk := Lookup(hashTable, (Ptr(file), pageNo));
      if lk.Ok? {
        bufTable[lk.value] := bufTable[lk.value].Clear();
      }
      var rm := Remove(hashTable, (Ptr(file), pageNo));
      status, hashTable := rm.0, rm.1;
      var d := PageFile.DisposePage(disk, file, pageNo);
      status, disk := d.0, d.1;
    }

    /** BufMgr::flushFile. Needs no invariant of its caller: a descriptor
        out of order is reported as BADBUFFER rather than assumed away. */
    method FlushFile(file: FileId) returns (status: Status)
      requires Valid()
      modifies this, bufTable
      ensures Valid() && diskreads == old(diskreads)
      ensures var r := Flush(old(State()), file, 0); status == r.status && State() == r.state
      ensures old(Consistent(State())) ==> Consistent(State())
      ensures old(Backed(hashTable, disk)) ==> Backed(hashTable, disk)
    {
      ghost var s0 := State();
      var i := 0;
      while i < numBufs
        invariant 0 <= i <= numBufs && Valid() && diskreads == old(diskreads)
        invariant Flush(State(), file, i) == Flush(old(State()), file, 0)
      {
        ghost var s := State();
        var tmpbuf := bufTable[i];
        if tmpbuf.valid && tmpbuf.file == Ptr(file) {
          if tmpbuf.pinCnt > 0 {
            assert State() == s && Flush(s, file, i) == Outcome(PAGEPINNED, s);
            FlushKeepsInvariants(s0, file);
            return PAGEPINNED;
          }
          if tmpbuf.dirty {
            var w := WritePage(disk, file, tmpbuf.pageNo, bufPool[i]);
            disk := w.1;
            if w.0 != OK {
              FlushKeepsInvariants(s0, file);
              return w.0;
            }
            bufTable[i] := bufTable[i].(dirty := false);
          }
          hashTable := Remove(hashTable, (Ptr(file), bufTable[i].pageNo)).1;
          bufTable[i] := bufTable[i].(file := Null, pageNo := -1, valid := false);
          assert State() == Release(s, i, WriteFrame(s, file, i).1);
        } else if !tmpbuf.valid && tmpbuf.file == Ptr(file) {
          FlushKeepsInvariants(s0, file);
          return BADBUFFER;
        }
        i := i + 1;
      }
      FlushKeepsInvariants(s0, file);
      status := OK;
    }
  }
}

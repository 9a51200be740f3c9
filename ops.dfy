/** readPage, unPinPage, allocPage and disposePage as functions on the whole
    buffer state. */
module BufOps {
  import opened BufTypes
  import opened BufHash
  import opened PageFile
  import opened BufState
  import opened FlushSpec
  import opened EvictSpec

  /** The status, the frame handed back, the new state and whether the
      disk-read counter went up. */
  datatype Fetch = Fetch(status: Status, frame: int, state: PoolState, counted: bool)

  /** readPage: a resident page gains a pin; otherwise a frame is evicted,
      filled from the store, indexed and bound by Set. Each step that fails
      returns its status at once. */
  function Read(s: PoolState, f: FileId, p: int): (r: Fetch)
    requires Consistent(s)
    ensures WellFormed(r.state) && |r.state.table| == |s.table|
  {
    var k := (Ptr(f), p);
    var lk := Lookup(s.index, k);
    if lk.Ok? then
      var i := lk.value;
      Fetch(OK, i, s.(table := s.table[i := s.table[i].(pinCnt := s.table[i].pinCnt + 1)]), false)
    else
      var e := Evict(s);
      if e.status != OK then Fetch(e.status, e.frame, e.state, false)
      else
        var v := e.frame;
        var rd := ReadPage(e.state.disk, f, p);
        if rd.Err? then Fetch(rd.status, v, e.state, false)
        else
          var s2 := e.state.(pool := e.state.pool[v := rd.value]);
          var ins := Insert(s2.index, k, v);
          if ins.0 != OK then Fetch(ins.0, v, s2, false)
          else Fetch(OK, v, s2.(index := ins.1, table := s2.table[v := s2.table[v].Set(f, p)]), true)
  }

  /** unPinPage: drop one pin of a resident page, marking it dirty if asked. */
  function Unpin(s: PoolState, f: FileId, p: int, dirty: bool): (r: Outcome)
    requires Consistent(s)
    ensures WellFormed(r.state) && |r.state.table| == |s.table|
  {
    var lk := Lookup(s.index, (Ptr(f), p));
    if lk.Err? then Outcome(lk.status, s)
    else
      var i := lk.value;
      if s.table[i].pinCnt == 0 then Outcome(PAGENOTPINNED, s)
      else
        var d := s.table[i];
        Outcome(OK, s.(table := s.table[i := d.(dirty := d.dirty || dirty, pinCnt := d.pinCnt - 1)]))
  }

  /** The status, the new page number, the frame handed back and the new
      state. */
  datatype Allocation = Allocation(status: Status, pageNo: int, frame: int, state: PoolState)

  /** allocPage: extend the file in the store, evict a frame, index the new
      page and bind the frame by Set. The frame's contents are not touched. */
  function Alloc(s: PoolState, f: FileId): (r: Allocation)
    requires Consistent(s)
    ensures WellFormed(r.state) && |r.state.table| == |s.table|
  {
    var a := AllocatePage(s.disk, f);
    if a.0 != OK then Allocation(a.0, a.1, 0, s)
    else
      var e := Evict(s.(disk := a.2));
      if e.status != OK then Allocation(e.status, a.1, e.frame, e.state)
      else
        var v := e.frame;
        var ins := Insert(e.state.index, (Ptr(f), a.1), v);
        if ins.0 != OK then Allocation(ins.0, a.1, v, e.state)
        else Allocation(OK, a.1, v, e.state.(index := ins.1, table := e.state.table[v := e.state.table[v].Set(f, a.1)]))
  }

  /** disposePage: clear the frame of a resident page, drop its index entry
      and release the page in the store, whose status is the result. */
  function Dispose(s: PoolState, f: FileId, p: int): (r: Outcome)
    requires Consistent(s)
    ensures WellFormed(r.state) && |r.state.table| == |s.table|
  {
    var k := (Ptr(f), p);
    var lk := Lookup(s.index, k);
    var t := if lk.Ok? then s.table[lk.value := s.table[lk.value].Clear()] else s.table;
    var d := DisposePage(s.disk, f, p);
    Outcome(d.0, s.(table := t, index := Remove(s.index, k).1, disk := d.1))
  }
}

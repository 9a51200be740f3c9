/** The state of the buffer manager as one value, and the invariant its
    operations keep. */
module BufState {
  import opened BufTypes
  import opened BufHash
  import opened PageFile

  /** The frame descriptor table, the frames, the page-identity index, the
      page store and the clock hand. */
  datatype PoolState = PoolState(
    table: seq<BufDesc>,
    pool: seq<Page>,
    index: Index,
    disk: Disk,
    hand: int)

  /** The shape every state has: a non-empty table, one frame per
      descriptor, the hand on a frame. */
  predicate WellFormed(s: PoolState)
  {
    |s.table| > 0 && |s.pool| == |s.table| && 0 <= s.hand < |s.table|
  }

  /** A descriptor is in order: a valid one names a file, an invalid one
      names none and is neither pinned nor dirty. */
  predicate DescOk(d: BufDesc)
  {
    if d.valid then d.file != Null else d.file == Null && d.pinCnt == 0 && !d.dirty
  }

  /** Frame `i` is the one the index maps its key to. */
  predicate Indexed(s: PoolState, i: int)
    requires 0 <= i < |s.table|
  {
    s.table[i].Key() in s.index && s.index[s.table[i].Key()] == i
  }

  /** Frame `i` still names a page but lost its index entry: an evicted
      clean frame whose refill did not complete. */
  predicate Stale(s: PoolState, i: int)
    requires 0 <= i < |s.table|
  {
    s.table[i].valid && s.table[i].Key() !in s.index &&
    s.table[i].pinCnt == 0 && !s.table[i].dirty
  }

  /** The invariant the buffer manager keeps. Every index entry leads to a
      valid frame bound to that key; every valid frame is indexed, except
      that the frame under the clock hand may be stale. */
  predicate Consistent(s: PoolState)
  {
    WellFormed(s) &&
    (forall i :: 0 <= i < |s.table| ==> s.table[i].frameNo == i && DescOk(s.table[i])) &&
    (forall k :: k in s.index ==>
       0 <= s.index[k] < |s.table| && s.table[s.index[k]].valid && s.table[s.index[k]].Key() == k) &&
    (forall i :: 0 <= i < |s.table| && s.table[i].valid ==>
       Indexed(s, i) || (i == s.hand && Stale(s, i)))
  }

  /** The index agrees with the page store: every entry names a page the
      store holds, and the store hands out fresh page numbers. */
  predicate Backed(index: Index, d: Disk)
  {
    StoreOk(d) &&
    forall k :: k in index ==> k.0.Ptr? && (k.0.id, k.1) in d.pages
  }

  /** In a consistent state no two valid frames hold the same page, and a
      pinned or dirty frame is always reachable through the index. */
  lemma ConsistentFacts(s: PoolState, i: int, j: int)
    requires Consistent(s) && 0 <= i < |s.table| && 0 <= j < |s.table|
    ensures s.table[i].valid && s.table[j].valid && i != j ==> s.table[i].Key() != s.table[j].Key()
    ensures s.table[i].pinCnt > 0 || s.table[i].dirty ==> s.table[i].valid && Indexed(s, i)
  {
  }

  /** Which frames a write-back covers: every valid dirty frame, or only
      those of one file. */
  datatype Scope = AllFiles | OneFile(id: FileId)

  predicate InScope(d: BufDesc, sc: Scope)
  {
    d.valid && d.dirty && d.file.Ptr? && (sc.OneFile? ==> d.file == Ptr(sc.id))
  }

  /** The frames from `i` on, in table order, that a write-back of scope
      `sc` must write. */
  function DirtyFrames(t: seq<BufDesc>, sc: Scope, i: nat): (fs: seq<int>)
    requires i <= |t|
    ensures forall m :: 0 <= m < |fs| ==> i <= fs[m] < |t| && InScope(t[fs[m]], sc)
    decreases |t| - i
  {
    if i == |t| then []
    else if InScope(t[i], sc) then [i] + DirtyFrames(t, sc, i + 1)
    else DirtyFrames(t, sc, i + 1)
  }

  /** Exactly the frames in scope are listed, each once, in table order. */
  lemma {:induction false} DirtyFramesExact(t: seq<BufDesc>, sc: Scope, i: nat)
    requires i <= |t|
    ensures forall j :: j in DirtyFrames(t, sc, i) <==> i <= j < |t| && InScope(t[j], sc)
    ensures forall a, b :: 0 <= a < b < |DirtyFrames(t, sc, i)| ==>
      DirtyFrames(t, sc, i)[a] < DirtyFrames(t, sc, i)[b]
    decreases |t| - i
  {
    if i < |t| {
      DirtyFramesExact(t, sc, i + 1);
    }
  }

  /** The page-store key a frame in scope is written to. */
  function DiskKeyOf(d: BufDesc): (k: DiskKey)
    requires d.file.Ptr?
  {
    (d.file.id, d.pageNo)
  }

  /** The write requests for the listed frames, in order. */
  function WriteRequests(t: seq<BufDesc>, fs: seq<int>): (ws: seq<DiskKey>)
    requires forall m :: 0 <= m < |fs| ==> 0 <= fs[m] < |t| && t[fs[m]].file.Ptr?
    ensures |ws| == |fs|
    ensures forall m :: 0 <= m < |fs| ==> ws[m] == DiskKeyOf(t[fs[m]])
  {
    seq(|fs|, m requires 0 <= m < |fs| => DiskKeyOf(t[fs[m]]))
  }

  lemma WriteRequestsAgree(t: seq<BufDesc>, t': seq<BufDesc>, i: int, fs: seq<int>)
    requires 0 <= i && |t| == |t'|
    requires forall m :: 0 <= m < |fs| ==> i <= fs[m] < |t| && t[fs[m]].file.Ptr?
    requires forall m :: i <= m < |t| ==> t[m] == t'[m]
    ensures WriteRequests(t, fs) == WriteRequests(t', fs)
  {
  }

  /** Listing frame `i` first puts its key first, after any prefix. */
  lemma WriteRequestsCons(pre: seq<DiskKey>, t: seq<BufDesc>, i: int, fs: seq<int>)
    requires 0 <= i < |t| && t[i].file.Ptr?
    requires forall m :: 0 <= m < |fs| ==> 0 <= fs[m] < |t| && t[fs[m]].file.Ptr?
    ensures pre + WriteRequests(t, [i] + fs) == pre + [DiskKeyOf(t[i])] + WriteRequests(t, fs)
  {
    var l, r := WriteRequests(t, [i] + fs), [DiskKeyOf(t[i])] + WriteRequests(t, fs);
    forall m | 0 <= m < |l| ensures l[m] == r[m] {
      if m > 0 {
        assert ([i] + fs)[m] == fs[m - 1];
      }
    }
    assert pre + l == pre + [DiskKeyOf(t[i])] + WriteRequests(t, fs);
  }
}

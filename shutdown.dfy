/** The destructor's write-back: every valid dirty frame, in table order,
    is written to its page; failures are ignored. */
module WriteBackSpec {
  import opened BufTypes
  import opened PageFile
  import opened BufState

  /** Every valid frame names a file, so the destructor can call it. */
  predicate FilesBound(t: seq<BufDesc>)
  {
    forall j :: 0 <= j < |t| && t[j].valid ==> t[j].file.Ptr?
  }

  /** The store after frames `i..` have been written back. */
  function WriteBack(t: seq<BufDesc>, pool: seq<Page>, d: Disk, i: nat): (r: Disk)
    requires |pool| == |t| && i <= |t| && FilesBound(t)
    ensures r.writes == d.writes + WriteRequests(t, DirtyFrames(t, AllFiles, i))
    ensures r.pages.Keys == d.pages.Keys && r.faulty == d.faulty
    ensures r.extent == d.extent && r.full == d.full
    decreases |t| - i
  {
    if i == |t| then d
    else if t[i].valid && t[i].dirty then
      var r := WriteBack(t, pool, WritePage(d, t[i].file.id, t[i].pageNo, pool[i]).1, i + 1);
      WriteRequestsCons(d.writes, t, i, DirtyFrames(t, AllFiles, i + 1));
      r
    else WriteBack(t, pool, d, i + 1)
  }

  /** Shutdown writes back exactly the valid dirty frames, each once, in
      table order, and nothing else: the store receives one request per
      such frame, for that frame's page. */
  lemma ShutdownWritesExactly(t: seq<BufDesc>, pool: seq<Page>, d: Disk)
    requires |pool| == |t| && FilesBound(t)
    ensures var fs, r := DirtyFrames(t, AllFiles, 0), WriteBack(t, pool, d, 0);
      (forall j :: j in fs <==> 0 <= j < |t| && t[j].valid && t[j].dirty) &&
      (forall a, b :: 0 <= a < b < |fs| ==> fs[a] < fs[b]) &&
      |r.writes| == |d.writes| + |fs| && r.writes[..|d.writes|] == d.writes &&
      (forall m :: 0 <= m < |fs| ==> r.writes[|d.writes| + m] == (t[fs[m]].file.id, t[fs[m]].pageNo))
  {
    DirtyFramesExact(t, AllFiles, 0);
    var fs, r := DirtyFrames(t, AllFiles, 0), WriteBack(t, pool, d, 0);
    assert r.writes == d.writes + WriteRequests(t, fs);
  }

  /** A page that no valid dirty frame from `i` on names keeps its
      contents. */
  lemma {:induction false} WriteBackKeepsPage(t: seq<BufDesc>, pool: seq<Page>, d: Disk, i: nat, k: DiskKey)
    requires |pool| == |t| && i <= |t| && FilesBound(t) && k in d.pages
    requires forall m :: i <= m < |t| && t[m].valid && t[m].dirty ==> DiskKeyOf(t[m]) != k
    ensures WriteBack(t, pool, d, i).pages[k] == d.pages[k]
    decreases |t| - i
  {
    if i < |t| {
      if t[i].valid && t[i].dirty {
        WriteBackKeepsPage(t, pool, WritePage(d, t[i].file.id, t[i].pageNo, pool[i]).1, i + 1, k);
      } else {
        WriteBackKeepsPage(t, pool, d, i + 1, k);
      }
    }
  }

  /** Write-back persists: a valid dirty frame from `i` on whose page the
      store can write, and which no later valid dirty frame shares, leaves
      its contents in that page. */
  lemma {:induction false} WriteBackPersists(t: seq<BufDesc>, pool: seq<Page>, d: Disk, i: nat, j: nat)
    requires |pool| == |t| && i <= j < |t| && FilesBound(t)
    requires t[j].valid && t[j].dirty && Writable(d, DiskKeyOf(t[j]))
    requires forall m :: j < m < |t| && t[m].valid && t[m].dirty ==> DiskKeyOf(t[m]) != DiskKeyOf(t[j])
    ensures WriteBack(t, pool, d, i).pages[DiskKeyOf(t[j])] == pool[j]
    decreases |t| - i
  {
    var k := DiskKeyOf(t[j]);
    if t[i].valid && t[i].dirty {
      var d' := WritePage(d, t[i].file.id, t[i].pageNo, pool[i]).1;
      if i == j {
        WriteBackKeepsPage(t, pool, d', i + 1, k);
      } else {
        WriteBackPersists(t, pool, d', i + 1, j);
      }
    } else {
      WriteBackPersists(t, pool, d, i + 1, j);
    }
  }

  /** Under the invariant no two valid frames hold the same page, so the
      destructor leaves every valid dirty frame's contents in its page,
      wherever the store can write that page. */
  lemma ShutdownPersists(s: PoolState, j: int)
    requires Consistent(s) && 0 <= j < |s.table|
    requires s.table[j].valid && s.table[j].dirty && Writable(s.disk, DiskKeyOf(s.table[j]))
    ensures FilesBound(s.table)
    ensures WriteBack(s.table, s.pool, s.disk, 0).pages[DiskKeyOf(s.table[j])] == s.pool[j]
  {
    var t := s.table;
    assert FilesBound(t);
    forall m | j < m < |t| && t[m].valid && t[m].dirty
      ensures DiskKeyOf(t[m]) != DiskKeyOf(t[j])
    {
      ConsistentFacts(s, m, j);
    }
    WriteBackPersists(t, s.pool, s.disk, 0, j);
  }
}

/** The page store behind the File objects the buffer manager calls into.
    Every open file is one FileId; all of them together are one Disk value.
    The store is a stand-in with a stated contract: a failure oracle (a set
    of faulty pages and a set of full files) decides which calls fail, and
    every write request is recorded in order, so that what the buffer
    manager writes back can be stated exactly. */
module PageFile {
  import opened BufTypes

  /** A page of a file in the store: (file, page number). */
  type DiskKey = (FileId, int)

  datatype Disk = Disk(
    pages: map<DiskKey, Page>,   // the allocated pages and their contents
    extent: map<FileId, nat>,    // the next page number each file hands out
    writes: seq<DiskKey>,        // every writePage request, in order
    faulty: set<DiskKey>,        // pages whose I/O fails
    full: set<FileId>)           // files that cannot grow

  /** A write to `k` succeeds. */
  predicate Writable(d: Disk, k: DiskKey)
  {
    k in d.pages && k !in d.faulty
  }

  /** File::readPage. */
  function ReadPage(d: Disk, f: FileId, p: int): (r: Result<Page>)
    ensures r.Ok? <==> Writable(d, (f, p))
    ensures r.Ok? ==> r.value == d.pages[(f, p)]
    ensures r.Err? ==> r.status == (if (f, p) in d.pages then UNIXERR else BADPAGENO)
  {
    if (f, p) !in d.pages then Err(BADPAGENO)
    else if (f, p) in d.faulty then Err(UNIXERR)
    else Ok(d.pages[(f, p)])
  }

  /** File::writePage: the request is recorded; the contents are stored
      only when it succeeds. */
  function WritePage(d: Disk, f: FileId, p: int, pg: Page): (r: (Status, Disk))
    ensures r.0 == OK <==> Writable(d, (f, p))
    ensures r.0 != OK ==> r.0 == (if (f, p) in d.pages then UNIXERR else BADPAGENO)
    ensures r.1.writes == d.writes + [(f, p)]
    ensures r.1.pages == if r.0 == OK then d.pages[(f, p) := pg] else d.pages
    ensures r.1.pages.Keys == d.pages.Keys
    ensures r.1.extent == d.extent && r.1.faulty == d.faulty && r.1.full == d.full
  {
    var st := if (f, p) !in d.pages then BADPAGENO
              else if (f, p) in d.faulty then UNIXERR
              else OK;
    (st, d.(writes := d.writes + [(f, p)],
            pages := if st == OK then d.pages[(f, p) := pg] else d.pages))
  }

  /** The page number file `f` hands out next. */
  function Extent(d: Disk, f: FileId): (next: nat)
  {
    if f in d.extent then d.extent[f] else 0
  }

  /** The store hands out fresh page numbers: every allocated page lies
      below its file's extent. */
  predicate StoreOk(d: Disk)
  {
    forall k :: k in d.pages ==> 0 <= k.1 < Extent(d, k.0)
  }

  /** File::allocatePage: extend the file by one blank page. In a store in
      order the page handed out was not allocated before, and the store
      stays in order. */
  function AllocatePage(d: Disk, f: FileId): (r: (Status, int, Disk))
    ensures r.0 == OK <==> f !in d.full
    ensures r.0 != OK ==> r.0 == UNIXERR && r.2 == d
    ensures r.0 == OK ==> r.1 == Extent(d, f) && r.2.pages == d.pages[(f, r.1) := Blank]
    ensures r.0 == OK ==> Extent(r.2, f) == r.1 + 1
    ensures r.0 == OK && StoreOk(d) ==> (f, r.1) !in d.pages && StoreOk(r.2)
    ensures r.2.writes == d.writes && r.2.faulty == d.faulty
  {
    if f in d.full then (UNIXERR, 0, d)
    else
      var n := Extent(d, f);
      (OK, n, d.(pages := d.pages[(f, n) := Blank], extent := d.extent[f := n + 1]))
  }

  /** File::disposePage: release a page of the file. */
  function DisposePage(d: Disk, f: FileId, p: int): (r: (Status, Disk))
    ensures r.0 == OK <==> Writable(d, (f, p))
    ensures r.0 == OK ==> r.1 == d.(pages := d.pages - {(f, p)})
    ensures r.0 != OK ==> r.1 == d
    ensures r.0 != OK ==> r.0 == (if (f, p) in d.pages then UNIXERR else BADPAGENO)
  {
    if (f, p) !in d.pages then (BADPAGENO, d)
    else if (f, p) in d.faulty then (UNIXERR, d)
    else (OK, d.(pages := d.pages - {(f, p)}))
  }
}

/** Types shared by the buffer manager and its collaborators: status codes,
    file and page identities, page contents and frame descriptors. */
module BufTypes {

  /** The status codes returned by the buffer manager, its page-identity
      index and the page store. */
  datatype Status =
    | OK
    | BADPAGENO       // the page store holds no such page
    | UNIXERR         // an I/O error in the page store
    | HASHNOTFOUND    // the index has no entry for the key
    | HASHTBLERROR    // the index already has an entry for the key
    | PAGENOTPINNED
    | PAGEPINNED
    | BUFFEREXCEEDED
    | BADBUFFER

  /** A value or the status that explains why there is none. */
  datatype Result<T> = Ok(value: T) | Err(status: Status)

  /** The identity of an open file: the address of its File object. */
  type FileId = nat

  /** A File pointer as a frame descriptor stores it; it may be NULL. */
  datatype FileRef = Null | Ptr(id: FileId)

  /** The key of the page-identity index: file pointer and page number. */
  type PageKey = (FileRef, int)

  /** The contents of one page; the buffer manager never looks inside. */
  datatype Page = Page(bytes: seq<bv8>)

  /** The contents of a zero-filled frame. */
  const Blank := Page([])

  /** One entry of the frame descriptor table. */
  datatype BufDesc = BufDesc(
    file: FileRef,    // file of the page held, NULL when unbound
    pageNo: int,      // page number within that file
    frameNo: int,     // the frame this descriptor belongs to
    pinCnt: nat,      // outstanding references to the frame
    dirty: bool,      // contents differ from the page store
    valid: bool,      // the frame holds a page
    refbit: bool)     // recently referenced, consumed by the clock
  {
    /** The index key of the page this descriptor names. */
    function Key(): PageKey { (file, pageNo) }

    /** BufDesc::Set: bind the frame to page `p` of file `f`, valid,
        clean, with a single pin and the reference bit set. */
    function Set(f: FileId, p: int): (d: BufDesc)
      ensures d.valid && d.Key() == (Ptr(f), p) && d.frameNo == frameNo
      ensures d.pinCnt == 1 && !d.dirty && d.refbit
    {
      BufDesc(Ptr(f), p, frameNo, 1, false, true, true)
    }

    /** BufDesc::Clear: unbind the frame and reset every flag. */
    function Clear(): (d: BufDesc)
      ensures !d.valid && d.file == Null && d.frameNo == frameNo
      ensures d.pinCnt == 0 && !d.dirty && !d.refbit
    {
      BufDesc(Null, -1, frameNo, 0, false, false, false)
    }

    /** What flushFile leaves in a descriptor it writes back and discards:
        no file, page number -1, invalid and clean; pin count and reference
        bit are left as they were. */
    function Unbind(): (d: BufDesc)
      ensures !d.valid && d.file == Null && !d.dirty
      ensures d.frameNo == frameNo && d.pinCnt == pinCnt && d.refbit == refbit
    {
      this.(dirty := false, file := Null, pageNo := -1, valid := false)
    }
  }

  /** A descriptor as the zero-filled allocation of the table leaves it. */
  const ZeroDesc := BufDesc(Null, 0, 0, 0, false, false, false)
}

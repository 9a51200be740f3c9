# Buffer pool manager (BufMgr) in Dafny

This project models the buffer-pool manager `BufMgr` of buf.C and proves what
it does. The manager caches disk pages in a fixed number of frames. It keeps:

- a frame descriptor table `bufTable` (file, page number, pin count, dirty,
  valid and reference bits per frame);
- the frames themselves, `bufPool`;
- a page-identity index `hashTable` from (file, page number) to frame;
- a persistent clock hand `clockHand`;
- a counter of page-store reads, `diskreads`.

`allocBuf` finds a frame with a clock scan. `readPage`, `unPinPage`,
`allocPage`, `disposePage`, `flushFile` and the destructor use it and the
index to pin, unpin, bind, drop and write back pages.

The model has two layers:

- **The object.** `BufManager.BufMgr` is a class. The descriptor table and
  the frames are arrays updated in place. The index, the hand, the counter
  and the page store are fields. Each method is a step-by-step copy of its
  C++ counterpart, and each method's `ensures` ties its new state to a
  function of the state before the call.
- **The functions.** `EvictSpec.Evict` (allocBuf), `FlushSpec.Flush`
  (flushFile), `WriteBackSpec.WriteBack` (destructor) and `BufOps.Read`,
  `Unpin`, `Alloc`, `Dispose` are pure functions. All of them except
  `WriteBack` work on a whole `BufState.PoolState`. `WriteBack` takes the
  descriptor table, the frames, the store and a position `(t, pool, d, i)`.
  Lemmas about them state what the manager promises.

The methods need the invariant `BufState.Consistent` and keep it:

- every index entry leads to a valid frame bound to that key;
- every valid frame is indexed, except that the frame under the clock hand
  may be *stale*: valid, clean, unpinned and unindexed.

A stale frame arises when a clean frame is evicted and the refill that
follows fails: `allocBuf` removes the index entry but does not clear the
descriptor. `BufOpsFacts.ReadLeavesStaleFrame` shows one: from a state in
which every valid frame is indexed, one readPage leaves a frame stale. So
"an index entry exists exactly for each valid frame" is not an invariant
of the code, and the model keeps the weaker one above.

A second invariant, `BufState.Backed`, ties the index to the page store:

- every index entry names a page the store holds;
- the store is in order (`PageFile.StoreOk`): every allocated page lies
  below its file's extent, so `allocatePage` always hands out a fresh page.

The constructor establishes `Backed` exactly when the store it is given is
in order. Every operation keeps it (`StoreFacts`). Under it, allocPage never
fails with HASHTBLERROR.

The collaborators are stated by contract only. They are declared in headers
that are not part of this model:

- **The index** (`BufHash`) is a map. `insert` refuses an existing key with
  HASHTBLERROR; `lookup` and `remove` report HASHNOTFOUND.
- **The page store** (`PageFile`) stands for every `File` object at once.
  It holds a map of pages and an extent per file; the next page `allocatePage`
  hands out is the file's extent. A failure oracle decides
  which calls fail: a set of faulty pages (UNIXERR) and a set of full files
  that cannot grow. It also keeps a log of every write request, so what is
  written back can be stated exactly.
- **`BufDesc::Set` and `BufDesc::Clear`** are functions with stated
  results.
- **`advanceClock`** is `(clockHand + 1) % numBufs`.

Where the code and its design description disagree, the model follows the
code:

- **No real second chance.** allocBuf clears the reference bit
  (buf.C:77-78) and tests it again in the same iteration (buf.C:87). An
  unpinned frame is therefore taken at once, whatever its reference bit
  was; it is never skipped.
- **The counter.** The counter that ends the scan grows only on pinned
  frames (buf.C:80-81). Since the first unpinned frame ends the scan,
  exhaustion means exactly numBufs + 1 inspections, not two passes round
  the pool.
- **A dirty victim flushes its whole file.** It is not written alone
  (buf.C:92); any non-OK status of that flush becomes UNIXERR (buf.C:94-96).
  So one pinned frame of the victim's file makes allocBuf fail, although
  the victim itself is free.
- **A clean victim** loses its index entry (buf.C:104) but its descriptor
  is not cleared. This is where the stale frame above comes from.
- **readPage on a hit** only adds a pin; it does not set the reference bit
  (buf.C:121).
- **allocPage** does not read the new page into the frame. The frame keeps
  the bytes of whatever it held before (buf.C:184-190).
- **A failing allocPage.** If allocBuf fails after `allocatePage`
  succeeded, the new page stays allocated in the store.
- **disposePage** clears the descriptor of a resident page even when it is
  pinned. It returns the store's status and ignores that of `remove`
  (buf.C:203-208).
- **The while condition is never false.** allocBuf has no return after its
  loop (buf.C:112-113). The model proves that every path out of the loop is
  one of its explicit returns.

The source's `allocBuf` is one method. Here it is split in three:

- `Sweep` is the loop;
- `Replace` is the replacement branch;
- `AllocBuf` runs one after the other.

Its page pointer out-parameters are modelled as frame numbers.

## Model

| member | source | states |
|---|---|---|
| BufTypes.BufDesc.Set | buf.C:141 | binding a frame to (file, page) makes it valid, clean, pinned once, with that key, the reference bit set and its frame number kept |
| BufTypes.BufDesc.Clear | buf.C:203 | clearing a frame leaves it invalid, unbound, unpinned, clean, unreferenced, with its frame number kept |
| BufTypes.BufDesc.Unbind | buf.C:234-241 | a frame flushFile releases is invalid, bound to no file and clean; its pin count, reference bit and frame number are kept |
| BufHash.Lookup | buf.C:118 | lookup succeeds exactly when the key is indexed, with its frame; otherwise HASHNOTFOUND |
| BufHash.Insert | buf.C:136 | insert succeeds exactly when the key is absent, and then adds that one binding; otherwise HASHTBLERROR and no change |
| BufHash.Remove | buf.C:104 | remove drops the key's entry; HASHNOTFOUND exactly when there was none, and then nothing changes |
| PageFile.ReadPage | buf.C:131 | a read succeeds exactly on an allocated, non-faulty page and returns its contents; otherwise UNIXERR or BADPAGENO |
| PageFile.WritePage | buf.C:230-231 | every write request is logged; it stores the contents exactly when the page is allocated and not faulty, and changes no failure, extent or set of pages |
| PageFile.AllocatePage | buf.C:174 | allocation fails with UNIXERR, changing nothing, exactly on a full file; otherwise it hands out the file's extent as a new blank page, grows the extent by one and logs no write; in a store in order that page was not allocated before, and the store stays in order |
| PageFile.DisposePage | buf.C:208 | disposal succeeds exactly on an allocated, non-faulty page and removes just that page; otherwise the store is unchanged |
| BufState.Consistent | buf.C:101-141 | the invariant every public method needs and keeps: index entries lead to valid frames bound to their key, and every valid frame is indexed except a stale one under the hand |
| BufState.ConsistentFacts | buf.C:115-146 | under the invariant no two valid frames hold the same page, and a pinned or dirty frame is valid and indexed |
| BufState.DirtyFrames | buf.C:51-54 | the frames from a given one on that a write-back of a scope must write: each lies in that range and is valid, dirty and of the scope |
| BufState.DirtyFramesExact | buf.C:51-54 | the frames listed for write-back are exactly the valid dirty ones of the scope, in increasing table order |
| Clock.ScanFrom | buf.C:75-87 | the scan distance from the hand is at most the table size; when it is less, it lands on an unpinned frame and every frame passed is pinned |
| Clock.ScanFindsVictim | buf.C:75-87 | the scan finds nothing exactly when every frame is pinned; otherwise it lands on the victim, at that distance from the hand |
| Clock.VictimUnique | buf.C:75-87 | there is at most one first unpinned frame from the hand |
| Clock.VictimExists | buf.C:75-87 | a victim exists exactly when some frame is unpinned |
| Clock.ClearRefs | buf.C:77-78 | the table after the hand has inspected k frames, each inspection clearing that frame's reference bit; the table keeps its length |
| Clock.ClearRefsOnlyClears | buf.C:77-78 | the inspections change only reference bits, and only from set to clear |
| Clock.ClearRefsAtPoint | buf.C:77-78 | after k inspections from the hand, a frame has its reference bit cleared if the hand has passed it, and is otherwise unchanged |
| Clock.ClearRefsAt | buf.C:77-78 | the same for every frame at once |
| Clock.ClearRefsIdle | buf.C:77-78 | inspecting a frame whose reference bit is already clear changes nothing |
| EvictSpec.Evict | buf.C:70-113 | allocBuf returns OK, BUFFEREXCEEDED or UNIXERR, hands back the frame under the hand, keeps the table size and never changes a frame's contents |
| EvictSpec.Take | buf.C:87-109 | the replacement returns OK or UNIXERR, leaves the hand where it is and hands back the frame under it |
| EvictFacts.ScanKeepsConsistent | buf.C:75-86 | the scan keeps the invariant and stops on an unpinned frame |
| EvictFacts.EvictSplit | buf.C:70-113 | allocBuf is the scan followed by the replacement; the scan changes only reference bits and the hand |
| EvictFacts.EvictExhausted | buf.C:75-86 | BUFFEREXCEEDED exactly when every frame is pinned; then the hand, index and store are unchanged and every frame only has its reference bit cleared |
| EvictFacts.EvictVictim | buf.C:75-110 | otherwise the frame is the first unpinned one at or after the hand in clock order, the hand is on it, and every frame passed, the victim included, has its reference bit clear |
| EvictFacts.NoSecondChance | buf.C:77-87 | an unpinned frame under the hand is taken at once even if its reference bit was set |
| EvictFacts.TakeClean | buf.C:101-108 | a clean frame under the hand is taken with OK, loses its index entry and nothing else changes |
| EvictFacts.EvictClean | buf.C:101-108 | a clean victim: OK, store unchanged, index minus the victim's key, frames changed only in reference bits |
| EvictFacts.TakeDirty | buf.C:90-99 | replacing a dirty frame under the hand leaves exactly the state, store included, of flushing its whole file; it is taken exactly when that flush succeeds, and then it is invalid, and no frame or index entry of that file and no entry leading to it remains |
| EvictFacts.EvictDirty | buf.C:90-99 | the same for the victim of allocBuf: its state is that of flushing the victim's file from the scanned state |
| EvictFacts.EvictDirtyPersists | buf.C:89-99 | after allocBuf succeeds on a dirty victim, the victim's contents are in its page in the store |
| EvictFacts.TakeDirtySiblingPinned | buf.C:92-96 | a pinned frame of the dirty frame's file makes the replacement fail with UNIXERR |
| EvictFacts.EvictDirtySiblingPinned | buf.C:92-96 | a pinned frame of a dirty victim's file makes allocBuf fail with UNIXERR |
| EvictFacts.TakeKeepsConsistent | buf.C:87-109 | the replacement keeps the invariant, only removes index entries, and on OK hands out a frame that is unpinned, clean, and reached by no index entry |
| EvictFacts.EvictKeepsConsistent | buf.C:70-113 | allocBuf keeps the invariant, only removes index entries, and on OK hands out the frame under the hand, free to be refilled |
| EvictFacts.ClearRefsKeepConsistent | buf.C:77-78 | clearing reference bits keeps the invariant |
| EvictFacts.TakeSparesPinned | buf.C:87-109 | the replacement leaves a pinned frame's descriptor, contents and index entry alone |
| EvictFacts.EvictSparesPinned | buf.C:70-113 | allocBuf never evicts a pinned frame: its descriptor (up to the reference bit), contents and index entry are kept |
| EvictFacts.TakeKeepsStore | buf.C:87-109 | the replacement allocates and releases no page and changes no failure or extent, and leaves any page that no resident page names with its contents |
| EvictFacts.FirstScanTakesLast | buf.C:44-87 | on a freshly constructed pool the first allocBuf succeeds and takes the last frame, the one the hand starts on |
| EvictFacts.EvictKeepsStore | buf.C:70-113 | the same for allocBuf |
| FlushSpec.Flush | buf.C:211-249 | flushFile keeps the table size, the frames' contents and the hand, and returns OK, PAGEPINNED, BADBUFFER, BADPAGENO or UNIXERR |
| FlushFacts.WriteFrameFacts | buf.C:224-235 | a clean frame is not written; a dirty one issues one write request for its page, which stores the frame's contents exactly when the page is writable; pages, extents and failures are kept |
| FlushFacts.ReleaseFacts | buf.C:237-241 | a released frame is invalid and bound to no file, keeps its pin count, and exactly its key leaves the index; no other frame or entry changes, nor the frames' contents or the hand |
| FlushFacts.FirstBlocked | buf.C:215-246 | the first frame that stops the flush: every frame before it lets the flush through and it does not |
| FlushFacts.ReleaseStep | buf.C:218-241 | a frame of the file that does not stop the flush is written back if dirty, unbound and unindexed, and the flush goes on |
| FlushFacts.SkipStep | buf.C:215-246 | a frame of another file is skipped |
| FlushFacts.StopStep | buf.C:221-232 | a frame of the file that stops the flush ends it with its blocking status, leaving table and index as they were |
| FlushFacts.FlushEffects | buf.C:215-246 | whatever the status, each frame is unchanged or was a valid unpinned frame of the file now unbound and unindexed; the index only loses entries, each of a frame it unbound |
| FlushFacts.FlushStatus | buf.C:215-248 | OK exactly when no frame of the file blocks; otherwise the first blocking frame's status: BADBUFFER, PAGEPINNED, UNIXERR or BADPAGENO |
| FlushFacts.FlushNoRollback | buf.C:215-246 | frames of the file before the first blocking one stay unbound; that frame and all later ones are untouched |
| FlushFacts.FlushWrites | buf.C:224-235 | a successful flush requests one write per dirty frame of the file, in table order, and no other |
| FlushFacts.ReleaseWrites | buf.C:224-241 | releasing a frame moves its page's write, if it is dirty, from due to done |
| FlushFacts.FlushKeepsPage | buf.C:230-231 | a page that no frame of the file names keeps its contents in the store |
| FlushFacts.FlushKeepsStoreShape | buf.C:230-231 | a flush allocates and releases no page and changes no failure, extent or full file |
| FlushFacts.FlushPersists | buf.C:224-235 | after a successful flush the store holds each dirty frame's contents for its page, provided no other frame of the file names the same page |
| FlushFacts.FlushPersistsConsistent | buf.C:224-235 | under the invariant, after a successful flush every dirty frame of the file has its contents in its page, with no proviso |
| FlushFacts.FlushEffectsRelease | buf.C:224-241 | the FlushEffects frame and index description, for a pass that starts by releasing a flushable frame of the file |
| FlushFacts.FlushKeepsIndexed | buf.C:215-246 | under the invariant, an indexed frame that the flush leaves unchanged keeps its index entry |
| FlushFacts.FlushKeepsConsistent | buf.C:211-249 | flushFile keeps the invariant, whatever its status |
| FlushFacts.FlushClearsFile | buf.C:215-248 | after a successful flush no frame and no index entry of the file remains |
| FlushFacts.FlushNeverBadBuffer | buf.C:244-245 | under the invariant the defensive BADBUFFER check never fires |
| WriteBackSpec.WriteBack | buf.C:51-64 | the destructor logs one write per valid dirty frame from the given one on, and changes no failure, extent or set of pages |
| WriteBackSpec.ShutdownWritesExactly | buf.C:51-64 | the destructor writes back exactly the valid dirty frames, each once, in table order, each to its own page, and nothing else |
| WriteBackSpec.WriteBackKeepsPage | buf.C:51-64 | a page that no valid dirty frame from the given one on names keeps its contents |
| WriteBackSpec.WriteBackPersists | buf.C:54-62 | a valid dirty frame whose page is writable and that no later valid dirty frame shares leaves its own contents in that page |
| WriteBackSpec.ShutdownPersists | buf.C:51-64 | under the invariant, after the destructor every valid dirty frame's page holds that frame's contents, wherever the store can write the page |
| BufOps.Read | buf.C:115-146 | readPage keeps the table size and the well-formedness of the state |
| BufOps.Unpin | buf.C:148-168 | unPinPage keeps the table size and the well-formedness of the state |
| BufOps.Alloc | buf.C:170-192 | allocPage keeps the table size and the well-formedness of the state |
| BufOps.Dispose | buf.C:194-209 | disposePage keeps the table size and the well-formedness of the state |
| BufOpsFacts.BindKeepsConsistent | buf.C:136-141 | binding a free frame under the hand to an unindexed page keeps the invariant |
| BufOpsFacts.ReadHit | buf.C:118-123 | a resident page gains exactly one pin, with OK, no read counted and nothing else changed |
| BufOpsFacts.ReadMiss | buf.C:125-143 | a miss succeeds exactly when a frame can be evicted and the page read; the read is counted exactly then; the frame is then allocBuf's victim, holds the page's contents, is indexed under it and is bound by Set; the index is allocBuf's plus that entry, and every other frame, every other frame's contents, the store and the hand are those allocBuf left |
| BufOpsFacts.ReadLeavesStaleFrame | buf.C:101-134 | from a state with one clean indexed frame, a readPage whose store read fails returns UNIXERR and leaves that frame valid, unindexed and stale |
| BufOpsFacts.ReadFails | buf.C:126-140 | a failing readPage on a miss reports the eviction's own status when the eviction fails, and the store read's own status when the read fails; the status is never HASHTBLERROR; it counts no read and leaves the page unindexed; BUFFEREXCEEDED exactly on a miss with every frame pinned |
| BufOpsFacts.ReadKeepsConsistent | buf.C:115-146 | readPage keeps the invariant, and a pinned frame keeps its page and contents |
| BufOpsFacts.UnpinFacts | buf.C:153-167 | HASHNOTFOUND exactly when not resident, PAGENOTPINNED exactly when unpinned, both changing nothing; otherwise one pin less, dirty is the old dirty or the argument, nothing else changes |
| BufOpsFacts.UnpinKeepsConsistent | buf.C:148-168 | unPinPage keeps the invariant |
| BufOpsFacts.AllocStoreFails | buf.C:174-178 | a full file makes allocPage fail with UNIXERR before any frame is sought, changing nothing; otherwise allocatePage succeeds |
| BufOpsFacts.AllocExtends | buf.C:174-183 | otherwise the file's next page number is handed out, that page exists and the extent grows by one, whatever follows |
| BufOpsFacts.AllocOk | buf.C:179-190 | on success the frame handed back is allocBuf's victim after the store was extended; the index is allocBuf's plus the new page under that frame; the frame is allocBuf's descriptor bound by Set (valid, clean, pinned once, reference bit set); every other frame, the store and the hand are allocBuf's; no frame's contents change |
| BufOpsFacts.AllocLeaks | buf.C:179-183 | if the eviction fails the status is the eviction's own, BUFFEREXCEEDED exactly when every frame is pinned and otherwise UNIXERR; the new page stays allocated and the index gains no entry |
| BufOpsFacts.AllocKeepsConsistent | buf.C:170-192 | allocPage keeps the invariant |
| BufOpsFacts.DisposeFacts | buf.C:199-208 | afterwards the page has no index entry and no other key is dropped or added; a resident page's frame is cleared even if pinned, and no other frame changes; the status and the new store are those of the store's disposePage: OK exactly when the page can be released, then the store loses that page and nothing else; otherwise UNIXERR for a faulty page or BADPAGENO for an unallocated one, with the store unchanged |
| BufOpsFacts.DisposeKeepsConsistent | buf.C:194-209 | disposePage keeps the invariant |
| StoreFacts.EvictKeepsBacked | buf.C:70-113 | allocBuf keeps the index backed by the store |
| StoreFacts.FlushKeepsBacked | buf.C:211-249 | flushFile keeps the index backed by the store |
| StoreFacts.ReadKeepsBacked | buf.C:115-146 | readPage keeps the index backed: it indexes a page only after the store has read it |
| StoreFacts.UnpinKeepsBacked | buf.C:148-168 | unPinPage keeps the index backed |
| StoreFacts.DisposeKeepsBacked | buf.C:194-209 | disposePage keeps the index backed: the page it releases loses its entry |
| StoreFacts.EvictAfterExtend | buf.C:174-183 | after the store hands out a fresh page, allocBuf keeps it allocated and unindexed |
| StoreFacts.AllocFresh | buf.C:170-192 | in a backed state allocPage never fails with HASHTBLERROR, hands out a page that was not allocated, and keeps the state backed |
| StoreFacts.FlushKeepsInvariants | buf.C:211-249 | flushFile keeps each of the two invariants that held before it |
| BufManager.BufMgr.constructor | buf.C:26-45 | numBufs frames, each invalid, zeroed and numbered by position; blank frames; an empty index; the hand on the last frame; no reads counted; the index is backed exactly when the given store is in order |
| BufManager.BufMgr.Shutdown | buf.C:47-68 | the store afterwards is the one WriteBack computes from the table and frames; nothing else changes |
| BufManager.BufMgr.AdvanceClock | buf.C:110 | the hand moves one frame on, wrapping from the last to the first |
| BufManager.BufMgr.AllocBuf | buf.C:70-113 | status, frame and new state are those of Evict; BUFFEREXCEEDED after numBufs + 1 inspections, otherwise after one more than the hand's distance travelled; no read counted |
| BufManager.BufMgr.Sweep | buf.C:72-112 | the loop clears the reference bit of every frame it inspects, stops on the first unpinned frame with the hand on it, or gives up after numBufs + 1 inspections with the hand back at the start; index, store and counter unchanged |
| BufManager.BufMgr.Replace | buf.C:87-109 | status, frame and new state are those of Take |
| BufManager.BufMgr.ReadPage | buf.C:115-146 | status, frame and new state are those of Read; the counter grows exactly when Read counts; the invariant is kept, and so is a backed index |
| BufManager.BufMgr.UnPinPage | buf.C:148-168 | status and new state are those of Unpin; the invariant is kept, and so is a backed index |
| BufManager.BufMgr.AllocPage | buf.C:170-192 | status, page number, frame and new state are those of Alloc; the invariant is kept; with a backed index it stays backed and the status is never HASHTBLERROR |
| BufManager.BufMgr.DisposePage | buf.C:194-209 | status and new state are those of Dispose; the invariant is kept, and so is a backed index |
| BufManager.BufMgr.FlushFile | buf.C:211-249 | status and new state are those of Flush, from any well-formed state; each of the two invariants that held before is kept |

## Left out

- printSelf and the DEBUGBUF traces: console output only.
- The ASSERT macro: it prints and exits, and nothing in the modelled code uses it.
- The hash-table size, computed in floating point (buf.C:41): the index is a map, so its size has no effect.
- `new`, `memset` and `delete[]`: the frames are arrays of fixed length. Zeroed memory is the zero descriptor and a blank page.
- The insides of `File` and `BufHashTbl` (disk I/O, bucket chains): these are not part of this model. They are stated by contract.
- Concurrency: the manager is single-threaded.
- The `bufStats` structure is reduced to its disk-read counter, the only field the code touches.
- Page pointers handed to callers are modelled as frame numbers, so aliasing of a returned `Page *` is not modelled.
- The `frame`/`page` out-parameters on error paths are unspecified: the model may set them (ReadPage returns the evicted frame when the refill fails), while the source leaves `page` untouched on every error path (buf.C:127-139). Nothing is promised about them.
- BufManager.BufMgr.constructor: requires at least one frame, as does `BufState.WellFormed`. In the source `BufMgr(0)` constructs with `clockHand == -1` (buf.C:44), and its first allocBuf then reads `bufTable[-1]` (buf.C:77), out of bounds; a negative size fails in `new[]`. Neither is modelled.
- `flushFile(NULL)` is not modelled: the file argument is always a file identity. A descriptor with no file never matches it.
- Pin counts are unbounded integers, so a C `int` overflowing after 2^31 pins is not modelled.
- The disk-read counter `diskreads` is an unbounded `nat`, so a C `int` overflowing after 2^31 reads (buf.C:142) is not modelled.
- A NULL `File *` passed to readPage, unPinPage, allocPage or disposePage is not modelled: as for flushFile, the file argument is always a file identity.
- BufOps.Read, BufOps.Unpin, BufOps.Alloc, BufOps.Dispose: their own contracts state only well-formedness; what each promises is stated by the lemmas about them.

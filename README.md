# HttpDataReference — segment bookkeeping of a streamed multipart field

Micronaut's Netty HTTP server streams a multipart field to the application
while its bytes are still arriving. An `HttpDataReference` keeps track of one
such field (a Netty `HttpData`):

- `components`, the ordered list of sections ("components") already carved out of the field. Each section has a final `length` and a mutable `offset`.
- `position`, a cursor that counts the bytes already carved.
- `fileAccess`, a lazily opened file handle. Sections of a field kept on disk are read back through it.

`addComponent` carves every byte between the cursor and the field's readable
length into a new section. `removeComponent` splices a section out, rewrites
the offsets of the sections that remain (`updateComponentOffsets`) and moves
the cursor back. `destroy` closes the handle and gives back the reference on
the field. `Component.getByteBuf` hands out a section's bytes:

- the chunk of an in-memory composite buffer;
- the whole flat in-memory buffer;
- a copy read from the file on disk.

The view's release callback removes the chunk and the section.

The model has four modules:

- `Segments` (segments.dfy) is the bookkeeping as values. It holds sections as `(length, offset)` pairs and a `Tracker` of sections and cursor, plus the specification functions `Carve`, `Remove` and `UpdateOffsets`. It also has Java's `(int)` narrowing, `Int32Cast`, and lemmas about the cursor invariant, the offset rules and contiguity.
- `HttpDataModel` (http_data.dfy) is the field as the reference sees it:
  - the in-memory flag;
  - the buffer, which is absent, flat, or a composite of removable chunks;
  - the file's bytes;
  - the reference count.

  It also holds `readableBytes` and the positional read of the file.
- `HttpDataReferences` (http_data_reference.dfy) holds the `Component` and `HttpDataReference` classes. `AddComponent`, `RemoveComponent`, `UpdateComponentOffsets` and `Release` update the fields in place and are proved against the functions `Carve`, `Remove` and `UpdateOffsets` of `Segments`. `Destroy` states the new handle and reference count directly, and `GetByteBuf` changes nothing and states its result case by case.
- `Scenarios` (scenarios.dfy) holds short client methods. Each builds its state only through the operations, the way the multipart decoder drives the reference, and states what it observes from the operations' contracts.

Where the code and its own documentation disagree, or where the code is
looser than one might expect, the model follows the code:

- The Javadoc of `addComponent` (line 82) says it returns null "if an error occurred". The code returns null when the narrowed length of the new bytes is 0, that is when nothing new has arrived or the difference is a multiple of 2^32 (lines 88-91), and throws when the open fails (lines 107-109). `AddComponent` returns `Ok(None)` in the first case and `Err(IOException)` in the second.
- The code has no double-release or closed-state check. Removal needs only an index inside the list, a view's release may run twice, and the reference can still be used after `destroy`.
- After a removal every later offset is the length of the preceding section, not a running sum. Contiguity is therefore lost in general; `Segments.RemovalBreaksContiguity` shows a case.
- On disk the section is appended before the file is opened. A failed open still leaves the section registered.
- A flat in-memory buffer is handed out whole. It is not cut to the section.

## Model

| member | source | states |
|---|---|---|
| Segments.Int32Cast | http-server-netty/src/main/java/io/micronaut/http/server/netty/HttpDataReference.java:88 | the `(int)` narrowing lands in the int range, agrees with its argument modulo 2^32, and is the identity on values that fit |
| Segments.Carve | http-server-netty/src/main/java/io/micronaut/http/server/netty/HttpDataReference.java:86-93 | the bookkeeping of `addComponent` as a value: the cursor moves to the readable length, the old sections stay as a prefix, and exactly one section is added exactly when the narrowed length is not 0 |
| Segments.UpdateOffsets | http-server-netty/src/main/java/io/micronaut/http/server/netty/HttpDataReference.java:142-159 | the offsets `updateComponentOffsets` leaves, as a value: the count and every length are kept, and the sections before the index are not touched |
| Segments.Remove | http-server-netty/src/main/java/io/micronaut/http/server/netty/HttpDataReference.java:122-127 | the bookkeeping of `removeComponent` as a value: one section fewer, the cursor moves back by the removed length, the sections before the index stay, and the later ones keep their lengths in order |
| Segments.RemoveAt | http-server-netty/src/main/java/io/micronaut/http/server/netty/HttpDataReference.java:124 | `List.remove(index)` shrinks the list by one, keeps the elements before `index`, and shifts the later ones down by one in order |
| Segments.CarveWithoutNewData | http-server-netty/src/main/java/io/micronaut/http/server/netty/HttpDataReference.java:86-91 | when the readable length equals the cursor, a carve leaves the sections and the cursor exactly as they were |
| Segments.CarveAppendsOne | http-server-netty/src/main/java/io/micronaut/http/server/netty/HttpDataReference.java:86-93 | when new bytes arrived and their count fits in an int, a carve appends exactly one section with offset = old cursor and length = readable − old cursor, keeps every earlier section, and moves the cursor to the readable length |
| Segments.WideCarveIsLost | http-server-netty/src/main/java/io/micronaut/http/server/netty/HttpDataReference.java:86-91 | a difference of 2^32 bytes narrows to length 0, so no section is added although the cursor moves past those bytes, and the cursor no longer counts the carved bytes |
| Segments.SumAppend | http-server-netty/src/main/java/io/micronaut/http/server/netty/HttpDataReference.java:87-93 | the lengths of two runs of sections add up |
| Segments.SumRemoveAt | http-server-netty/src/main/java/io/micronaut/http/server/netty/HttpDataReference.java:122-126 | removing a section takes exactly its length off the total length |
| Segments.UpdateOffsetsRules | http-server-netty/src/main/java/io/micronaut/http/server/netty/HttpDataReference.java:142-159 | the offset update keeps the count and every length; an index past the end changes nothing; sections before the index are untouched; at index 0 the first offset becomes 0; every section from max(index, 1) on gets the length of its predecessor as offset |
| Segments.RemoveFirstOfThree | http-server-netty/src/main/java/io/micronaut/http/server/netty/HttpDataReference.java:149-158 | sections of lengths 10, 20, 30 at offsets 0, 10, 30: removing the first leaves lengths 20, 30 at offsets 0, 20 and moves the cursor from 60 to 50 |
| Segments.RemovalBreaksContiguity | http-server-netty/src/main/java/io/micronaut/http/server/netty/HttpDataReference.java:154-158 | four contiguous sections are no longer contiguous once the first is removed, because the offsets are predecessor lengths and not running sums |
| Segments.RemovingLastKeepsContiguity | http-server-netty/src/main/java/io/micronaut/http/server/netty/HttpDataReference.java:142-146 | removing the last section touches no offset, so contiguous sections stay contiguous |
| Segments.ContiguousEnd | http-server-netty/src/main/java/io/micronaut/http/server/netty/HttpDataReference.java:87-92 | in contiguous sections the last one ends where their lengths add up to |
| Segments.CarveKeepsContiguity | http-server-netty/src/main/java/io/micronaut/http/server/netty/HttpDataReference.java:86-93 | a carve whose difference fits in an int places the new section right after the last one: contiguity and the cursor invariant are kept |
| Segments.CarvePreservesConsistent | http-server-netty/src/main/java/io/micronaut/http/server/netty/HttpDataReference.java:86-93 | if the cursor equals the sum of the section lengths before a carve that fits in an int, it still does afterwards |
| Segments.RemovePreservesConsistent | http-server-netty/src/main/java/io/micronaut/http/server/netty/HttpDataReference.java:122-127 | if the cursor equals the sum of the section lengths before a removal, it still does afterwards |
| Segments.RunPreservesConsistent | http-server-netty/src/main/java/io/micronaut/http/server/netty/HttpDataReference.java:84-127 | across any sequence of carves and in-range removals whose carves fit in an int, the cursor keeps counting exactly the carved bytes |
| HttpDataModel.HttpData.Delete | http-server-netty/src/main/java/io/micronaut/http/server/netty/HttpDataReference.java:238 | `delete()` drops the in-memory buffer; what `length()` reports and what an open handle reads of a field on disk stay as they were |
| HttpDataModel.ConcatLength | http-server-netty/src/main/java/io/micronaut/http/server/netty/HttpDataReference.java:133 | the readable bytes of a composite buffer are the sizes of its chunks added up |
| HttpDataModel.ReadableBytes | http-server-netty/src/main/java/io/micronaut/http/server/netty/HttpDataReference.java:129-140 | the readable length is exactly the number of bytes the field holds: the buffer's bytes in memory (0 without a buffer), the file's length on disk |
| HttpDataModel.PositionalRead | http-server-netty/src/main/java/io/micronaut/http/server/netty/HttpDataReference.java:246-248 | a positional read fills a fresh array of exactly `length` bytes: each byte the file holds at `offset + k` is copied to position k, and bytes past the end of the file stay 0 |
| HttpDataModel.CompositeCarveInSync | http-server-netty/src/main/java/io/micronaut/http/server/netty/HttpDataReference.java:86-93 | when one chunk arrives in a composite buffer and is carved, the new section has that chunk's size and starts where the earlier ones end, and section i again has the size of chunk i |
| HttpDataModel.CompositeReleaseInSync | http-server-netty/src/main/java/io/micronaut/http/server/netty/HttpDataReference.java:224-227 | releasing chunk i together with section i keeps section sizes equal to chunk sizes, and the cursor again equals the composite's readable bytes |
| HttpDataReferences.IndexOf | http-server-netty/src/main/java/io/micronaut/http/server/netty/HttpDataReference.java:221 | `indexOf` is -1 exactly when the element is absent; otherwise it holds the element and no earlier index does |
| HttpDataReferences.IndexOfDistinct | http-server-netty/src/main/java/io/micronaut/http/server/netty/HttpDataReference.java:221 | in a list without repeats `indexOf` finds each component at its own index |
| HttpDataReferences.Component.constructor | http-server-netty/src/main/java/io/micronaut/http/server/netty/HttpDataReference.java:182-190 | a section is created with the given final length and initial offset |
| HttpDataReferences.HttpDataReference.constructor | http-server-netty/src/main/java/io/micronaut/http/server/netty/HttpDataReference.java:62-65 | a new reference has no sections, cursor 0 and no handle, and retains the field once |
| HttpDataReferences.HttpDataReference.AddComponent | http-server-netty/src/main/java/io/micronaut/http/server/netty/HttpDataReference.java:84-114 | the new state is `Carve` of the old one at the old readable length, and the cursor ends at that length. When the narrowed length is 0 (no new bytes, or a difference that is a multiple of 2^32) it returns null and changes neither the list nor the handle. Otherwise it appends one fresh section with offset = old cursor and the narrowed length, keeping the earlier ones. On disk with no handle it opens one, or raises IOException leaving the handle null and the section registered. An existing handle, or a field in memory, keeps the handle as it is |
| HttpDataReferences.HttpDataReference.RemoveComponent | http-server-netty/src/main/java/io/micronaut/http/server/netty/HttpDataReference.java:122-127 | the list loses exactly the element at `index` and keeps the order of the rest; the new state is `Remove` of the old one, so the cursor moves back by the removed length and the offsets follow the update rules; the removed component itself is not touched |
| HttpDataReferences.HttpDataReference.UpdateComponentOffsets | http-server-netty/src/main/java/io/micronaut/http/server/netty/HttpDataReference.java:142-159 | the loop leaves the components' (length, offset) values equal to `UpdateOffsets` of the old ones |
| HttpDataReferences.HttpDataReference.Destroy | http-server-netty/src/main/java/io/micronaut/http/server/netty/HttpDataReference.java:165-177 | the handle is always dropped, even when closing it fails; an existing handle is closed exactly when the close succeeds; the field's reference count drops by one |
| HttpDataReferences.HttpDataReference.GetByteBuf | http-server-netty/src/main/java/io/micronaut/http/server/netty/HttpDataReference.java:215-250 | a zero-length section gives the empty buffer, as does an in-memory field with no buffer. A composite buffer gives the chunk at the component's `indexOf`, or IndexOutOfBounds when there is none, and a flat buffer gives the whole buffer. On disk, in the JVM's order: NegativeArraySize for a negative length, NullPointer without a handle, IllegalArgument for a negative offset, IOException when the read fails, and otherwise exactly `length` bytes of the file from `offset` |
| HttpDataReferences.HttpDataReference.Release | http-server-netty/src/main/java/io/micronaut/http/server/netty/HttpDataReference.java:224-243 | releasing a delegate removes chunk `index` from the composite it saved (a flat view looks the field's buffer up again and removes from it if it is now a composite, and otherwise deletes the field), then the section at `index`, as `Remove` states, leaving the removed section's own length and offset untouched. It changes no other buffer. An index outside the chunks or the sections raises IndexOutOfBounds; nothing marks a view as already released |
| Scenarios.CompositeRoundTrip | http-server-netty/src/main/java/io/micronaut/http/server/netty/HttpDataReference.java:84-114 | two chunks carved one after the other read back as the same two chunks, in arrival order |
| Scenarios.CarveTwoChunks | http-server-netty/src/main/java/io/micronaut/http/server/netty/HttpDataReference.java:84-93 | a field holding its first chunk as a flat buffer and then both chunks as a composite, carved after each chunk, gives one section per chunk with the chunks' sizes and leaves the cursor at their total |
| Scenarios.DiskRoundTrip | http-server-netty/src/main/java/io/micronaut/http/server/netty/HttpDataReference.java:245-248 | a field on disk carved once reads back as exactly the bytes of its file |
| Scenarios.SecondCarveWithoutData | http-server-netty/src/main/java/io/micronaut/http/server/netty/HttpDataReference.java:86-91 | a second carve with no new bytes returns null and leaves the one section |
| Scenarios.FailedOpenKeepsSection | http-server-netty/src/main/java/io/micronaut/http/server/netty/HttpDataReference.java:92-110 | a failed open raises IOException after the section is registered and the cursor has moved |
| Scenarios.DoubleRelease | http-server-netty/src/main/java/io/micronaut/http/server/netty/HttpDataReference.java:224-227 | after two real carves, releasing the view of the first section twice succeeds both times, removes both chunks and both sections, and brings the cursor back to 0 |
| Scenarios.ReadAfterDestroy | http-server-netty/src/main/java/io/micronaut/http/server/netty/HttpDataReference.java:165-177 | after `destroy` a disk read raises NullPointer, and the next carve opens a new handle |

## Left out

- The reference counting of Netty's `ByteBuf`s and the rest of `ByteBufDelegate` are not modelled. A view is a value with the bytes it shows, its index and the action its release performs.
- Views of in-memory bytes are taken as snapshots. A delegate in the source shares the live buffer, so aliasing between a view and later writes to the buffer is not captured.
- In the flat-buffer release, `getByteBuf()` of the field cannot fail in the model. The source swallows its IOException and goes on to `removeComponent`.
- Opening, reading and closing the file are not performed. Whether each succeeds is a boolean parameter (`openSucceeds`, `readSucceeds`, `closeSucceeds`), the file is its sequence of bytes, and a handle is an object with a `closed` flag.
- The `AtomicLong` and `AtomicReference` fields are plain fields and concurrency is not modelled. The `subject` and `upload` fields are left out.
- `getContentType` is left out. It only wraps `MediaType.of` over Netty's `FileUpload`.
- The `long` cursor and readable length are unbounded integers, so `long` overflow is not modelled. The `(int)` narrowing of the carved length is modelled, as `Int32Cast`.
- Logging of a failed close is left out.
- HttpDataModel.HttpData.Delete: the removal of a disk field's file from its directory is not modelled. The size `length()` reports and the bytes an already open handle reads are kept, but a handle opened after the delete would fail in the source and does not fail in the model.
- `httpData.getByteBuf()` (lines 131 and 220) is declared to throw IOException. In the model it cannot fail, so `ReadableBytes`, `AddComponent` and `GetByteBuf` have no error path there. In the source, `addComponent` would throw before the cursor moves.
- `FileChannel.read` (line 247) may read fewer bytes than asked, and the source ignores the count it returns. `PositionalRead` assumes one read fills the array up to the end of the file, and `Scenarios.DiskRoundTrip` relies on that.
- `data.retain()` and `data.release()` (lines 64 and 176) are plain increments and decrements of `refCnt`. Nothing is freed when the count reaches 0, and a second `destroy` does not fail; the count just goes negative.
- The readable bytes of a composite buffer are taken to be its current chunk sizes added up, also right after `CompositeByteBuf.removeComponent`. The claim of `HttpDataModel.CompositeReleaseInSync` that the cursor again equals the readable bytes rests on that.
- UploadController.kt and StreamingHttpClientFactory.java are not part of this model. They hold no logic of the bookkeeping.

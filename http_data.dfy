/** The multipart field that an HttpDataReference keeps track of (Netty's
    HttpData), reduced to what the reference reads: whether it is held in
    memory, its in-memory buffer (absent, one flat buffer, or a composite of
    separately removable chunks), the bytes of its file on disk, and its
    reference count. */
module HttpDataModel {
  import opened Segments

  type byte = x: int | 0 <= x < 256

  /** Netty's CompositeByteBuf: a buffer made of chunks that can be removed one by one. */
  class CompositeByteBuf {
    var chunks: seq<seq<byte>>

    constructor (chunks: seq<seq<byte>>)
      ensures this.chunks == chunks
    {
      this.chunks := chunks;
    }
  }

  /** What `getByteBuf()` of an in-memory HttpData returns. */
  datatype Buffer = NoBuffer | Flat(bytes: seq<byte>) | Composite(buf: CompositeByteBuf)

  class HttpData {
    var inMemory: bool
    var buffer: Buffer
    var file: seq<byte>
    var refCnt: int

    constructor (inMemory: bool, buffer: Buffer, file: seq<byte>)
      ensures this.inMemory == inMemory && this.buffer == buffer && this.file == file
      ensures refCnt == 1
    {
      this.inMemory := inMemory;
      this.buffer := buffer;
      this.file := file;
      refCnt := 1;
    }

    /** `delete()`: the in-memory buffer is dropped. On disk the file is
        removed from its directory, but the size that `length()` reports is
        kept, and a handle opened earlier still reads the same bytes, so what
        the reference sees of the file does not change. */
    method Delete()
      modifies this`buffer
      ensures buffer == NoBuffer
    {
      buffer := NoBuffer;
    }
  }

  /** The composite buffer object an HttpData currently holds, if any. */
  function BufferObjects(d: HttpData): set<object>
    reads d
  {
    if d.buffer.Composite? then {d.buffer.buf} else {}
  }

  function Sizes(chunks: seq<seq<byte>>): seq<int>
  {
    seq(|chunks|, k requires 0 <= k < |chunks| => |chunks[k]|)
  }

  function Concat(chunks: seq<seq<byte>>): seq<byte>
  {
    if chunks == [] then [] else Concat(chunks[..|chunks| - 1]) + chunks[|chunks| - 1]
  }

  lemma {:induction false} ConcatLength(chunks: seq<seq<byte>>)
    ensures |Concat(chunks)| == Sum(Sizes(chunks))
    decreases |chunks|
  {
    if chunks != [] {
      var p := chunks[..|chunks| - 1];
      assert Sizes(chunks)[..|chunks| - 1] == Sizes(p);
      ConcatLength(p);
    }
  }

  /** The bytes the field currently holds. */
  ghost function Content(d: HttpData): seq<byte>
    reads d, BufferObjects(d)
  {
    if !d.inMemory then d.file
    else match d.buffer
      case NoBuffer => []
      case Flat(bytes) => bytes
      case Composite(buf) => Concat(buf.chunks)
  }

  /** `readableBytes(httpData)`: the buffer's readable bytes in memory (0 when
      there is no buffer), the file length on disk. A composite buffer's
      readable bytes are the sizes of its chunks added up. */
  function ReadableBytes(d: HttpData): (n: int)
    reads d, BufferObjects(d)
    ensures n == |Content(d)|
  {
    if !d.inMemory then |d.file|
    else match d.buffer
      case NoBuffer => 0
      case Flat(bytes) => |bytes|
      case Composite(buf) => ConcatLength(buf.chunks); Sum(Sizes(buf.chunks))
  }

  function Min(a: int, b: int): int
  {
    if a <= b then a else b
  }

  /** A fresh zero-filled array of `length` bytes into which one positional
      read of the file at `offset` has copied what the file holds there. */
  function PositionalRead(file: seq<byte>, offset: nat, length: nat): (r: seq<byte>)
    ensures |r| == length
    ensures forall k :: 0 <= k < length && offset + k < |file| ==> r[k] == file[offset + k]
    ensures forall k :: 0 <= k < length && |file| <= offset + k ==> r[k] == 0
  {
    if |file| <= offset then seq(length, _ => 0)
    else
      var available := Min(length, |file| - offset);
      file[offset..offset + available] + seq(length - available, _ => 0)
  }

  lemma PositionalReadInside(file: seq<byte>, offset: nat, length: nat)
    requires offset + length <= |file|
    ensures PositionalRead(file, offset, length) == file[offset..offset + length]
  {
  }

  // ---------------------------------------------------------------------
  // Sections of a composite buffer, one chunk per carve

  /** Each section has exactly the size of the chunk at the same index. */
  predicate InSync(t: Tracker, chunks: seq<seq<byte>>)
  {
    Lengths(t.segments) == Sizes(chunks) && Consistent(t)
  }

  lemma SizesAppend(chunks: seq<seq<byte>>, c: seq<byte>)
    ensures Sizes(chunks + [c]) == Sizes(chunks) + [|c|]
  {
  }

  /** When one non-empty chunk is added and then carved, the new section
      covers exactly that chunk and starts where the earlier ones end. */
  lemma CompositeCarveInSync(t: Tracker, chunks: seq<seq<byte>>, c: seq<byte>)
    requires InSync(t, chunks)
    requires 0 < |c| <= INT_MAX
    ensures var r := Carve(t, Sum(Sizes(chunks + [c])));
      && InSync(r, chunks + [c])
      && r.segments == t.segments + [Segment(|c|, t.position)]
  {
    SizesAppend(chunks, c);
    SumAppend(Sizes(chunks), [|c|]);
    assert Sum([|c|]) == Sum([]) + |c|;
    LengthsAppend(t.segments, Segment(|c|, t.position));
    CarvePreservesConsistent(t, Sum(Sizes(chunks + [c])));
  }

  /** Releasing section i together with chunk i keeps the sections in step
      with the chunks, so the cursor again equals the readable bytes. */
  lemma CompositeReleaseInSync(t: Tracker, chunks: seq<seq<byte>>, i: int)
    requires InSync(t, chunks) && 0 <= i < |t.segments|
    ensures InSync(Remove(t, i), RemoveAt(chunks, i))
    ensures Remove(t, i).position == Sum(Sizes(RemoveAt(chunks, i)))
  {
    RemovePreservesConsistent(t, i);
    UpdateOffsetsRules(RemoveAt(t.segments, i), i);
    LengthsRemoveAt(t.segments, i);
    assert Sizes(RemoveAt(chunks, i)) == RemoveAt(Sizes(chunks), i);
  }
}

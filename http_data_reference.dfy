/** HttpDataReference: the sections ("components") carved out of one
    multipart field as its bytes arrive, the cursor of bytes already carved,
    and the lazily opened file handle through which sections of a field kept
    on disk are read back. */
module HttpDataReferences {
  import opened Segments
  import opened HttpDataModel

  /** The exceptions the operations can end in. */
  datatype Error = IOException | NullPointer | IndexOutOfBounds | NegativeArraySize | IllegalArgument

  datatype Result<T> = Ok(value: T) | Err(error: Error)

  datatype Outcome = Pass | Fail(error: Error)

  /** A RandomAccessFile opened for reading on the field's file. */
  class RandomAccessFile {
    var closed: bool

    constructor ()
      ensures !closed
    {
      closed := false;
    }
  }

  /** A section of the field. Its length is final; its offset is rewritten
      when an earlier section is removed. */
  class Component {
    const length: int
    var offset: int

    constructor (length: int, offset: int)
      ensures this.length == length && this.offset == offset
    {
      this.length := length;
      this.offset := offset;
    }
  }

  /** `List.indexOf`: the first index that holds `x`, or -1. A Component has
      no `equals` of its own, so for components this compares identities. */
  function IndexOf<T(==)>(s: seq<T>, x: T): (k: int)
    ensures -1 <= k < |s|
    ensures k == -1 <==> x !in s
    ensures 0 <= k ==> s[k] == x && x !in s[..k]
  {
    if s == [] then -1
    else if s[0] == x then 0
    else
      var k := IndexOf(s[1..], x);
      if k == -1 then -1 else k + 1
  }

  ghost predicate Distinct<T>(s: seq<T>)
  {
    forall j, k :: 0 <= j < k < |s| ==> s[j] != s[k]
  }

  /** In a list without repeats, `indexOf` finds an element where it stands. */
  lemma IndexOfDistinct<T>(s: seq<T>, k: int)
    requires Distinct(s) && 0 <= k < |s|
    ensures IndexOf(s, s[k]) == k
  {
    assert s[k] in s[..k + 1];
  }

  /** The (length, offset) values the components currently hold. */
  function Segs(cs: seq<Component>): seq<Segment>
    reads cs
  {
    seq(|cs|, k requires 0 <= k < |cs| reads cs => Segment(cs[k].length, cs[k].offset))
  }

  lemma SegsAppend(cs: seq<Component>, c: Component)
    ensures Segs(cs + [c]) == Segs(cs) + [Segment(c.length, c.offset)]
  {
  }

  /** How a delegate view gives its section back when it is released: remove
      the chunk from the composite buffer seen when it was created, or look
      the field's buffer up again. */
  datatype ReleaseAction = RemoveFrom(composite: CompositeByteBuf) | Refetch

  /** What getByteBuf hands out: the shared empty buffer, a delegate over
      in-memory bytes whose release removes the section, or a fresh copy of
      the section read from disk. */
  datatype ByteView =
    | Empty
    | Delegate(bytes: seq<byte>, index: int, onRelease: ReleaseAction)
    | Copied(bytes: seq<byte>)

  /** The composite buffer a delegate's release removes a chunk from, if any:
      the one saved when the view was made, or else the field's buffer looked
      up again, which is a composite only while the field is in memory. */
  function ChunkOwner(v: ByteView, d: HttpData): Option<CompositeByteBuf>
    reads d
    requires v.Delegate?
  {
    if v.onRelease.RemoveFrom? then Some(v.onRelease.composite)
    else if d.inMemory && d.buffer.Composite? then Some(d.buffer.buf)
    else None
  }

  /** The one buffer object a release may change. */
  function ReleaseTargets(v: ByteView, d: HttpData): set<object>
    reads d
  {
    if v.Delegate? && ChunkOwner(v, d).Some? then {ChunkOwner(v, d).value} else {}
  }

  class HttpDataReference {
    const data: HttpData
    var fileAccess: RandomAccessFile?
    var position: int
    var components: seq<Component>

    /** Every component is listed once, and a handle kept here is open. */
    ghost predicate Valid()
      reads this, fileAccess
    {
      Distinct(components) && (fileAccess != null ==> !fileAccess.closed)
    }

    /** The bookkeeping as a value: the sections and the cursor. */
    ghost function Abstract(): Tracker
      reads this, components
    {
      Tracker(Segs(components), position)
    }

    /** Takes a reference on the field it keeps track of. */
    constructor (data: HttpData)
      modifies data`refCnt
      ensures Valid()
      ensures this.data == data && data.refCnt == old(data.refCnt) + 1
      ensures fileAccess == null && position == 0 && components == []
    {
      this.data := data;
      fileAccess := null;
      position := 0;
      components := [];
      new;
      data.refCnt := data.refCnt + 1;
    }

    /** `addComponent()`: carves everything between the cursor and the
        readable bytes into a new section. The file is opened (once) only
        after the section is registered, so a failed open leaves it there. */
    method AddComponent(openSucceeds: bool) returns (r: Result<Option<Component>>)
      requires Valid()
      modifies this`position, this`components, this`fileAccess
      ensures Valid()
      ensures Abstract() == Carve(old(Abstract()), old(ReadableBytes(data)))
      ensures position == old(ReadableBytes(data))
      ensures CarveLength(old(position), old(ReadableBytes(data))) == 0 ==>
        r == Ok(None) && components == old(components) && fileAccess == old(fileAccess)
      ensures CarveLength(old(position), old(ReadableBytes(data))) != 0 ==>
        && |components| == |old(components)| + 1
        && components[..|old(components)|] == old(components)
        && fresh(components[|old(components)|])
        && components[|old(components)|].length == CarveLength(old(position), old(ReadableBytes(data)))
        && components[|old(components)|].offset == old(position)
        && if !data.inMemory && old(fileAccess) == null then
             if openSucceeds then fresh(fileAccess) && r == Ok(Some(components[|old(components)|]))
             else fileAccess == null && r == Err(IOException)
           else fileAccess == old(fileAccess) && r == Ok(Some(components[|old(components)|]))
    {
      var readable := ReadableBytes(data);
      var offset := position;
      position := readable;
      var length := CarveLength(offset, readable);
      if length == 0 {
        r := Ok(None);
      } else {
        var component := new Component(length, offset);
        SegsAppend(components, component);
        components := components + [component];
        r := Ok(Some(component));
        if !data.inMemory && fileAccess == null {
          if openSucceeds {
            fileAccess := new RandomAccessFile();
          } else {
            r := Err(IOException);
          }
        }
      }
    }

    /** `removeComponent(index)`: splices the section out, rewrites the
        offsets of those that remain, and moves the cursor back by its length. */
    method RemoveComponent(index: int)
      requires Valid() && 0 <= index < |components|
      modifies this`position, this`components, components
      ensures Valid()
      ensures components == RemoveAt(old(components), index)
      ensures Abstract() == Remove(old(Abstract()), index)
      ensures unchanged(old(components[index]))
    {
      var component := components[index];
      ghost var before := Segs(components);
      components := RemoveAt(components, index);
      assert Segs(components) == RemoveAt(before, index);
      UpdateComponentOffsets(index);
      position := position - component.length;
    }

    /** `updateComponentOffsets(index)`: the component that now stands at
        `index` gets offset 0 if it is the first; each one from there on gets
        the length of the one before it. */
    method UpdateComponentOffsets(index: int)
      requires Valid() && 0 <= index
      modifies components
      ensures Segs(components) == UpdateOffsets(old(Segs(components)), index)
    {
      var cs := components;
      var size := |cs|;
      ghost var before := Segs(cs);
      if size <= index {
        assert UpdateOffsets(before, index) == before;
        return;
      }
      var i := index;
      if i == 0 {
        cs[0].offset := 0;
        i := i + 1;
      }
      while i < size
        invariant index <= i <= size && 1 <= i
        invariant forall k {:trigger OffsetAfterUpdate(before, index, k)} :: 0 <= k < i ==>
          cs[k].offset == OffsetAfterUpdate(before, index, k)
        invariant forall k :: i <= k < size ==> cs[k].offset == before[k].offset
      {
        var prev := cs[i - 1];
        var cur := cs[i];
        cur.offset := prev.length;
        i := i + 1;
      }
      forall k | 0 <= k < size
        ensures Segs(cs)[k] == UpdateOffsets(before, index)[k]
      {
        assert cs[k].offset == OffsetAfterUpdate(before, index, k);
      }
    }

    /** `destroy()`: closes the file handle if there is one (a failure to
        close is only logged), always drops it, and gives back the reference
        on the field. */
    method Destroy(closeSucceeds: bool)
      requires Valid()
      modifies this`fileAccess, fileAccess, data`refCnt
      ensures Valid() && fileAccess == null
      ensures old(fileAccess) != null ==> old(fileAccess).closed == closeSucceeds
      ensures data.refCnt == old(data.refCnt) - 1
    {
      if fileAccess != null && closeSucceeds {
        fileAccess.closed := true;
      }
      fileAccess := null;
      data.refCnt := data.refCnt - 1;
    }

    /** `Component.getByteBuf()` for component `c`. In memory the view is
        the chunk at c's index of a composite buffer, or the whole flat
        buffer; on disk it is a fresh array of c's length read from the file
        at c's offset. */
    method GetByteBuf(c: Component, readSucceeds: bool) returns (r: Result<ByteView>)
      requires Valid()
      ensures c.length == 0 ==> r == Ok(Empty)
      ensures c.length != 0 && data.inMemory && data.buffer.NoBuffer? ==> r == Ok(Empty)
      ensures c.length != 0 && data.inMemory && data.buffer.Flat? ==>
        r == Ok(Delegate(data.buffer.bytes, IndexOf(components, c), Refetch))
      ensures c.length != 0 && data.inMemory && data.buffer.Composite? ==>
        var chunks, k := data.buffer.buf.chunks, IndexOf(components, c);
        if 0 <= k < |chunks| then r == Ok(Delegate(chunks[k], k, RemoveFrom(data.buffer.buf)))
        else r == Err(IndexOutOfBounds)
      ensures c.length != 0 && !data.inMemory ==>
        if c.length < 0 then r == Err(NegativeArraySize)
        else if fileAccess == null then r == Err(NullPointer)
        else if c.offset < 0 then r == Err(IllegalArgument)
        else if !readSucceeds then r == Err(IOException)
        else r == Ok(Copied(PositionalRead(data.file, c.offset, c.length)))
    {
      if c.length == 0 {
        return Ok(Empty);
      }
      if data.inMemory {
        var index := IndexOf(components, c);
        match data.buffer
        case NoBuffer =>
          r := Ok(Empty);
        case Flat(bytes) =>
          r := Ok(Delegate(bytes, index, Refetch));
        case Composite(buf) =>
          if 0 <= index < |buf.chunks| {
            r := Ok(Delegate(buf.chunks[index], index, RemoveFrom(buf)));
          } else {
            r := Err(IndexOutOfBounds);
          }
      } else if c.length < 0 {
        r := Err(NegativeArraySize);
      } else if fileAccess == null {
        r := Err(NullPointer);
      } else if c.offset < 0 {
        r := Err(IllegalArgument);
      } else if !readSucceeds {
        r := Err(IOException);
      } else {
        r := Ok(Copied(PositionalRead(data.file, c.offset, c.length)));
      }
    }

    /** The release override of a view handed out by getByteBuf: remove the
        section's chunk from the buffer (or delete a flat buffer), then
        `removeComponent(index)`. Nothing checks that the view was already
        released: a second release removes whatever now stands at `index`. */
    method Release(v: ByteView) returns (r: Outcome)
      requires Valid()
      modifies this`position, this`components, components, data`buffer
      modifies ReleaseTargets(v, data)
      ensures Valid()
      ensures !v.Delegate? ==>
        r == Pass && components == old(components) && Abstract() == old(Abstract())
        && unchanged(data) && unchanged(BufferObjects(data))
      ensures v.Delegate? ==>
        var owner, i := old(ChunkOwner(v, data)), v.index;
        if owner.Some? && !(0 <= i < |old(owner.value.chunks)|) then
          && r == Fail(IndexOutOfBounds)
          && components == old(components) && Abstract() == old(Abstract())
          && unchanged(owner.value) && unchanged(data)
        else
          && (owner.Some? ==> owner.value.chunks == RemoveAt(old(owner.value.chunks), i) && unchanged(data))
          && (owner.None? ==> data.buffer == NoBuffer && data.file == old(data.file))
          && if 0 <= i < |old(components)| then
               && r == Pass
               && components == RemoveAt(old(components), i)
               && unchanged(old(components)[i])
               && Abstract() == Remove(old(Abstract()), i)
             else
               r == Fail(IndexOutOfBounds) && components == old(components) && Abstract() == old(Abstract())
    {
      if !v.Delegate? {
        return Pass;
      }
      var owner := ChunkOwner(v, data);
      match owner {
        case Some(buf) =>
          if !(0 <= v.index < |buf.chunks|) {
            return Fail(IndexOutOfBounds);
          }
          buf.chunks := RemoveAt(buf.chunks, v.index);
        case None =>
          data.Delete();
      }
      if !(0 <= v.index < |components|) {
        return Fail(IndexOutOfBounds);
      }
      RemoveComponent(v.index);
      return Pass;
    }
  }
}

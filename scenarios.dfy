/** Clients of HttpDataReference that drive it the way the multipart decoder
    does (bytes are appended to the field, then a section is carved) and
    state what they observe, using only the contracts of the operations. */
module Scenarios {
  import opened Segments
  import opened HttpDataModel
  import opened HttpDataReferences

  /** An in-memory field gets chunk `a`, held as one flat buffer, and is
      carved; then chunk `b` arrives, the field now holds a composite of the
      two chunks, and it is carved again: one section per chunk, in arrival
      order. */
  method CarveTwoChunks(a: seq<byte>, b: seq<byte>)
    returns (ref: HttpDataReference, buf: CompositeByteBuf, c: Component, d: Component)
    requires 0 < |a| <= INT_MAX && 0 < |b| <= INT_MAX
    ensures fresh(ref) && fresh(buf) && fresh(ref.data) && fresh(c) && fresh(d) && ref.Valid()
    ensures ref.data.inMemory && ref.data.buffer == Composite(buf) && buf.chunks == [a, b]
    ensures ref.components == [c, d] && ref.position == |a| + |b|
    ensures c.length == |a| && d.length == |b|
  {
    var data := new HttpData(true, Flat(a), []);
    ref := new HttpDataReference(data);
    var r1 := ref.AddComponent(true);
    c := r1.value.value;
    assert ref.components == [c] && c.length == |a| && ref.position == |a|;

    buf := new CompositeByteBuf([a, b]);
    data.buffer := Composite(buf);
    assert Sizes([a, b]) == [|a|, |b|];
    assert Sum([|a|]) == Sum([]) + |a|;
    assert Sum([|a|, |b|]) == Sum([|a|]) + |b|;
    assert ReadableBytes(data) == |a| + |b|;
    var r2 := ref.AddComponent(true);
    d := r2.value.value;
  }

  /** After two carves, reading the two sections back gives `a` and `b`. */
  method CompositeRoundTrip(a: seq<byte>, b: seq<byte>) returns (first: seq<byte>, second: seq<byte>)
    requires 0 < |a| <= INT_MAX && 0 < |b| <= INT_MAX
    ensures first == a && second == b
  {
    var ref, buf, c1, c2 := CarveTwoChunks(a, b);
    IndexOfDistinct(ref.components, 0);
    IndexOfDistinct(ref.components, 1);
    var v1 := ref.GetByteBuf(c1, true);
    assert v1 == Ok(Delegate(a, 0, RemoveFrom(buf)));
    var v2 := ref.GetByteBuf(c2, true);
    assert v2 == Ok(Delegate(b, 1, RemoveFrom(buf)));
    first, second := v1.value.bytes, v2.value.bytes;
  }

  /** A field kept on disk is carved once and read back: the section holds
      exactly the bytes of the file. */
  method DiskRoundTrip(file: seq<byte>) returns (r: Result<ByteView>)
    requires 0 < |file| <= INT_MAX
    ensures r == Ok(Copied(file))
  {
    var data := new HttpData(false, NoBuffer, file);
    var ref := new HttpDataReference(data);
    assert ReadableBytes(data) == |file|;
    var added := ref.AddComponent(true);
    var c := added.value.value;
    assert c.length == |file| && c.offset == 0 && ref.fileAccess != null;
    r := ref.GetByteBuf(c, true);
    PositionalReadInside(file, 0, |file|);
    assert file[0..|file|] == file;
  }

  /** Carving twice with nothing written in between: the second carve
      reports that nothing arrived and leaves the one section alone. */
  method SecondCarveWithoutData(bytes: seq<byte>) returns (second: Result<Option<Component>>, sections: nat)
    requires 0 < |bytes| <= INT_MAX
    ensures second == Ok(None) && sections == 1
  {
    var data := new HttpData(true, Flat(bytes), []);
    var ref := new HttpDataReference(data);
    var first := ref.AddComponent(true);
    second := ref.AddComponent(true);
    sections := |ref.components|;
  }

  /** On disk, when the file cannot be opened the carve fails, but the
      section was registered before the open was tried and stays. */
  method FailedOpenKeepsSection(file: seq<byte>) returns (r: Result<Option<Component>>, sections: nat, position: int)
    requires 0 < |file| <= INT_MAX
    ensures r == Err(IOException) && sections == 1 && position == |file|
  {
    var data := new HttpData(false, NoBuffer, file);
    var ref := new HttpDataReference(data);
    r := ref.AddComponent(false);
    sections, position := |ref.components|, ref.position;
  }

  /** Releasing the same view twice is not detected. Chunks `a` and then `b`
      are carved into two sections; the view of the first is released twice,
      and the second release removes the chunk and the section that moved into
      its place, so nothing is left and the cursor is back at 0. */
  method DoubleRelease(a: seq<byte>, b: seq<byte>) returns (once: Outcome, twice: Outcome, sections: nat, chunks: nat, cursor: int)
    requires 0 < |a| <= INT_MAX && 0 < |b| <= INT_MAX
    ensures once == Pass && twice == Pass
    ensures sections == 0 && chunks == 0 && cursor == 0
  {
    var ref, buf, c, d := CarveTwoChunks(a, b);
    IndexOfDistinct(ref.components, 0);
    var view := ref.GetByteBuf(c, true);
    assert view == Ok(Delegate(a, 0, RemoveFrom(buf)));
    once := ref.Release(view.value);
    assert ref.components == [d] && ref.position == |b| && buf.chunks == [b];
    twice := ref.Release(view.value);
    sections, chunks, cursor := |ref.components|, |buf.chunks|, ref.position;
  }

  /** Nothing marks the reference as closed: after destroy a disk read finds
      no handle, and the next carve opens a new one. */
  method ReadAfterDestroy(file: seq<byte>, more: seq<byte>) returns (read: Result<ByteView>, reopened: bool)
    requires 0 < |file| <= INT_MAX && 0 < |more| <= INT_MAX
    ensures read == Err(NullPointer) && reopened
  {
    var data := new HttpData(false, NoBuffer, file);
    var ref := new HttpDataReference(data);
    assert ReadableBytes(data) == |file|;
    var added := ref.AddComponent(true);
    var c := added.value.value;
    assert c.length == |file|;
    ref.Destroy(true);
    read := ref.GetByteBuf(c, true);
    data.file := file + more;
    assert ReadableBytes(data) - ref.position == |more|;
    var again := ref.AddComponent(true);
    reopened := ref.fileAccess != null;
  }
}

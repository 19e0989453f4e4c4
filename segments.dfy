/** Value-level bookkeeping of the sections ("components") that an
    HttpDataReference carves out of a multipart field whose bytes keep growing.
    A component is a pair (length, offset); the tracker holds the ordered
    components and the cursor `position` of bytes already carved. */
module Segments {

  datatype Option<T> = None | Some(value: T)

  const INT_MIN: int := -0x8000_0000
  const INT_MAX: int := 0x7fff_ffff
  const TWO_32: int := 0x1_0000_0000

  /** Java's narrowing conversion `(int)` of a long: keep the low 32 bits,
      read as two's complement. */
  function Int32Cast(x: int): (r: int)
    ensures INT_MIN <= r <= INT_MAX
    ensures (x - r) % TWO_32 == 0
    ensures INT_MIN <= x <= INT_MAX ==> r == x
  {
    var low := x % TWO_32;
    if low <= INT_MAX then low else low - TWO_32
  }

  /** One carved section: `length` is final, `offset` is rewritten on removals. */
  datatype Segment = Segment(length: int, offset: int)

  /** The ordered sections and the cursor of bytes already carved into them. */
  datatype Tracker = Tracker(segments: seq<Segment>, position: int)

  function Lengths(s: seq<Segment>): seq<int>
  {
    seq(|s|, k requires 0 <= k < |s| => s[k].length)
  }

  function Sum(xs: seq<int>): int
  {
    if xs == [] then 0 else Sum(xs[..|xs| - 1]) + xs[|xs| - 1]
  }

  /** `List.remove(int)`: the element at `i` is gone, the others keep their order. */
  function RemoveAt<T>(s: seq<T>, i: int): (r: seq<T>)
    requires 0 <= i < |s|
    ensures |r| == |s| - 1
    ensures forall k :: 0 <= k < i ==> r[k] == s[k]
    ensures forall k :: i <= k < |r| ==> r[k] == s[k + 1]
  {
    s[..i] + s[i + 1..]
  }

  /** The offsets that updateComponentOffsets(index) leaves behind: nothing
      before `index` changes; a component that becomes the first one gets
      offset 0; every later one gets the LENGTH of its predecessor. */
  function UpdateOffsets(s: seq<Segment>, index: int): (r: seq<Segment>)
    ensures |r| == |s|
    ensures forall k :: 0 <= k < |s| ==> r[k].length == s[k].length
    ensures forall k :: 0 <= k < |s| && k < index ==> r[k] == s[k]
  {
    seq(|s|, k requires 0 <= k < |s| => s[k].(offset := OffsetAfterUpdate(s, index, k)))
  }

  /** The offset updateComponentOffsets(index) leaves at position k. */
  function OffsetAfterUpdate(s: seq<Segment>, index: int, k: int): int
    requires 0 <= k < |s|
  {
    if k < index then s[k].offset
    else if k == 0 then 0
    else s[k - 1].length
  }

  /** The length addComponent gives the new section: the carved difference,
      narrowed to an int. */
  function CarveLength(position: int, readable: int): int
  {
    Int32Cast(readable - position)
  }

  /** The bookkeeping of addComponent when the store holds `readable` bytes:
      the cursor always moves to `readable`; a section is appended only when
      the narrowed length is not zero. */
  function Carve(t: Tracker, readable: int): (r: Tracker)
    ensures r.position == readable
    ensures t.segments <= r.segments && |r.segments| <= |t.segments| + 1
    ensures |r.segments| == |t.segments| + 1 <==> CarveLength(t.position, readable) != 0
  {
    var length := CarveLength(t.position, readable);
    if length == 0 then Tracker(t.segments, readable)
    else Tracker(t.segments + [Segment(length, t.position)], readable)
  }

  /** The bookkeeping of removeComponent(i). */
  function Remove(t: Tracker, i: int): (r: Tracker)
    requires 0 <= i < |t.segments|
    ensures |r.segments| == |t.segments| - 1
    ensures r.position == t.position - t.segments[i].length
    ensures forall k :: 0 <= k < i ==> r.segments[k] == t.segments[k]
    ensures forall k :: i <= k < |r.segments| ==> r.segments[k].length == t.segments[k + 1].length
  {
    Tracker(UpdateOffsets(RemoveAt(t.segments, i), i), t.position - t.segments[i].length)
  }

  /** The cursor counts exactly the bytes held by the sections. */
  predicate Consistent(t: Tracker)
  {
    t.position == Sum(Lengths(t.segments))
  }

  /** The sections tile the data from offset 0 without gaps or overlaps. */
  predicate Contiguous(s: seq<Segment>)
  {
    && (|s| > 0 ==> s[0].offset == 0)
    && forall k :: 0 <= k < |s| - 1 ==> s[k].offset + s[k].length == s[k + 1].offset
  }

  /** Whether the narrowing of the carved difference loses nothing. */
  predicate FitsInt(x: int)
  {
    INT_MIN <= x <= INT_MAX
  }

  // ---------------------------------------------------------------------
  // addComponent

  lemma CarveWithoutNewData(t: Tracker)
    ensures Carve(t, t.position) == t
  {
  }

  lemma CarveAppendsOne(t: Tracker, readable: int)
    requires readable != t.position && FitsInt(readable - t.position)
    ensures var r := Carve(t, readable);
      && |r.segments| == |t.segments| + 1
      && r.segments[..|t.segments|] == t.segments
      && r.segments[|t.segments|] == Segment(readable - t.position, t.position)
      && r.position == readable
  {
    var r := Carve(t, readable);
    assert r.segments[..|t.segments|] == t.segments;
  }

  /** A difference of exactly 2^32 bytes narrows to 0: addComponent then
      reports that nothing arrived, yet its cursor has moved past those bytes. */
  lemma WideCarveIsLost()
    ensures var r := Carve(Tracker([], 0), TWO_32);
      r.segments == [] && r.position == TWO_32 && !Consistent(r)
  {
    assert Int32Cast(TWO_32) == 0;
  }

  lemma {:induction false} SumAppend(xs: seq<int>, ys: seq<int>)
    ensures Sum(xs + ys) == Sum(xs) + Sum(ys)
    decreases |ys|
  {
    if ys == [] {
      assert xs + ys == xs;
    } else {
      var ys' := ys[..|ys| - 1];
      assert (xs + ys)[..|xs + ys| - 1] == xs + ys';
      SumAppend(xs, ys');
    }
  }

  lemma {:induction false} SumRemoveAt(xs: seq<int>, i: int)
    requires 0 <= i < |xs|
    ensures Sum(RemoveAt(xs, i)) == Sum(xs) - xs[i]
  {
    assert xs == xs[..i] + [xs[i]] + xs[i + 1..];
    SumAppend(xs[..i] + [xs[i]], xs[i + 1..]);
    SumAppend(xs[..i], [xs[i]]);
    SumAppend(xs[..i], xs[i + 1..]);
    assert Sum([xs[i]]) == Sum([]) + xs[i];
  }

  lemma LengthsAppend(s: seq<Segment>, x: Segment)
    ensures Lengths(s + [x]) == Lengths(s) + [x.length]
  {
  }

  lemma LengthsRemoveAt(s: seq<Segment>, i: int)
    requires 0 <= i < |s|
    ensures Lengths(RemoveAt(s, i)) == RemoveAt(Lengths(s), i)
  {
  }

  /** The rules of updateComponentOffsets, one by one. */
  lemma UpdateOffsetsRules(s: seq<Segment>, index: int)
    requires 0 <= index
    ensures var r := UpdateOffsets(s, index);
      && |r| == |s|
      && Lengths(r) == Lengths(s)
      && (|s| <= index ==> r == s)
      && (forall k :: 0 <= k < |s| && k < index ==> r[k] == s[k])
      && (index == 0 && |s| > 0 ==> r[0].offset == 0)
      && (forall k :: 0 < k < |s| && index <= k ==> r[k].offset == s[k - 1].length)
  {
  }

  /** Sections of lengths 10, 20, 30 at offsets 0, 10, 30: removing the first
      leaves lengths 20, 30 at offsets 0, 20. */
  lemma RemoveFirstOfThree()
    ensures Remove(Tracker([Segment(10, 0), Segment(20, 10), Segment(30, 30)], 60), 0)
         == Tracker([Segment(20, 0), Segment(30, 20)], 50)
  {
    var r := Remove(Tracker([Segment(10, 0), Segment(20, 10), Segment(30, 30)], 60), 0);
    assert r.segments[0] == Segment(20, 0);
    assert r.segments[1] == Segment(30, 20);
  }

  /** Offsets are not a running sum after a removal: four contiguous sections
      lose their contiguity when the first is removed. */
  lemma RemovalBreaksContiguity()
    ensures var s := [Segment(10, 0), Segment(20, 10), Segment(30, 30), Segment(40, 60)];
      && Contiguous(s)
      && !Contiguous(Remove(Tracker(s, 100), 0).segments)
  {
    var s := [Segment(10, 0), Segment(20, 10), Segment(30, 30), Segment(40, 60)];
    var r := Remove(Tracker(s, 100), 0).segments;
    assert r[1] == Segment(30, 20) && r[2] == Segment(40, 30);
    assert r[1].offset + r[1].length != r[2].offset;
  }

  /** Removing the last section never touches an offset. */
  lemma RemovingLastKeepsContiguity(t: Tracker)
    requires |t.segments| > 0 && Contiguous(t.segments)
    ensures var r := Remove(t, |t.segments| - 1);
      && r.segments == t.segments[..|t.segments| - 1]
      && Contiguous(r.segments)
  {
    var r := Remove(t, |t.segments| - 1);
    assert r.segments == t.segments[..|t.segments| - 1];
  }

  /** In contiguous sections the last one ends where the lengths add up to. */
  lemma {:induction false} ContiguousEnd(s: seq<Segment>)
    requires |s| > 0 && Contiguous(s)
    ensures s[|s| - 1].offset + s[|s| - 1].length == Sum(Lengths(s))
    decreases |s|
  {
    var p := s[..|s| - 1];
    assert Lengths(s)[..|s| - 1] == Lengths(p);
    if |p| > 0 {
      assert Contiguous(p);
      ContiguousEnd(p);
    }
  }

  /** A carve on top of consistent, contiguous sections places the new section
      right after the last one and keeps both properties. */
  lemma CarveKeepsContiguity(t: Tracker, readable: int)
    requires Consistent(t) && Contiguous(t.segments)
    requires FitsInt(readable - t.position)
    ensures Contiguous(Carve(t, readable).segments)
    ensures Consistent(Carve(t, readable))
  {
    var s := t.segments;
    if readable != t.position {
      var x := Segment(readable - t.position, t.position);
      assert Carve(t, readable).segments == s + [x];
      LengthsAppend(s, x);
      assert (Lengths(s) + [x.length])[..|s|] == Lengths(s);
      if |s| > 0 {
        ContiguousEnd(s);
      }
    }
  }

  lemma CarvePreservesConsistent(t: Tracker, readable: int)
    requires Consistent(t) && FitsInt(readable - t.position)
    ensures Consistent(Carve(t, readable))
  {
    if readable != t.position {
      var x := Segment(readable - t.position, t.position);
      LengthsAppend(t.segments, x);
      assert (Lengths(t.segments) + [x.length])[..|t.segments|] == Lengths(t.segments);
    }
  }

  lemma RemovePreservesConsistent(t: Tracker, i: int)
    requires Consistent(t) && 0 <= i < |t.segments|
    ensures Consistent(Remove(t, i))
  {
    UpdateOffsetsRules(RemoveAt(t.segments, i), i);
    LengthsRemoveAt(t.segments, i);
    SumRemoveAt(Lengths(t.segments), i);
  }

  // ---------------------------------------------------------------------
  // Interleaved carves and removals

  datatype Op = AddComponent(readable: int) | RemoveComponent(index: int)

  /** Runs the operations in order; a removal at an index outside the list is
      the IndexOutOfBoundsException of `List.get`, reported as None. */
  function Run(t: Tracker, ops: seq<Op>): Option<Tracker>
    decreases |ops|
  {
    if ops == [] then Some(t)
    else match ops[0]
      case AddComponent(readable) => Run(Carve(t, readable), ops[1..])
      case RemoveComponent(i) =>
        if 0 <= i < |t.segments| then Run(Remove(t, i), ops[1..]) else None
  }

  /** Every carve of the run moves the cursor by an amount an int can hold. */
  predicate CarvesFit(t: Tracker, ops: seq<Op>)
    decreases |ops|
  {
    if ops == [] then true
    else match ops[0]
      case AddComponent(readable) =>
        FitsInt(readable - t.position) && CarvesFit(Carve(t, readable), ops[1..])
      case RemoveComponent(i) =>
        0 <= i < |t.segments| ==> CarvesFit(Remove(t, i), ops[1..])
  }

  /** The cursor keeps counting exactly the carved bytes across any
      interleaving of carves and removals whose carves fit in an int. */
  lemma {:induction false} RunPreservesConsistent(t: Tracker, ops: seq<Op>)
    requires Consistent(t) && CarvesFit(t, ops)
    ensures Run(t, ops).Some? ==> Consistent(Run(t, ops).value)
    decreases |ops|
  {
    if ops != [] {
      match ops[0]
      case AddComponent(readable) =>
        CarvePreservesConsistent(t, readable);
        RunPreservesConsistent(Carve(t, readable), ops[1..]);
      case RemoveComponent(i) =>
        if 0 <= i < |t.segments| {
          RemovePreservesConsistent(t, i);
          RunPreservesConsistent(Remove(t, i), ops[1..]);
        }
    }
  }
}

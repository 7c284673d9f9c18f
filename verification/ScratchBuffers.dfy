/** Reserving aligned buffers in one block of memory. Addresses are numbers; 0 is the null pointer. */
module ScratchBuffers {
  import opened Arithmetic
  import opened Options

  /** The next address that is a multiple of the alignment. */
  method Align(data: nat, alignment: nat) returns (aligned: nat)
    requires 0 < alignment
    ensures aligned % alignment == 0 && data <= aligned < data + alignment
    ensures forall a: nat :: data <= a && a % alignment == 0 ==> aligned <= a
  {
    aligned := data;
    var beyondBoundary := data % alignment;
    if beyondBoundary != 0 {
      aligned := aligned + (alignment - beyondBoundary);
    }
    NextMultiple(data, alignment, aligned);
  }

  lemma NextMultiple(data: nat, alignment: nat, aligned: nat)
    requires 0 < alignment
    requires aligned == if data % alignment == 0 then data else data + (alignment - data % alignment)
    ensures aligned % alignment == 0 && data <= aligned < data + alignment
    ensures forall a: nat :: data <= a && a % alignment == 0 ==> aligned <= a
  {
    var q := data / alignment;
    if data % alignment != 0 {
      assert (q + 1) * alignment == q * alignment + alignment;
      DivModUnique(aligned, alignment, q + 1, 0);
      forall a: nat | data <= a && a % alignment == 0
        ensures aligned <= a
      {
        NoneBetween(data, alignment, a);
      }
    }
  }

  lemma NoneBetween(data: nat, alignment: nat, a: nat)
    requires 0 < alignment && data % alignment != 0 && data <= a && a % alignment == 0
    ensures data / alignment * alignment + alignment <= a
  {
    var p, q := a / alignment, data / alignment;
    RowOrder(data, a, alignment);
    assert a == p * alignment && data == q * alignment + data % alignment;
    MulStrictMono(q, p, alignment);
  }

  /** What was reserved under one key, and where its buffers lie once the memory is set up. */
  datatype Segment = Segment(numBytes: nat, numBuffers: nat, alignment: nat, offset: nat, buffers: seq<nat>) {
    /** The bytes that are reserved: each buffer may have to move up to its alignment. */
    function Reserved(): nat
      requires 0 < alignment
    {
      Times(numBuffers, numBytes + alignment - 1)
    }

    /** The buffers are aligned, lie one behind the other as near as that allows, and inside the reservation. */
    ghost predicate Carved(base: nat)
      requires 0 < alignment
    {
      && |buffers| == numBuffers
      && (forall i :: 0 <= i < |buffers| ==> buffers[i] % alignment == 0)
      && (forall i :: 0 <= i < |buffers| ==>
          base + offset <= buffers[i] && buffers[i] + numBytes <= base + offset + Reserved())
      && (forall i, j :: 0 <= i < j < |buffers| ==> buffers[i] + numBytes <= buffers[j])
      && (buffers != [] ==> buffers[0] < base + offset + alignment)
      && (forall i :: 0 < i < |buffers| ==> buffers[i] < buffers[i - 1] + numBytes + alignment)
    }
  }

  /** What setup is given, or allocates itself. */
  datatype BufferView = BufferView(data: nat, size: nat)

  ghost predicate Apart(a: Segment, b: Segment)
  {
    && 0 < a.alignment && 0 < b.alignment
    && (a.offset + a.Reserved() <= b.offset || b.offset + b.Reserved() <= a.offset)
  }

  /** The reservations of different keys do not overlap, and lie before the offset of the next. */
  ghost predicate Reservations(segments: map<string, Segment>, offset: nat)
  {
    && (forall k :: k in segments ==>
        0 < segments[k].alignment && segments[k].offset + segments[k].Reserved() <= offset)
    && (forall k, l :: k in segments && l in segments && k != l ==> Apart(segments[k], segments[l]))
  }

  ghost predicate AllCarved(segments: map<string, Segment>, base: nat)
  {
    forall k :: k in segments ==> 0 < segments[k].alignment && segments[k].Carved(base)
  }

  /** The same reservations, wherever their buffers lie. */
  ghost predicate Same(a: map<string, Segment>, b: map<string, Segment>)
  {
    a.Keys == b.Keys && forall k :: k in a ==> a[k] == b[k].(buffers := a[k].buffers)
  }

  lemma SameReservations(a: map<string, Segment>, b: map<string, Segment>, offset: nat)
    requires Reservations(b, offset) && Same(a, b)
    ensures Reservations(a, offset)
  {
    hide Times, Apart, Segment.Reserved;
    forall k | k in a
      ensures 0 < a[k].alignment && a[k].offset + a[k].Reserved() <= offset
    {
      SameReserved(a[k], b[k]);
    }
    forall k, l | k in a && l in a && k != l
      ensures Apart(a[k], a[l])
    {
      SameReserved(a[k], b[k]);
      SameReserved(a[l], b[l]);
      StillApart(a[k], a[l], b[k], b[l]);
    }
  }

  lemma SameReserved(a: Segment, b: Segment)
    requires a == b.(buffers := a.buffers)
    ensures a.alignment == b.alignment && a.offset == b.offset && (0 < a.alignment ==> a.Reserved() == b.Reserved())
  {
  }

  lemma StillApart(a: Segment, c: Segment, b: Segment, d: Segment)
    requires a.alignment == b.alignment && a.offset == b.offset && (0 < a.alignment ==> a.Reserved() == b.Reserved())
    requires c.alignment == d.alignment && c.offset == d.offset && (0 < c.alignment ==> c.Reserved() == d.Reserved())
    requires Apart(b, d)
    ensures Apart(a, c)
  {
  }

  lemma MoreReservations(segments: map<string, Segment>, offset: nat, key: string, segment: Segment)
    requires Reservations(segments, offset) && key !in segments && segment.offset == offset && 0 < segment.alignment
    ensures Reservations(segments[key := segment], offset + segment.Reserved())
  {
  }

  class ScratchMemory {
    var segments: map<string, Segment>
    var numBytesNeeded: nat
    var offset: nat
    var buffer: Option<BufferView>

    constructor ()
      ensures Valid() && segments == map[] && offset == numBytesNeeded == 0 && buffer == None
    {
      segments, numBytesNeeded, offset, buffer := map[], 0, 0, None;
    }

    /** The reservations fit into the bytes that are needed, and the buffers into the memory that was set up. */
    ghost predicate Valid()
      reads this
    {
      && offset <= numBytesNeeded
      && Reservations(segments, offset)
      && (buffer.Some? ==> AllCarved(segments, buffer.value.data) && numBytesNeeded <= buffer.value.size)
    }

    /** Reserves buffers under a key. A key that is there already fails, but only after the space was taken. */
    method Put(key: string, numElements: nat, numBuffers: nat, alignment0: nat) returns (ok: bool)
      requires Valid()
      modifies this
      ensures Valid() && buffer == None
      ensures ok <==> key !in old(segments)
      ensures var alignment := if alignment0 == 0 then 1 else alignment0;
              && segments == (if ok then
                                old(segments)[key := Segment(numElements, numBuffers, alignment, old(offset), [])]
                              else old(segments))
              && offset == old(offset) + Times(numBuffers, numElements + alignment - 1)
      ensures numBytesNeeded == if old(numBytesNeeded) < offset then offset else old(numBytesNeeded)
    {
      hide Times, Reservations;
      buffer := None;
      var segmentOffset := offset;
      var alignment: nat := if alignment0 < 1 then 1 else alignment0;
      var more := Reservation(numBuffers, numElements, alignment);
      offset := offset + more;
      numBytesNeeded := if offset > numBytesNeeded then offset else numBytesNeeded;
      ok := key !in segments;
      StillReserved(segments, segmentOffset, offset);
      if ok {
        MoreReservations(segments, segmentOffset, key, Segment(numElements, numBuffers, alignment, segmentOffset, []));
        segments := segments[key := Segment(numElements, numBuffers, alignment, segmentOffset, [])];
      }
    }

    /** Lays all reserved buffers out in the given memory, or, if none is given, in storage of its own at an address
        that the allocator chooses. */
    method Setup(scratchBuffer: BufferView, storage: nat) returns (ok: bool)
      requires Valid()
      modifies this
      ensures Valid()
      ensures ok <==> scratchBuffer.size == 0 || (numBytesNeeded <= scratchBuffer.size && scratchBuffer.data != 0)
      ensures ok ==>
        buffer.Some?
        && buffer.value == if scratchBuffer.size == 0 then BufferView(storage, numBytesNeeded) else scratchBuffer
      ensures Same(segments, old(segments)) && numBytesNeeded == old(numBytesNeeded) && offset == old(offset)
    {
      var view := BufferView(storage, numBytesNeeded);
      if scratchBuffer.size != 0 {
        if numBytesNeeded > scratchBuffer.size || scratchBuffer.data == 0 {
          return false;
        }
        view := scratchBuffer;
      }
      ok := true;
      var carved := CarveAll(segments, view.data);
      hide Reservations, AllCarved, Same;
      SameReservations(carved, segments, offset);
      segments, buffer := carved, Some(view);
    }
  }

  method Reservation(numBuffers: nat, numElements: nat, alignment: nat) returns (bytes: nat)
    requires 0 < alignment
    ensures bytes == Times(numBuffers, numElements + alignment - 1)
  {
    TimesIs(numBuffers, numElements + alignment - 1);
    bytes := numBuffers * (numElements + alignment - 1);
  }

  lemma StillReserved(segments: map<string, Segment>, offset: nat, later: nat)
    requires Reservations(segments, offset) && offset <= later
    ensures Reservations(segments, later)
  {
  }

  /** The loop of setup over all keys. */
  method CarveAll(segments: map<string, Segment>, base: nat) returns (carved: map<string, Segment>)
    requires forall k :: k in segments ==> 0 < segments[k].alignment
    ensures Same(carved, segments) && AllCarved(carved, base)
  {
    hide Segment.Carved, CarvedSome;
    carved := map[];
    var rest := segments.Keys;
    CarvingBegins(segments, base);
    while rest != {}
      invariant CarvedSome(carved, segments, rest, base)
      decreases |rest|
    {
      var key :| key in rest;
      CarvedNext(carved, segments, rest, base, key);
      var segment := Carve(base, segments[key]);
      carved := carved[key := segment];
      rest := rest - {key};
    }
    CarvingEnds(carved, segments, base);
  }

  /** All but the rest of the keys are carved. */
  ghost predicate CarvedSome(carved: map<string, Segment>, segments: map<string, Segment>, rest: set<string>, base: nat)
  {
    && rest <= segments.Keys && carved.Keys == segments.Keys - rest
    && forall k :: k in carved ==>
         carved[k] == segments[k].(buffers := carved[k].buffers) && 0 < carved[k].alignment && carved[k].Carved(base)
  }

  lemma CarvingBegins(segments: map<string, Segment>, base: nat)
    ensures CarvedSome(map[], segments, segments.Keys, base)
  {
  }

  lemma CarvedNext(carved: map<string, Segment>, segments: map<string, Segment>, rest: set<string>, base: nat,
                   key: string)
    requires CarvedSome(carved, segments, rest, base) && key in rest
    ensures key in segments
    ensures forall s: Segment :: s == segments[key].(buffers := s.buffers) && 0 < s.alignment && s.Carved(base) ==>
              CarvedSome(carved[key := s], segments, rest - {key}, base)
  {
  }

  lemma CarvingEnds(carved: map<string, Segment>, segments: map<string, Segment>, base: nat)
    requires CarvedSome(carved, segments, {}, base)
    ensures Same(carved, segments) && AllCarved(carved, base)
  {
  }

  /** The first buffers of a segment are laid out, up to the current offset. */
  ghost predicate Laid(s: Segment, base: nat, buffers: seq<nat>, currentOffset: nat)
    requires 0 < s.alignment
  {
    && s.offset <= currentOffset <= s.offset + Times(|buffers|, s.numBytes + s.alignment - 1)
    && (forall j :: 0 <= j < |buffers| ==> buffers[j] % s.alignment == 0)
    && (forall j :: 0 <= j < |buffers| ==>
          base + s.offset <= buffers[j] && buffers[j] + s.numBytes <= base + currentOffset)
    && (forall j, k :: 0 <= j < k < |buffers| ==> buffers[j] + s.numBytes <= buffers[k])
    && base + currentOffset == (if buffers == [] then base + s.offset else buffers[|buffers| - 1] + s.numBytes)
    && (buffers != [] ==> buffers[0] < base + s.offset + s.alignment)
    && (forall j :: 0 < j < |buffers| ==> buffers[j] < buffers[j - 1] + s.numBytes + s.alignment)
  }

  lemma LaidNext(s: Segment, base: nat, buffers: seq<nat>, currentOffset: nat, address: nat)
    requires 0 < s.alignment && Laid(s, base, buffers, currentOffset)
    requires address % s.alignment == 0 && base + currentOffset <= address < base + currentOffset + s.alignment
    ensures Laid(s, base, buffers + [address], address + s.numBytes - base)
  {
    hide Times;
    TimesNext(|buffers|, s.numBytes + s.alignment - 1);
  }

  lemma LaidAll(s: Segment, base: nat, buffers: seq<nat>, currentOffset: nat)
    requires 0 < s.alignment
    ensures Laid(s, base, [], s.offset)
    ensures Laid(s, base, buffers, currentOffset) && |buffers| == s.numBuffers ==> s.(buffers := buffers).Carved(base)
  {
  }

  /** The inner loop of setup. */
  method Carve(base: nat, segment0: Segment) returns (segment: Segment)
    requires 0 < segment0.alignment
    ensures segment == segment0.(buffers := segment.buffers) && segment.Carved(base)
  {
    hide Times, Laid, Segment.Carved;
    var s := segment0;
    var buffers: seq<nat> := [];
    var currentOffset: nat := s.offset;
    var i: nat := 0;
    LaidAll(s, base, [], 0);
    while i < s.numBuffers
      invariant i <= s.numBuffers && |buffers| == i
      invariant Laid(s, base, buffers, currentOffset)
    {
      var address := Align(base + currentOffset, s.alignment);
      LaidNext(s, base, buffers, currentOffset, address);
      buffers := buffers + [address];
      currentOffset := address + s.numBytes - base;
      i := i + 1;
    }
    LaidAll(s, base, buffers, currentOffset);
    segment := s.(buffers := buffers);
  }

  /** No two buffers overlap, of the same key or of different ones, and all lie in the memory. */
  lemma BuffersApart(m: ScratchMemory, k: string, l: string, i: nat, j: nat)
    requires m.Valid() && m.buffer.Some? && k in m.segments && l in m.segments
    requires i < |m.segments[k].buffers| && j < |m.segments[l].buffers| && (k != l || i != j)
    ensures var a, b := m.segments[k], m.segments[l];
            a.buffers[i] + a.numBytes <= b.buffers[j] || b.buffers[j] + b.numBytes <= a.buffers[i]
    ensures var a, view := m.segments[k], m.buffer.value;
            a.buffers[i] % a.alignment == 0 && view.data <= a.buffers[i]
              && a.buffers[i] + a.numBytes <= view.data + view.size
  {
  }
}

/**
 * The newer JavaScript writer, `Pool` of dist/lib/Pool.js. It appends frames
 * `[u16 frameSize][payload][u16 frameSize]` along a cursor over the segmented
 * buffers and publishes them by writing the new log size into the 24-byte
 * header (`headerSize` at 0, `dataOffset` at 8, `size` at 16, all u64 LE).
 * `sliceSize` hands out the payload region; the caller's write into it is a
 * separate step (`Fill`).
 */
module SegmentedPool {
  import opened Wrappers
  import opened Bytes
  import opened FrameCodec
  import opened Segments
  import NativeMapping

  /** `HEADER_SIZE`: the bytes of the bendec `MemHeader`. */
  const HEADER_SIZE: nat := 24
  /** `MESSAGE_HEADER_SIZE`: the bytes of one length field. */
  const MESSAGE_HEADER_SIZE: nat := 2
  /** The smallest first buffer the constructor accepts. */
  const MIN_BUFFER_BYTES: nat := 32
  /** Byte offset of the header's `size` field. */
  const SIZE_AT: nat := 16

  /** The header a fresh log gets: `headerSize`, then `size`, then `dataOffset`, each set to 24. */
  function FreshHeader(mem: seq<byte>): (r: seq<byte>)
    requires |mem| >= HEADER_SIZE
    ensures |r| == |mem|
  {
    WriteLE(WriteLE(WriteLE(mem, 0, HEADER_SIZE, 8), SIZE_AT, HEADER_SIZE, 8), 8, HEADER_SIZE, 8)
  }

  /** A fresh header reads back as 24 in all three fields, and the data after it is untouched. */
  lemma FreshHeaderFields(mem: seq<byte>)
    requires |mem| >= HEADER_SIZE
    ensures NativeMapping.ReadHeader(FreshHeader(mem)) == NativeMapping.Header(24, 24, 24)
    ensures FreshHeader(mem)[HEADER_SIZE..] == mem[HEADER_SIZE..]
  {
    Pow256Values();
    var m1 := WriteLE(mem, 0, 24, 8);
    var m2 := WriteLE(m1, 16, 24, 8);
    var m3 := WriteLE(m2, 8, 24, 8);
    WriteLEElsewhere(m1, 16, 24, 8, 0, 8);
    WriteLEElsewhere(m2, 8, 24, 8, 0, 8);
    WriteLEElsewhere(m2, 8, 24, 8, 16, 24);
    DecodeEncode(24, 8);
    assert m3[24..] == m2[24..] == m1[24..] == mem[24..] by {
      assert m3[24..] == m3[16..][8..];
      assert m2[24..] == m2[16..][8..];
      assert m1[24..] == m1[8..][16..];
      assert mem[24..] == mem[8..][16..];
    }
  }

  /** The bytes once the constructor has run: a zero `size` gets a fresh header, anything else is kept. */
  function OpenedImage(mem: seq<byte>): (r: seq<byte>)
    requires |mem| >= HEADER_SIZE
    ensures |r| == |mem| && r[HEADER_SIZE..] == mem[HEADER_SIZE..]
    ensures NativeMapping.ReadHeader(r).committed > 0
    ensures U64At(mem, SIZE_AT) != 0 ==> r == mem
    ensures U64At(mem, SIZE_AT) == 0 ==> NativeMapping.ReadHeader(r) == NativeMapping.Header(24, 24, 24)
  {
    if U64At(mem, SIZE_AT) == 0 then
      FreshHeaderFields(mem);
      FreshHeader(mem)
    else
      mem
  }

  /**
   * `new Pool(bendec, sharedMemory)`: reads `size` from the header, gives an
   * empty log a fresh header, places the cursor at `size`, and only then
   * checks its two assertions, so a pool that throws has already written
   * the header.
   */
  method NewPool(mem: array<byte>, lay: Layout) returns (r: Result<Pool, PoolError>)
    requires ValidLayout(lay) && mem.Length == FileSize(lay)
    modifies mem
    ensures BufferLength(lay, 0) < HEADER_SIZE ==> r == Failure(HeaderUnreadable) && mem[..] == old(mem[..])
    ensures BufferLength(lay, 0) >= HEADER_SIZE ==> mem.Length >= HEADER_SIZE && mem[..] == OpenedImage(old(mem[..]))
    ensures r.Success? <==> BufferLength(lay, 0) >= MIN_BUFFER_BYTES && (lay.count == 1 || lay.overlap == 0)
    ensures r.Failure? && BufferLength(lay, 0) >= HEADER_SIZE ==>
      r.error == (if BufferLength(lay, 0) < MIN_BUFFER_BYTES then BuffersTooSmall else BuffersDiffer)
    ensures r.Success? ==>
      && fresh(r.value) && r.value.Valid() && r.value.mem == mem && r.value.layout == lay
      && r.value.active && r.value.uncommittedSize == 0
      && r.value.currentSize == NativeMapping.ReadHeader(mem[..]).committed
      && r.value.Status() == Place(Stride(lay), r.value.currentSize)
    ensures r.Success? && U64At(old(mem[..]), SIZE_AT) == 0 ==> !r.value.IsUsed()
  {
    if BufferLength(lay, 0) < HEADER_SIZE {
      return Failure(HeaderUnreadable);
    }
    ghost var m0 := mem[..];
    var size := ReadUint64LE(mem, SIZE_AT);
    if size == 0 {
      WriteUint64LE(mem, 0, HEADER_SIZE);
      WriteUint64LE(mem, SIZE_AT, HEADER_SIZE);
      WriteUint64LE(mem, 8, HEADER_SIZE);
      size := HEADER_SIZE;
    }
    assert mem[..] == OpenedImage(m0);
    if BufferLength(lay, 0) < MIN_BUFFER_BYTES {
      return Failure(BuffersTooSmall);
    }
    var same := AllSameLength(lay);
    SameLengthsShape(lay);
    if !same {
      return Failure(BuffersDiffer);
    }
    var pool := new Pool(mem, lay, size);
    return Success(pool);
  }

  class Pool {
    const mem: array<byte>
    const layout: Layout
    /** `bufferLength`: the stride of the cursor. */
    const bufferLength: nat
    var bufferIndex: nat
    var index: nat
    var currentSize: nat
    var uncommittedSize: nat
    var active: bool

    /**
     * The buffers passed the constructor's assertions, and the cursor sits
     * at the end of the committed and the uncommitted bytes.
     */
    ghost predicate Valid()
      reads this
    {
      && ValidLayout(layout) && mem.Length == FileSize(layout)
      && bufferLength == Stride(layout)
      && BufferLength(layout, 0) >= MIN_BUFFER_BYTES && SameLengths(layout)
      && Position(bufferLength, Cursor(bufferIndex, index)) == currentSize + uncommittedSize
    }

    constructor (mem: array<byte>, lay: Layout, size: nat)
      requires ValidLayout(lay) && mem.Length == FileSize(lay)
      requires BufferLength(lay, 0) >= MIN_BUFFER_BYTES && SameLengths(lay)
      ensures Valid() && this.mem == mem && layout == lay && active && uncommittedSize == 0
      ensures currentSize == size && Status() == Place(Stride(lay), size)
    {
      this.mem := mem;
      layout := lay;
      var l := Stride(lay);
      bufferLength := l;
      currentSize := size;
      var c := Place(l, size);
      bufferIndex, index := c.bufferIndex, c.index;
      uncommittedSize := 0;
      active := true;
    }

    /** `getStatus()`: the cursor, which locates the end of everything sliced so far. */
    function Status(): (c: Cursor)
      reads this
      requires Valid()
      ensures Position(bufferLength, c) == currentSize + uncommittedSize
    {
      Cursor(bufferIndex, index)
    }

    /** `getSize()`: the committed and the uncommitted byte counts, which together reach the cursor. */
    function Size(): (r: (nat, nat))
      reads this
      requires Valid()
      ensures r.0 + r.1 == Position(bufferLength, Status())
    {
      (currentSize, uncommittedSize)
    }

    /** `isUsed()`: more has been committed than the header's data offset. */
    function IsUsed(): (b: bool)
      reads this, mem
      requires Valid()
      ensures mem.Length >= HEADER_SIZE
      ensures b <==> currentSize > NativeMapping.ReadHeader(mem[..]).dataOffset
    {
      currentSize > U64At(mem[..], 8)
    }

    /** `setActive(active)`. */
    method SetActive(active: bool)
      requires Valid()
      modifies this`active
      ensures Valid() && this.active == active
    {
      this.active := active;
    }

    /**
     * `commit()`: the uncommitted bytes become committed and the new size is
     * written to the header; a size beyond u64 makes the write throw after
     * the fields have moved.
     */
    method Commit() returns (r: Outcome<BufferError>)
      requires Valid()
      modifies this`currentSize, this`uncommittedSize, mem
      ensures Valid() && Status() == old(Status()) && active == old(active)
      ensures currentSize == old(currentSize) + old(uncommittedSize) && uncommittedSize == 0
      ensures r.Pass? <==> currentSize < U64_LIMIT
      ensures r.Pass? ==>
        && mem.Length >= HEADER_SIZE
        && mem[..] == WriteLE(old(mem[..]), SIZE_AT, currentSize, 8)
        && NativeMapping.ReadHeader(mem[..]) == old(NativeMapping.ReadHeader(mem[..])).(committed := currentSize)
        && mem[HEADER_SIZE..] == old(mem[HEADER_SIZE..])
      ensures r.Fail? ==> r.error == RangeError && mem[..] == old(mem[..])
    {
      currentSize := currentSize + uncommittedSize;
      uncommittedSize := 0;
      if currentSize >= U64_LIMIT {
        return Fail(RangeError);
      }
      ghost var m0 := mem[..];
      WriteUint64LE(mem, SIZE_AT, currentSize);
      NativeMapping.StoreCommittedHeader(m0, currentSize);
      return Pass;
    }

    /**
     * `sliceSize(size)`: while inactive a fresh zeroed Buffer; otherwise the
     * payload region of a `size + 4` byte frame at the cursor, whose two
     * length fields are written, after which the cursor advances, rebasing
     * once into the next buffer. A frame that does not fit its buffer
     * throws: `NoBuffer` past the last buffer, `RangeError` for a length
     * beyond u16 or a field past the buffer's end, with the prefix already
     * written when only the suffix falls outside.
     */
    method SliceSize(size: nat) returns (r: Result<Slice, BufferError>)
      requires Valid()
      modifies this`bufferIndex, this`index, this`uncommittedSize, mem
      ensures Valid() && currentSize == old(currentSize) && active == old(active)
      ensures !active ==>
        && r == Success(Fresh(size)) && mem[..] == old(mem[..])
        && Status() == old(Status()) && uncommittedSize == old(uncommittedSize)
      ensures active && r.Success? ==>
        var c := old(Status());
        var n := size + FRAME_METADATA_BYTES;
        var a := Address(layout, c.bufferIndex, c.index);
        && FrameFits(layout, c, n) && a + n <= mem.Length
        && r.value == Shared(View(a + MESSAGE_HEADER_SIZE, size))
        && mem[..] == StampFrame(old(mem[..]), a, n)
        && Status() == Advance(bufferLength, c, n)
        && uncommittedSize == old(uncommittedSize) + n
      ensures old(index) < bufferLength && size + FRAME_METADATA_BYTES <= bufferLength ==> index < bufferLength
      ensures active && r.Failure? ==>
        var c := old(Status());
        var n := size + FRAME_METADATA_BYTES;
        var a := Address(layout, c.bufferIndex, c.index);
        && !FrameFits(layout, c, n)
        && r.error == (if c.bufferIndex < layout.count then RangeError else NoBuffer)
        && Status() == c && uncommittedSize == old(uncommittedSize)
        && if PrefixFits(layout, c, n) then a + 2 <= mem.Length && mem[..] == WriteU16(old(mem[..]), a, n)
           else mem[..] == old(mem[..])
    {
      if !active {
        return Success(Fresh(size));
      }
      if bufferIndex >= layout.count {
        return Failure(NoBuffer);
      }
      var view := SliceOf(layout, bufferIndex, index + MESSAGE_HEADER_SIZE, index + MESSAGE_HEADER_SIZE + size);
      var n := size + 2 * MESSAGE_HEADER_SIZE;
      var w := WriteLengthFields(mem, layout, Cursor(bufferIndex, index), n);
      if w.Fail? {
        return Failure(w.error);
      }
      var c := Advance(bufferLength, Cursor(bufferIndex, index), n);
      bufferIndex, index := c.bufferIndex, c.index;
      uncommittedSize := uncommittedSize + n;
      return Success(Shared(view));
    }
  }

  /**
   * The two `writeUInt16LE` calls of `sliceSize`: the prefix at the cursor,
   * then the suffix `n - 2` bytes on, each checked before it is written.
   */
  method WriteLengthFields(mem: array<byte>, lay: Layout, c: Cursor, n: nat) returns (r: Outcome<BufferError>)
    requires ValidLayout(lay) && mem.Length == FileSize(lay) && c.bufferIndex < lay.count
    requires n >= FRAME_METADATA_BYTES
    modifies mem
    ensures r.Pass? <==> FrameFits(lay, c, n)
    ensures r.Pass? ==>
      var a := Address(lay, c.bufferIndex, c.index);
      a + n <= mem.Length && mem[..] == StampFrame(old(mem[..]), a, n)
    ensures r.Fail? ==>
      var a := Address(lay, c.bufferIndex, c.index);
      && r.error == RangeError
      && if PrefixFits(lay, c, n) then a + 2 <= mem.Length && mem[..] == WriteU16(old(mem[..]), a, n)
         else mem[..] == old(mem[..])
  {
    r := WriteUInt16LE(mem, lay, c.bufferIndex, c.index, n);
    if r.Fail? {
      return;
    }
    r := WriteUInt16LE(mem, lay, c.bufferIndex, c.index + n - LENGTH_FIELD_BYTES, n);
  }

  /** A frame of `n` bytes fits, length fields included, in the buffer the cursor is in. */
  predicate FrameFits(lay: Layout, c: Cursor, n: nat)
    requires ValidLayout(lay)
  {
    c.bufferIndex < lay.count && n < U16_LIMIT && c.index + n <= BufferLength(lay, c.bufferIndex)
  }

  /** At least the prefix of a frame of `n` bytes can be written at the cursor. */
  predicate PrefixFits(lay: Layout, c: Cursor, n: nat)
    requires ValidLayout(lay)
  {
    c.bufferIndex < lay.count && n < U16_LIMIT && c.index + LENGTH_FIELD_BYTES <= BufferLength(lay, c.bufferIndex)
  }

  /**
   * A slice for `p` at the end of frames already placed, once the caller
   * has written `p` into it, extends the placed frames by `p`, and the
   * cursor moves to where the extended frames end.
   */
  lemma SliceThenFill(mem: seq<byte>, lay: Layout, start: Cursor, payloads: seq<seq<byte>>, p: seq<byte>,
                      c: Cursor, a: nat)
    requires ValidLayout(lay) && |mem| == FileSize(lay)
    requires FramesPlaced(mem, lay, start, payloads)
    requires c == PassFrames(Stride(lay), start, payloads) && a == Address(lay, c.bufferIndex, c.index)
    requires FrameFits(lay, c, |p| + FRAME_METADATA_BYTES)
    ensures a + |p| + FRAME_METADATA_BYTES <= |mem|
    ensures FramesPlaced(Fill(StampFrame(mem, a, |p| + FRAME_METADATA_BYTES), a + MESSAGE_HEADER_SIZE, p),
                         lay, start, payloads + [p])
    ensures PassFrames(Stride(lay), start, payloads + [p]) == Advance(Stride(lay), c, |p| + FRAME_METADATA_BYTES)
  {
    FilledPlaced(mem, lay, start, payloads, p, c, a);
    StampThenFill(mem, a, p);
    assert Fill(StampFrame(mem, a, |p| + FRAME_METADATA_BYTES), a + MESSAGE_HEADER_SIZE, p)
        == Fill(mem, a, EncodeFrame(p));
    PassFramesAppend(Stride(lay), start, payloads, p);
  }

  /** Writing the whole frame of `p` where the frames of `payloads` end extends them by `p`. */
  lemma FilledPlaced(mem: seq<byte>, lay: Layout, start: Cursor, payloads: seq<seq<byte>>, p: seq<byte>,
                     c: Cursor, a: nat)
    requires ValidLayout(lay) && |mem| == FileSize(lay)
    requires FramesPlaced(mem, lay, start, payloads)
    requires c == PassFrames(Stride(lay), start, payloads) && a == Address(lay, c.bufferIndex, c.index)
    requires FrameFits(lay, c, |p| + FRAME_METADATA_BYTES)
    ensures a + |p| + FRAME_METADATA_BYTES <= |mem|
    ensures FramesPlaced(Fill(mem, a, EncodeFrame(p)), lay, start, payloads + [p])
  {
    var mem' := Fill(mem, a, EncodeFrame(p));
    FillRegions(mem, a, EncodeFrame(p));
    PlacedAppend(mem, mem', lay, start, payloads, p, c, a);
  }
}

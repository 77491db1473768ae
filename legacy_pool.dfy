/**
 * The older TypeScript writer, `Pool` of src/lib/Pool.ts. Its header is the
 * committed size alone, eight bytes kept as two u32 LE halves (low at 0,
 * high at 4). Each message is a u32 LE size followed, two bytes on, by the
 * payload: the records are `2 + size` bytes apart, so the size's two high
 * bytes lie under the payload's first two.
 */
module LegacyPool {
  import opened Wrappers
  import opened Bytes
  import opened Segments
  import opened FrameCodec

  /** `HEADER_SIZE`: the bytes of the size header. */
  const HEADER_SIZE: nat := 8
  /** `MESSAGE_HEADER_SIZE`: the gap before each payload. */
  const MESSAGE_HEADER_SIZE: nat := 2
  /** The smallest first buffer the constructor accepts. */
  const MIN_BUFFER_BYTES: nat := 32
  /** The largest value `~~` leaves non-negative, plus one. */
  const INT32_LIMIT: nat := 0x8000_0000

  /** `readUInt32LE(0) + readUInt32LE(4) * 0x100000000`: the header read by halves is the u64 at 0. */
  function StoredSize(mem: seq<byte>): (v: nat)
    requires |mem| >= HEADER_SIZE
    ensures v == U64At(mem, 0)
  {
    U64Halves(mem, 0);
    U32At(mem, 0) + U32At(mem, 4) * U32_LIMIT
  }

  /** ECMAScript's ToInt32 of an integer, which is what `~~` does: wrap into 32 bits, then read signed. */
  function ToInt32(x: int): (r: int)
    ensures -(INT32_LIMIT as int) <= r < INT32_LIMIT
    ensures (r - x) % U32_LIMIT == 0
    ensures 0 <= x < INT32_LIMIT ==> r == x
  {
    var m := x % U32_LIMIT;
    if m >= INT32_LIMIT then m - U32_LIMIT else m
  }

  /** The two halves `commit` writes: the low 32 bits, then ToInt32 of the high part. */
  function CommitHalves(size: nat): (h: (nat, int))
    ensures h.0 == size % U32_LIMIT
    ensures h.1 >= 0 <==> size / U32_LIMIT % U32_LIMIT < INT32_LIMIT
    ensures h.1 >= 0 ==> h.1 == size / U32_LIMIT % U32_LIMIT
  {
    (size % U32_LIMIT, ToInt32(size / U32_LIMIT))
  }

  /** Splitting a size into halves and joining them back gives it modulo 2^64. */
  lemma SplitJoin(size: nat)
    ensures size % U32_LIMIT + U32_LIMIT * (size / U32_LIMIT % U32_LIMIT) == size % U64_LIMIT
  {
    var q := size / U32_LIMIT;
    var lo := size % U32_LIMIT;
    var hi := q % U32_LIMIT;
    var top := q / U32_LIMIT;
    assert size == U32_LIMIT * q + lo;
    assert q == U32_LIMIT * top + hi;
    assert U32_LIMIT * q == U64_LIMIT * top + U32_LIMIT * hi;
    assert size == U64_LIMIT * top + (U32_LIMIT * hi + lo);
  }

  /** Writing both halves of a size and reading them back gives the size modulo 2^64. */
  lemma HalvesReadBack(mem: seq<byte>, size: nat)
    requires |mem| >= HEADER_SIZE
    ensures var m := WriteLE(WriteLE(mem, 0, size % U32_LIMIT, 4), 4, size / U32_LIMIT % U32_LIMIT, 4);
      StoredSize(m) == size % U64_LIMIT && m[HEADER_SIZE..] == mem[HEADER_SIZE..]
  {
    var lo, hi := size % U32_LIMIT, size / U32_LIMIT % U32_LIMIT;
    var m1 := WriteLE(mem, 0, lo, 4);
    var m := WriteLE(m1, 4, hi, 4);
    Pow256Values();
    WriteLEReadBack(mem, 0, lo, 4);
    WriteLEReadBack(m1, 4, hi, 4);
    WriteLEElsewhere(m1, 4, hi, 4, 0, 4);
    SplitJoin(size);
    assert m[8..] == m1[8..] == mem[8..] by {
      assert m1[8..] == m1[4..][4..];
      assert mem[8..] == mem[4..][4..];
    }
  }

  /**
   * `new Pool(bendec, buffers, overlap, restore)` over the mapping's buffers.
   * With `restore` the size is read from the header, 0 standing for an
   * empty log of `HEADER_SIZE`, and the cursor is placed there; without it
   * the pool starts at `HEADER_SIZE` with the cursor at index 8 of the first
   * buffer. Nothing is written. The two assertions come last.
   */
  method NewPool(mem: array<byte>, lay: Layout, restore: bool) returns (r: Result<Pool, PoolError>)
    requires ValidLayout(lay) && mem.Length == FileSize(lay)
    ensures restore && BufferLength(lay, 0) < HEADER_SIZE ==> r == Failure(HeaderUnreadable)
    ensures !(restore && BufferLength(lay, 0) < HEADER_SIZE) ==>
      && (r.Success? <==> BufferLength(lay, 0) >= MIN_BUFFER_BYTES && (lay.count == 1 || lay.overlap == 0))
      && (r.Failure? ==> r.error == (if BufferLength(lay, 0) < MIN_BUFFER_BYTES then BuffersTooSmall else BuffersDiffer))
    ensures r.Success? ==>
      && fresh(r.value) && r.value.Valid() && r.value.mem == mem && r.value.layout == lay
      && r.value.active && r.value.uncommittedSize == 0
      && r.value.currentSize == (if restore && StoredSize(mem[..]) != 0 then StoredSize(mem[..]) else HEADER_SIZE)
      && r.value.Status() == (if restore then Place(Stride(lay), r.value.currentSize) else Cursor(0, HEADER_SIZE))
    ensures r.Success? && (!restore || StoredSize(mem[..]) == 0) ==> !r.value.IsUsed()
  {
    var size := HEADER_SIZE;
    var at := Cursor(0, HEADER_SIZE);
    if restore {
      var lo := ReadUInt32LE(mem, lay, 0, 0);
      if lo.Failure? {
        return Failure(HeaderUnreadable);
      }
      var hi := ReadUInt32LE(mem, lay, 0, 4);
      if hi.Failure? {
        return Failure(HeaderUnreadable);
      }
      size := lo.value + hi.value * U32_LIMIT;
      if size == 0 {
        size := HEADER_SIZE;
      }
      at := Place(Stride(lay), size);
    }
    if BufferLength(lay, 0) < MIN_BUFFER_BYTES {
      return Failure(BuffersTooSmall);
    }
    var same := AllSameLength(lay);
    SameLengthsShape(lay);
    if !same {
      return Failure(BuffersDiffer);
    }
    var pool := new Pool(mem, lay, size, at);
    return Success(pool);
  }

  /**
   * `Pool.withSize(bendec, size)`: a pool over one fresh zeroed buffer of
   * `size` bytes, no overlap, restored from its (zero) header.
   */
  method WithSize(size: nat) returns (r: Result<Pool, PoolError>)
    ensures size < HEADER_SIZE ==> r == Failure(HeaderUnreadable)
    ensures size >= HEADER_SIZE ==> (r.Success? <==> size >= MIN_BUFFER_BYTES)
    ensures size >= HEADER_SIZE && r.Failure? ==> r.error == BuffersTooSmall
    ensures r.Success? ==>
      && fresh(r.value) && fresh(r.value.mem) && r.value.Valid()
      && r.value.layout == Layout(size, 1, 0) && r.value.mem[..] == seq(size, _ => 0)
      && r.value.currentSize == HEADER_SIZE && r.value.Status() == Cursor(0, HEADER_SIZE)
      && !r.value.IsUsed()
  {
    var mem := new byte[size](_ => 0);
    if size < HEADER_SIZE {
      return Failure(HeaderUnreadable);
    }
    assert mem[..] == seq(size, _ => 0);
    assert mem[..8] == EncodeLE(0, 8);
    DecodeEncode(0, 8);
    assert StoredSize(mem[..]) == 0;
    r := NewPool(mem, Layout(size, 1, 0), true);
  }

  class Pool {
    const mem: array<byte>
    const layout: Layout
    /** `bufferLength`: the stride of the cursor. */
    const bufferLength: nat
    var bufferIndex: nat
    var index: nat
    var currentSize: nat
    var uncommittedSize: nat
    var active: bool

    /**
     * The buffers passed the constructor's assertions, and the cursor sits
     * at the end of the committed and the uncommitted bytes.
     */
    ghost predicate Valid()
      reads this
    {
      && ValidLayout(layout) && mem.Length == FileSize(layout)
      && bufferLength == Stride(layout)
      && BufferLength(layout, 0) >= MIN_BUFFER_BYTES && SameLengths(layout)
      && Position(bufferLength, Cursor(bufferIndex, index)) == currentSize + uncommittedSize
    }

    constructor (mem: array<byte>, lay: Layout, size: nat, at: Cursor)
      requires ValidLayout(lay) && mem.Length == FileSize(lay)
      requires BufferLength(lay, 0) >= MIN_BUFFER_BYTES && SameLengths(lay)
      requires Position(Stride(lay), at) == size
      ensures Valid() && this.mem == mem && layout == lay && active && uncommittedSize == 0
      ensures currentSize == size && Status() == at
    {
      this.mem := mem;
      layout := lay;
      bufferLength := Stride(lay);
      currentSize := size;
      bufferIndex, index := at.bufferIndex, at.index;
      uncommittedSize := 0;
      active := true;
    }

    /** `getStatus()`: the cursor, which locates the end of everything sliced so far. */
    function Status(): (c: Cursor)
      reads this
      requires Valid()
      ensures Position(bufferLength, c) == currentSize + uncommittedSize
    {
      Cursor(bufferIndex, index)
    }

    /** `getSize()`: the committed and the uncommitted byte counts, which together reach the cursor. */
    function Size(): (r: (nat, nat))
      reads this
      requires Valid()
      ensures r.0 + r.1 == Position(bufferLength, Status())
    {
      (currentSize, uncommittedSize)
    }

    /** `isUsed()`: more than the header has been committed. */
    function IsUsed(): (b: bool)
      reads this
      requires Valid()
      ensures b <==> currentSize > HEADER_SIZE
    {
      currentSize > HEADER_SIZE
    }

    /** `setActive(active)`. */
    method SetActive(active: bool)
      requires Valid()
      modifies this`active
      ensures Valid() && this.active == active
    {
      this.active := active;
    }

    /**
     * `commit()`: the uncommitted bytes become committed, then the low half
     * of the size and `~~` of its high part are written to the header. The
     * high write throws when `~~` turns negative, after the low half is in.
     */
    method Commit() returns (r: Outcome<BufferError>)
      requires Valid()
      modifies this`currentSize, this`uncommittedSize, mem
      ensures Valid() && Status() == old(Status()) && active == old(active)
      ensures currentSize == old(currentSize) + old(uncommittedSize) && uncommittedSize == 0
      ensures r.Pass? <==> currentSize / U32_LIMIT % U32_LIMIT < INT32_LIMIT
      ensures mem.Length >= HEADER_SIZE
      ensures r.Pass? ==>
        && mem[..] == WriteLE(WriteLE(old(mem[..]), 0, currentSize % U32_LIMIT, 4), 4, currentSize / U32_LIMIT % U32_LIMIT, 4)
        && StoredSize(mem[..]) == currentSize % U64_LIMIT
        && mem[HEADER_SIZE..] == old(mem[HEADER_SIZE..])
      ensures r.Fail? ==> r.error == RangeError && mem[..] == WriteLE(old(mem[..]), 0, currentSize % U32_LIMIT, 4)
    {
      currentSize := currentSize + uncommittedSize;
      uncommittedSize := 0;
      var halves := CommitHalves(currentSize);
      ghost var m0 := mem[..];
      r := WriteUInt32LE(mem, layout, 0, 0, halves.0);
      r := WriteUInt32LE(mem, layout, 0, 4, halves.1);
      HalvesReadBack(m0, currentSize);
    }

    /**
     * `sliceSize(size)`: while inactive a fresh zeroed Buffer; otherwise the
     * clamped slice `[index + 2, index + 2 + size)` of the current buffer,
     * with `size` written as u32 LE at the cursor, after which the cursor
     * advances `2 + size` bytes, rebasing once. Past the last buffer, for a
     * size beyond u32, or with the size field past the buffer's end it
     * throws before writing.
     */
    method SliceSize(size: nat) returns (r: Result<Slice, BufferError>)
      requires Valid()
      modifies this`bufferIndex, this`index, this`uncommittedSize, mem
      ensures Valid() && currentSize == old(currentSize) && active == old(active)
      ensures !active ==>
        && r == Success(Fresh(size)) && mem[..] == old(mem[..])
        && Status() == old(Status()) && uncommittedSize == old(uncommittedSize)
      ensures active ==> (r.Success? <==> SizeFits(layout, old(Status()), size))
      ensures active && r.Success? ==>
        var c := old(Status());
        var a := Address(layout, c.bufferIndex, c.index);
        && c.bufferIndex < layout.count && a + 4 <= mem.Length
        && r.value == Shared(SliceOf(layout, c.bufferIndex, c.index + MESSAGE_HEADER_SIZE, c.index + MESSAGE_HEADER_SIZE + size))
        && mem[..] == WriteLE(old(mem[..]), a, size, 4)
        && Status() == Advance(bufferLength, c, MESSAGE_HEADER_SIZE + size)
        && uncommittedSize == old(uncommittedSize) + MESSAGE_HEADER_SIZE + size
      ensures active && r.Success? && old(index) + MESSAGE_HEADER_SIZE + size <= BufferLength(layout, old(bufferIndex)) ==>
        r.value.view == View(Address(layout, old(bufferIndex), old(index)) + MESSAGE_HEADER_SIZE, size)
      ensures active && r.Failure? ==>
        && r.error == (if old(bufferIndex) < layout.count then RangeError else NoBuffer)
        && mem[..] == old(mem[..]) && Status() == old(Status()) && uncommittedSize == old(uncommittedSize)
    {
      if !active {
        return Success(Fresh(size));
      }
      if bufferIndex >= layout.count {
        return Failure(NoBuffer);
      }
      var view := SliceOf(layout, bufferIndex, index + MESSAGE_HEADER_SIZE, index + MESSAGE_HEADER_SIZE + size);
      var w := WriteUInt32LE(mem, layout, bufferIndex, index, size);
      if w.Fail? {
        return Failure(w.error);
      }
      var c := Advance(bufferLength, Cursor(bufferIndex, index), MESSAGE_HEADER_SIZE + size);
      bufferIndex, index := c.bufferIndex, c.index;
      uncommittedSize := uncommittedSize + size + MESSAGE_HEADER_SIZE;
      return Success(Shared(view));
    }
  }

  /** The u32 size field of a record fits at the cursor. */
  predicate SizeFits(lay: Layout, c: Cursor, size: nat)
    requires ValidLayout(lay)
  {
    c.bufferIndex < lay.count && size < U32_LIMIT && c.index + 4 <= BufferLength(lay, c.bufferIndex)
  }

  /**
   * What a reader finds once a record's size has been written at `a` and
   * its payload two bytes on: the payload intact, and a u32 size whose low
   * half is the size's and whose high half is the payload's first two bytes.
   */
  lemma SizeUnderPayload(mem: seq<byte>, a: nat, p: seq<byte>)
    requires |p| >= 2 && |p| < U32_LIMIT && a + MESSAGE_HEADER_SIZE + |p| <= |mem|
    ensures var m := Fill(WriteLE(mem, a, |p|, 4), a + MESSAGE_HEADER_SIZE, p);
      && m[a + MESSAGE_HEADER_SIZE..a + MESSAGE_HEADER_SIZE + |p|] == p
      && U32At(m, a) == |p| % U16_LIMIT + U16_LIMIT * U16At(p, 0)
  {
    var n := |p|;
    var m := Fill(WriteLE(mem, a, n, 4), a + 2, p);
    RecordBytes(mem, a, p);
    U32AtBytes(m, a);
    LowTwoBytes(n);
  }

  /** The four bytes under a record's size field once its payload is filled in. */
  lemma RecordBytes(mem: seq<byte>, a: nat, p: seq<byte>)
    requires |p| >= 2 && |p| < U32_LIMIT && a + MESSAGE_HEADER_SIZE + |p| <= |mem|
    ensures var m := Fill(WriteLE(mem, a, |p|, 4), a + MESSAGE_HEADER_SIZE, p);
      && m[a + MESSAGE_HEADER_SIZE..a + MESSAGE_HEADER_SIZE + |p|] == p
      && m[a] == |p| % 256 && m[a + 1] == |p| / 256 % 256 && m[a + 2] == p[0] && m[a + 3] == p[1]
  {
    var n := |p|;
    var w := WriteLE(mem, a, n, 4);
    var m := Fill(w, a + 2, p);
    EncodeU32(n);
    assert m[..a + 2] == w[..a + 2];
    assert m[a] == w[a] == n % 256 by {
      assert m[a] == m[..a + 2][a];
      assert w[a] == w[a..a + 4][0];
    }
    assert m[a + 1] == w[a + 1] == n / 256 % 256 by {
      assert m[a + 1] == m[..a + 2][a + 1];
      assert w[a + 1] == w[a..a + 4][1];
    }
  }

  /** The two low bytes of a number make up its value modulo 2^16. */
  lemma LowTwoBytes(n: nat)
    ensures n % 256 + 256 * (n / 256 % 256) == n % U16_LIMIT
  {
    var q := n / 256;
    assert n == 256 * q + n % 256;
    assert q == 256 * (q / 256) + q % 256;
    assert n == U16_LIMIT * (q / 256) + (256 * (q % 256) + n % 256);
  }

  /** The size read back is the size written exactly when the payload starts with the size's high half. */
  lemma SizeReadBackExact(mem: seq<byte>, a: nat, p: seq<byte>)
    requires |p| >= 2 && |p| < U32_LIMIT && a + MESSAGE_HEADER_SIZE + |p| <= |mem|
    ensures var m := Fill(WriteLE(mem, a, |p|, 4), a + MESSAGE_HEADER_SIZE, p);
      U32At(m, a) == |p| <==> U16At(p, 0) == |p| / U16_LIMIT
  {
    SizeUnderPayload(mem, a, p);
  }

  /** A four-byte payload starting with 1 reads back as a record of 65540 bytes. */
  lemma SizeOverwrittenExample(mem: seq<byte>)
    requires |mem| >= 6
    ensures U32At(Fill(WriteLE(mem, 0, 4, 4), MESSAGE_HEADER_SIZE, [1, 0, 0, 0]), 0) == 65540
  {
    SizeUnderPayload(mem, 0, [1, 0, 0, 0]);
  }
}

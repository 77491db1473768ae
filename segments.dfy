/**
 * The segmented view of a log file that the JavaScript `Pool` and
 * `SharedMemoryIterator` walk. The file is mapped once and handed out as
 * `count` Node Buffers: buffer `i` starts at file byte `i * segmentSize` and
 * reaches `overlap` bytes into the next segment, except the last, which has
 * no overlap (addons/mmap.cpp:38-55). Both revisions of both classes walk a
 * cursor `(bufferIndex, index)` over those buffers with the same stride and
 * the same rebase, and both use Node's Buffer accessors on them, whose
 * exceptions are modelled as `BufferError`s.
 */
module Segments {
  import opened Wrappers
  import opened Bytes
  import opened FrameCodec

  /** `size`, `num` and `overlap` of the mapping. */
  datatype Layout = Layout(segmentSize: nat, count: nat, overlap: nat)

  /** At least one buffer, and an overlap shorter than a segment. */
  predicate ValidLayout(lay: Layout)
  {
    lay.count >= 1 && lay.overlap < lay.segmentSize
  }

  /** The file is `size * num` bytes. */
  function FileSize(lay: Layout): nat
  {
    lay.segmentSize * lay.count
  }

  /**
   * `buffers[i].length`: a segment plus the overlap, but just a segment for
   * the last buffer; every buffer lies inside the file.
   */
  function BufferLength(lay: Layout, i: nat): (len: nat)
    requires ValidLayout(lay) && i < lay.count
    ensures Address(lay, i, len) <= FileSize(lay)
  {
    var s := lay.segmentSize;
    if i == lay.count - 1 then
      assert (i + 1) * s == i * s + s;
      s
    else
      assert (i + 2) * s <= lay.count * s;
      assert (i + 2) * s == i * s + 2 * s;
      s + lay.overlap
  }

  /** Every buffer has the length of the first. */
  predicate SameLengths(lay: Layout)
    requires ValidLayout(lay)
  {
    forall i :: 0 <= i < lay.count ==> BufferLength(lay, i) == BufferLength(lay, 0)
  }

  /** The buffers the mapping hands out have one length exactly when there is one buffer or no overlap. */
  lemma SameLengthsShape(lay: Layout)
    requires ValidLayout(lay)
    ensures SameLengths(lay) <==> lay.count == 1 || lay.overlap == 0
  {
    if lay.count > 1 && lay.overlap > 0 {
      assert BufferLength(lay, lay.count - 1) != BufferLength(lay, 0);
    }
  }

  /**
   * The `reduce` of both `Pool` constructors' second assertion: every
   * buffer's length compared with the first's.
   */
  method AllSameLength(lay: Layout) returns (same: bool)
    requires ValidLayout(lay)
    ensures same == SameLengths(lay)
  {
    same := true;
    var i := 0;
    while i < lay.count
      invariant 0 <= i <= lay.count
      invariant same == (forall k :: 0 <= k < i ==> BufferLength(lay, k) == BufferLength(lay, 0))
    {
      same := same && BufferLength(lay, i) == BufferLength(lay, 0);
      i := i + 1;
    }
  }

  /** The file byte that byte `j` of buffer `i` aliases. */
  function Address(lay: Layout, i: nat, j: nat): nat
  {
    i * lay.segmentSize + j
  }

  /**
   * `bufferLength = buffers[0].length - overlap`, the stride of every walk:
   * the segment size when there are several buffers, but the segment size
   * less the overlap when there is only one.
   */
  function Stride(lay: Layout): (l: nat)
    requires ValidLayout(lay)
    ensures l > 0
    ensures lay.count > 1 ==> l == lay.segmentSize
    ensures lay.count == 1 ==> l == lay.segmentSize - lay.overlap
  {
    BufferLength(lay, 0) - lay.overlap
  }

  /** Inside the buffers that exist, a cursor's file address is its logical position. */
  lemma AddressIsPosition(lay: Layout, c: Cursor)
    requires ValidLayout(lay) && c.bufferIndex < lay.count
    ensures Address(lay, c.bufferIndex, c.index) == Position(Stride(lay), c)
  {
  }

  /** A position in the log as a buffer and an index into it. */
  datatype Cursor = Cursor(bufferIndex: nat, index: nat)

  /** `bufferIndex * bufferLength + index`: the logical position of a cursor. */
  function Position(l: nat, c: Cursor): nat
  {
    c.bufferIndex * l + c.index
  }

  /** The cursor both constructors compute for a position: `floor(pos / l)` and `pos % l`. */
  function Place(l: nat, pos: nat): (c: Cursor)
    requires l > 0
    ensures Position(l, c) == pos && c.index < l
  {
    Cursor(pos / l, pos % l)
  }

  /**
   * The cursor after moving `n` bytes: when the index reaches the stride it
   * is rebased once into the next buffer.
   */
  function Advance(l: nat, c: Cursor, n: nat): (r: Cursor)
    ensures Position(l, r) == Position(l, c) + n
    ensures c.bufferIndex <= r.bufferIndex <= c.bufferIndex + 1
    ensures c.index < l && n <= l ==> r.index < l
  {
    if c.index + n >= l then Cursor(c.bufferIndex + 1, c.index + n - l)
    else Cursor(c.bufferIndex, c.index + n)
  }

  // ---- Node's Buffer accessors on buffer `i` ----

  /** `buffers[i]` is undefined (a TypeError), or an offset or value is out of range (a RangeError). */
  datatype BufferError = NoBuffer | RangeError

  /** The clamping of `subarray`/`slice` bounds: a negative bound counts from the end. */
  function ClampIndex(len: nat, x: int): (r: nat)
    ensures r <= len
    ensures 0 <= x <= len ==> r == x
    ensures x < 0 ==> r == (if len + x < 0 then 0 else len + x)
    ensures x > len ==> r == len
  {
    if x < 0 then (if len + x < 0 then 0 else len + x) else if x > len then len else x
  }

  /** `buffers[i].slice(start, end)`: the file bytes the new Buffer shares, empty when `end` clamps below `start`. */
  function SliceOf(lay: Layout, i: nat, start: int, end: int): (v: View)
    requires ValidLayout(lay) && i < lay.count
    ensures Address(lay, i, 0) <= v.start && v.start + v.length <= Address(lay, i, BufferLength(lay, i))
    ensures 0 <= start <= end <= BufferLength(lay, i) ==> v == View(Address(lay, i, start), end - start)
  {
    var len := BufferLength(lay, i);
    var s := ClampIndex(len, start);
    var e := ClampIndex(len, end);
    View(Address(lay, i, s), if e < s then 0 else e - s)
  }

  /** The bytes a Buffer shares with the file. */
  function ViewBytes(mem: seq<byte>, v: View): seq<byte>
    requires v.start + v.length <= |mem|
  {
    mem[v.start..v.start + v.length]
  }

  /** `buffers[i].readUInt16LE(off)`. */
  method ReadUInt16LE(mem: array<byte>, lay: Layout, i: nat, off: nat) returns (r: Result<nat, BufferError>)
    requires ValidLayout(lay) && mem.Length == FileSize(lay)
    ensures i >= lay.count ==> r == Failure(NoBuffer)
    ensures i < lay.count ==> (r.Success? <==> off + 2 <= BufferLength(lay, i))
    ensures r.Failure? ==> r.error == (if i < lay.count then RangeError else NoBuffer)
    ensures r.Success? ==>
      && i < lay.count && Address(lay, i, off) + 2 <= mem.Length
      && r.value == U16At(mem[..], Address(lay, i, off))
  {
    if i >= lay.count {
      return Failure(NoBuffer);
    }
    if off + 2 > BufferLength(lay, i) {
      return Failure(RangeError);
    }
    var v := ReadUint16LE(mem, Address(lay, i, off));
    return Success(v);
  }

  /** `buffers[i].writeUInt16LE(value, off)`: both checks come before any byte is written. */
  method WriteUInt16LE(mem: array<byte>, lay: Layout, i: nat, off: nat, value: nat) returns (r: Outcome<BufferError>)
    requires ValidLayout(lay) && mem.Length == FileSize(lay) && i < lay.count
    modifies mem
    ensures r.Pass? <==> value < U16_LIMIT && off + 2 <= BufferLength(lay, i)
    ensures r.Pass? ==>
      && Address(lay, i, off) + 2 <= mem.Length
      && mem[..] == WriteU16(old(mem[..]), Address(lay, i, off), value)
    ensures r.Fail? ==> r.error == RangeError && mem[..] == old(mem[..])
  {
    if value >= U16_LIMIT || off + 2 > BufferLength(lay, i) {
      return Fail(RangeError);
    }
    WriteUint16LE(mem, Address(lay, i, off), value);
    return Pass;
  }

  /** Four bytes read least significant first. */
  lemma U32AtBytes(s: seq<byte>, at: nat)
    requires at + 4 <= |s|
    ensures U32At(s, at) == s[at] as int + 256 * s[at + 1] as int + 65536 * s[at + 2] as int + 16777216 * s[at + 3] as int
  {
    Pow256Values();
    var d3 := DecodeLE(s[at + 3..at + 4]);
    assert s[at + 3..at + 4][1..] == [];
    assert d3 == s[at + 3] as int;
    var d2 := DecodeLE(s[at + 2..at + 4]);
    assert s[at + 2..at + 4][1..] == s[at + 3..at + 4];
    assert d2 == s[at + 2] as int + 256 * d3;
    var d1 := DecodeLE(s[at + 1..at + 4]);
    assert s[at + 1..at + 4][1..] == s[at + 2..at + 4];
    assert d1 == s[at + 1] as int + 256 * d2;
    assert s[at..at + 4][1..] == s[at + 1..at + 4];
    assert U32At(s, at) == s[at] as int + 256 * d1;
  }

  /** `buffers[i].readUInt32LE(off)`. */
  method ReadUInt32LE(mem: array<byte>, lay: Layout, i: nat, off: nat) returns (r: Result<nat, BufferError>)
    requires ValidLayout(lay) && mem.Length == FileSize(lay)
    ensures i >= lay.count ==> r == Failure(NoBuffer)
    ensures i < lay.count ==> (r.Success? <==> off + 4 <= BufferLength(lay, i))
    ensures r.Failure? ==> r.error == (if i < lay.count then RangeError else NoBuffer)
    ensures r.Success? ==>
      && i < lay.count && Address(lay, i, off) + 4 <= mem.Length
      && r.value == U32At(mem[..], Address(lay, i, off))
  {
    if i >= lay.count {
      return Failure(NoBuffer);
    }
    if off + 4 > BufferLength(lay, i) {
      return Failure(RangeError);
    }
    var a := Address(lay, i, off);
    U32AtBytes(mem[..], a);
    return Success(mem[a] as int + 256 * mem[a + 1] as int + 65536 * mem[a + 2] as int + 16777216 * mem[a + 3] as int);
  }

  /** The four bytes of a u32, least significant first. */
  lemma EncodeU32(v: nat)
    ensures EncodeLE(v, 4) == [v % 256, v / 256 % 256, v / 65536 % 256, v / 16777216 % 256]
  {
    assert EncodeLE(v / 16777216, 1) == [v / 16777216 % 256] + EncodeLE(v / 16777216 / 256, 0);
    assert EncodeLE(v / 65536, 2) == [v / 65536 % 256] + EncodeLE(v / 65536 / 256, 1);
    assert EncodeLE(v / 256, 3) == [v / 256 % 256] + EncodeLE(v / 256 / 256, 2);
  }

  /** `buffers[i].writeUInt32LE(value, off)`: both checks come before any byte is written. */
  method WriteUInt32LE(mem: array<byte>, lay: Layout, i: nat, off: nat, value: int) returns (r: Outcome<BufferError>)
    requires ValidLayout(lay) && mem.Length == FileSize(lay) && i < lay.count
    modifies mem
    ensures r.Pass? <==> 0 <= value < U32_LIMIT && off + 4 <= BufferLength(lay, i)
    ensures r.Pass? ==>
      && Address(lay, i, off) + 4 <= mem.Length
      && mem[..] == WriteLE(old(mem[..]), Address(lay, i, off), value, 4)
    ensures r.Fail? ==> r.error == RangeError && mem[..] == old(mem[..])
  {
    if value < 0 || value >= U32_LIMIT || off + 4 > BufferLength(lay, i) {
      return Fail(RangeError);
    }
    var a := Address(lay, i, off);
    ghost var before := mem[..];
    mem[a] := value % 256;
    mem[a + 1] := value / 256 % 256;
    mem[a + 2] := value / 65536 % 256;
    mem[a + 3] := value / 16777216 % 256;
    EncodeU32(value);
    ghost var expected := WriteLE(before, a, value, 4);
    forall j | 0 <= j < mem.Length
      ensures mem[j] == expected[j]
    {
      if j < a {
        assert expected[j] == expected[..a][j];
      } else if j >= a + 4 {
        assert expected[j] == expected[a + 4..][j - a - 4];
      } else {
        assert expected[j] == expected[a..a + 4][j - a];
      }
    }
    assert mem[..] == expected;
    return Pass;
  }

  // ---- what both `Pool` revisions throw and hand out ----

  /** Why a `Pool` constructor throws. */
  datatype PoolError =
    | HeaderUnreadable  // reading the header from a first buffer too short for it: a RangeError
    | BuffersTooSmall   // 'Buffers must be at least 32 bytes'
    | BuffersDiffer     // 'Buffers must be the same size'

  /** What `sliceSize` returns: a Buffer sharing file bytes, or a fresh zeroed one while inactive. */
  datatype Slice = Shared(view: View) | Fresh(length: nat)

  // ---- frames laid out along a walk ----

  /**
   * The frames of `payloads` lie one after another from cursor `c`, each
   * inside the buffer the cursor is in when it starts, as consecutive
   * `Pool.sliceSize` calls and writes into the slices lay them down.
   */
  ghost predicate FramesPlaced(mem: seq<byte>, lay: Layout, c: Cursor, payloads: seq<seq<byte>>)
    requires ValidLayout(lay)
    decreases |payloads|
  {
    payloads != [] ==>
      && FrameAt(mem, lay, c, payloads[0])
      && FramesPlaced(mem, lay, Advance(Stride(lay), c, |payloads[0]| + FRAME_METADATA_BYTES), payloads[1..])
  }

  /** The frame of `p` lies at cursor `c`, inside the buffer the cursor is in. */
  ghost predicate FrameAt(mem: seq<byte>, lay: Layout, c: Cursor, p: seq<byte>)
    requires ValidLayout(lay)
  {
    var n := |p| + FRAME_METADATA_BYTES;
    var a := Address(lay, c.bufferIndex, c.index);
    && n < U16_LIMIT
    && c.bufferIndex < lay.count && c.index + n <= BufferLength(lay, c.bufferIndex)
    && a + n <= |mem| && mem[a..a + n] == EncodeFrame(p)
  }

  /** A frame stays in place when the bytes it covers stay. */
  lemma FrameAtSame(mem: seq<byte>, mem': seq<byte>, lay: Layout, c: Cursor, p: seq<byte>, at: nat)
    requires ValidLayout(lay) && FrameAt(mem, lay, c, p) && |mem'| == |mem|
    requires at <= |mem| && mem'[..at] == mem[..at]
    requires Address(lay, c.bufferIndex, c.index) + |p| + FRAME_METADATA_BYTES <= at
    ensures FrameAt(mem', lay, c, p)
  {
    var a := Address(lay, c.bufferIndex, c.index);
    SamePrefixRange(mem, mem', at, a, a + |p| + FRAME_METADATA_BYTES);
  }

  /** Where the cursor is once the frames of `payloads` have been passed. */
  function PassFrames(l: nat, c: Cursor, payloads: seq<seq<byte>>): (r: Cursor)
    ensures Position(l, r) == Position(l, c) + LogSize(payloads)
    decreases |payloads|
  {
    if payloads == [] then c
    else PassFrames(l, Advance(l, c, |payloads[0]| + FRAME_METADATA_BYTES), payloads[1..])
  }

  lemma {:induction false} PassFramesAppend(l: nat, c: Cursor, payloads: seq<seq<byte>>, p: seq<byte>)
    ensures PassFrames(l, c, payloads + [p]) == Advance(l, PassFrames(l, c, payloads), |p| + FRAME_METADATA_BYTES)
    decreases |payloads|
  {
    if payloads == [] {
      assert [p][1..] == [];
    } else {
      assert (payloads + [p])[1..] == payloads[1..] + [p];
      PassFramesAppend(l, Advance(l, c, |payloads[0]| + FRAME_METADATA_BYTES), payloads[1..], p);
    }
  }

  /** Two byte strings that agree below `at` agree on every range below it. */
  lemma SamePrefixRange(mem: seq<byte>, mem': seq<byte>, at: nat, j: nat, k: nat)
    requires at <= |mem| && at <= |mem'| && mem'[..at] == mem[..at] && j <= k <= at
    ensures mem'[j..k] == mem[j..k]
  {
    assert mem'[j..k] == mem'[..at][j..k];
    assert mem[j..k] == mem[..at][j..k];
  }

  /** What `Fill` leaves below the region it writes, and what the region then holds. */
  lemma FillRegions(mem: seq<byte>, at: nat, data: seq<byte>)
    requires at + |data| <= |mem|
    ensures Fill(mem, at, data)[..at] == mem[..at]
    ensures Fill(mem, at, data)[at..at + |data|] == data
  {
  }

  /**
   * Writing one more frame where the cursor stops after `payloads`, inside
   * the buffer the cursor is in and leaving the bytes below it alone,
   * extends the placed frames by it.
   */
  lemma {:induction false} PlacedAppend(mem: seq<byte>, mem': seq<byte>, lay: Layout, c: Cursor,
                                        payloads: seq<seq<byte>>, p: seq<byte>, e: Cursor, at: nat)
    requires ValidLayout(lay) && |mem'| == |mem|
    requires FramesPlaced(mem, lay, c, payloads)
    requires e == PassFrames(Stride(lay), c, payloads) && at == Address(lay, e.bufferIndex, e.index)
    requires FrameAt(mem', lay, e, p) && at <= |mem| && mem'[..at] == mem[..at]
    ensures FramesPlaced(mem', lay, c, payloads + [p])
    decreases |payloads|
  {
    var l := Stride(lay);
    if payloads == [] {
      assert [p][1..] == [];
      PlacedCons(mem', lay, c, p, []);
    } else {
      var m := |payloads[0]| + FRAME_METADATA_BYTES;
      var next := Advance(l, c, m);
      AddressIsPosition(lay, c);
      AddressIsPosition(lay, e);
      FrameAtSame(mem, mem', lay, c, payloads[0], at);
      PlacedAppend(mem, mem', lay, next, payloads[1..], p, e, at);
      ConsAppend(payloads, p);
      PlacedCons(mem', lay, c, payloads[0], payloads[1..] + [p]);
    }
  }

  /** Appending after the first element. */
  lemma ConsAppend<T>(s: seq<T>, x: T)
    requires s != []
    ensures s + [x] == [s[0]] + (s[1..] + [x])
  {
    assert s == [s[0]] + s[1..];
  }

  /** The first frame in place and the rest placed after it: the frames are placed. */
  lemma PlacedCons(mem: seq<byte>, lay: Layout, c: Cursor, p: seq<byte>, rest: seq<seq<byte>>)
    requires ValidLayout(lay)
    requires FrameAt(mem, lay, c, p)
    requires FramesPlaced(mem, lay, Advance(Stride(lay), c, |p| + FRAME_METADATA_BYTES), rest)
    ensures FramesPlaced(mem, lay, c, [p] + rest)
  {
    assert ([p] + rest)[1..] == rest;
  }
}

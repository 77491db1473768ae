/**
 * The native writer (`ShmWriter`): reserves frames in the shared mapping and
 * publishes them by storing the new committed size into the header.
 *
 * `cursor` is the committed size the writer last saw or stored, an absolute
 * offset into the mapping; `pendingBytes` counts the bytes of frames
 * allocated since, which readers cannot see yet.
 */
module NativeWriter {
  import opened Wrappers
  import opened Bytes
  import opened FrameCodec
  import opened NativeMapping

  /** The largest payload whose frame size fits the u16 length fields. */
  const MAX_PAYLOAD: nat := U16_LIMIT - 1 - FRAME_METADATA_BYTES

  datatype WriterError =
    | WriterClosed            // Shared log writer is closed
    | Mapping(cause: MappingError)
    | SizeNotPositive         // allocate size must be positive
    | Exhausted               // Shared memory exhausted while allocating frame
    | InvalidPreviousFrame    // [DEBUG] Invalid previous frame size
    | CrossesDataOffset       // [DEBUG] Previous frame crosses data offset
    | PrefixMismatch          // [DEBUG] Frame corruption detected (prefix != suffix)

  /** Where the next frame goes: after the pending frames, but never before the data offset. */
  function WriteCursor(cursor: nat, pendingBytes: nat, dataOffset: nat): (w: nat)
    ensures w >= dataOffset && w >= cursor + pendingBytes
    ensures w == cursor + pendingBytes || w == dataOffset
  {
    if cursor + pendingBytes < dataOffset then dataOffset else cursor + pendingBytes
  }

  /**
   * The debug check on the frame that ends at `w`: its suffix must be a
   * plausible size, the frame must start at or after the data offset, and
   * its prefix must repeat the suffix.
   */
  function CheckPreviousFrame(mem: seq<byte>, headerSize: nat, dataOffset: nat, w: nat): (r: Outcome<WriterError>)
    requires w <= |mem|
    ensures r.Fail? ==> w > dataOffset && w >= headerSize + FRAME_METADATA_BYTES
    ensures r.Pass? && w > dataOffset && w >= headerSize + FRAME_METADATA_BYTES ==>
      var size := U16At(mem, w - 2);
      FRAME_METADATA_BYTES <= size <= w - dataOffset && U16At(mem, w - size) == size
  {
    if w > dataOffset && w >= headerSize + FRAME_METADATA_BYTES then
      var size := U16At(mem, w - 2);
      if size < FRAME_METADATA_BYTES then Fail(InvalidPreviousFrame)
      else if size > w - dataOffset then Fail(CrossesDataOffset)
      else if U16At(mem, w - size) != size then Fail(PrefixMismatch)
      else Pass
    else Pass
  }

  /** What the check of the source ends in: a verdict, or a read at an address outside the mapping. */
  datatype DebugRead = Checked(verdict: Outcome<WriterError>) | ReadOutsideMapping(address: nat)

  /**
   * The check as written (addons/shm_writer.cpp:100-120): the frame start is
   * `w - size` in uint64 arithmetic, which wraps when the suffix claims more
   * bytes than lie before `w`.
   */
  function CheckPreviousFrameAsWritten(mem: seq<byte>, headerSize: nat, dataOffset: nat, w: nat): (r: DebugRead)
    requires w <= |mem|
    ensures !(w > dataOffset && w >= headerSize + FRAME_METADATA_BYTES) ==> r == Checked(Pass)
    ensures r.ReadOutsideMapping? ==>
      && w > dataOffset && w >= headerSize + FRAME_METADATA_BYTES
      && r.address >= dataOffset && r.address + 2 > |mem|
      && r.address == (w - U16At(mem, w - 2)) % U64_LIMIT
  {
    if w > dataOffset && w >= headerSize + FRAME_METADATA_BYTES then
      var size := U16At(mem, w - 2);
      if size < FRAME_METADATA_BYTES then Checked(Fail(InvalidPreviousFrame))
      else
        var start := (w - size) % U64_LIMIT;
        if start < dataOffset then Checked(Fail(CrossesDataOffset))
        else if start + 2 > |mem| then ReadOutsideMapping(start)
        else if U16At(mem, start) != size then Checked(Fail(PrefixMismatch))
        else Checked(Pass)
    else Checked(Pass)
  }

  /** Where no wrap happens, the check as written and the corrected one agree. */
  lemma CheckAgreesWithoutWrap(mem: seq<byte>, headerSize: nat, dataOffset: nat, w: nat)
    requires w <= |mem| < U64_LIMIT
    requires w >= 2 ==> U16At(mem, w - 2) <= w
    ensures CheckPreviousFrameAsWritten(mem, headerSize, dataOffset, w)
         == Checked(CheckPreviousFrame(mem, headerSize, dataOffset, w))
  {
    if w > dataOffset && w >= headerSize + FRAME_METADATA_BYTES {
      var size := U16At(mem, w - 2);
      if size >= FRAME_METADATA_BYTES {
        assert (w - size) % U64_LIMIT == w - size;
      }
    }
  }

  /** A 40-byte mapping with header 24/24/30 whose last two committed bytes claim a 100-byte frame. */
  function CorruptTailExample(): (mem: seq<byte>)
    ensures |mem| == 40
  {
    WriteU16(WriteHeader(seq(40, _ => 0), Header(24, 24, 30)), 28, 100)
  }

  /**
   * With debug checks on, `allocate(1)` on that mapping computes the frame
   * start 30 - 100, which wraps to 2^64 - 70: the "crosses data offset"
   * guard lets it through and the prefix is read 70 bytes below the
   * mapping's base once the address wraps.
   * The corrected check reports the bad frame instead.
   */
  lemma DebugCheckReadsOutside()
    ensures var mem := CorruptTailExample();
      && WellFormedHeader(ReadHeader(mem), |mem|)
      && ReadHeader(mem) == Header(24, 24, 30)
      && U16At(mem, 28) == 100
      && CheckPreviousFrameAsWritten(mem, 24, 24, 30) == ReadOutsideMapping(U64_LIMIT - 70)
      && CheckPreviousFrame(mem, 24, 24, 30) == Fail(CrossesDataOffset)
  {
    var mem := CorruptTailExample();
    ExampleHeader();
    assert U16At(mem, 28) == 100;
  }

  /** The header of the corrupt example. */
  lemma ExampleHeader()
    ensures ReadHeader(CorruptTailExample()) == Header(24, 24, 30)
  {
    var zeros: seq<byte> := seq(40, _ => 0);
    var base := WriteHeader(zeros, Header(24, 24, 30));
    HeaderRoundTrip(zeros, Header(24, 24, 30));
    var mem := WriteU16(base, 28, 100);
    assert mem[..24] == base[..24];
    assert mem[0..8] == mem[..24][0..8] == base[..24][0..8] == base[0..8];
    assert mem[8..16] == mem[..24][8..16] == base[..24][8..16] == base[8..16];
    assert mem[16..24] == mem[..24][16..24] == base[..24][16..24] == base[16..24];
  }

  /**
   * The check never rejects a log this writer produced: when the bytes from
   * the data offset up to `w` are consecutive frames, the last of them passes.
   */
  lemma WrittenLogPassesCheck(mem: seq<byte>, headerSize: nat, dataOffset: nat, payloads: seq<seq<byte>>)
    requires dataOffset + |EncodeLog(payloads)| <= |mem|
    requires mem[dataOffset..dataOffset + |EncodeLog(payloads)|] == EncodeLog(payloads)
    requires forall i :: 0 <= i < |payloads| ==> |payloads[i]| <= MAX_PAYLOAD
    ensures CheckPreviousFrame(mem, headerSize, dataOffset, dataOffset + |EncodeLog(payloads)|) == Pass
  {
    if payloads != [] {
      var init, last := payloads[..|payloads| - 1], payloads[|payloads| - 1];
      assert payloads == init + [last];
      LastFrameOfLogPasses(mem, headerSize, dataOffset, init, last);
    } else {
      assert |EncodeLog(payloads)| == 0;
    }
  }

  /** The case of a log with a last frame. */
  lemma LastFrameOfLogPasses(mem: seq<byte>, headerSize: nat, dataOffset: nat, init: seq<seq<byte>>, last: seq<byte>)
    requires dataOffset + |EncodeLog(init + [last])| <= |mem|
    requires mem[dataOffset..dataOffset + |EncodeLog(init + [last])|] == EncodeLog(init + [last])
    requires |last| <= MAX_PAYLOAD
    ensures CheckPreviousFrame(mem, headerSize, dataOffset, dataOffset + |EncodeLog(init + [last])|) == Pass
  {
    var w := dataOffset + |EncodeLog(init + [last])|;
    var start := dataOffset + |EncodeLog(init)|;
    var n := |last| + FRAME_METADATA_BYTES;
    LogLast(mem, dataOffset, init, last);
    assert start + n == w;
    FrameFields(mem, start, last);
    assert LengthField(n) == n;
    assert U16At(mem, w - 2) == n;
    assert U16At(mem, w - n) == n;
    LastFramePasses(mem, headerSize, dataOffset, w, n);
  }

  /** A frame of `n` bytes ending at `w`, with both length fields intact, passes the check. */
  lemma LastFramePasses(mem: seq<byte>, headerSize: nat, dataOffset: nat, w: nat, n: nat)
    requires w <= |mem| && FRAME_METADATA_BYTES <= n && dataOffset + n <= w
    requires U16At(mem, w - 2) == n && U16At(mem, w - n) == n
    ensures CheckPreviousFrame(mem, headerSize, dataOffset, w) == Pass
  {
  }

  /**
   * The outcome of `allocate(requested)` for a writer whose state is given
   * by the other parameters: the write cursor of the new frame, or the error.
   */
  function AllocationPlan(mem: seq<byte>, headerSize: nat, dataOffset: nat, length: nat,
                          cursor: nat, pendingBytes: nat, debugChecks: bool, requested: int): (r: Result<nat, WriterError>)
    requires length <= |mem|
    ensures requested <= 0 ==> r == Failure(SizeNotPositive)
    ensures requested > 0 && WriteCursor(cursor, pendingBytes, dataOffset) + requested + FRAME_METADATA_BYTES > length ==>
      r == Failure(Exhausted)
    ensures r.Success? ==>
      && requested > 0
      && r.value == WriteCursor(cursor, pendingBytes, dataOffset)
      && r.value + requested + FRAME_METADATA_BYTES <= length
    ensures requested > 0 && WriteCursor(cursor, pendingBytes, dataOffset) + requested + FRAME_METADATA_BYTES <= length ==>
      (r.Success? <==> !debugChecks || CheckPreviousFrame(mem, headerSize, dataOffset, WriteCursor(cursor, pendingBytes, dataOffset)).Pass?)
  {
    if requested <= 0 then Failure(SizeNotPositive)
    else
      var w := WriteCursor(cursor, pendingBytes, dataOffset);
      if w + requested + FRAME_METADATA_BYTES > length then Failure(Exhausted)
      else if debugChecks && CheckPreviousFrame(mem, headerSize, dataOffset, w).Fail? then
        Failure(CheckPreviousFrame(mem, headerSize, dataOffset, w).error)
      else Success(w)
  }

  class ShmWriter {
    const mapping: ShmMapping
    const debugChecks: bool
    var cursor: nat
    var pendingBytes: nat
    var closed: bool

    ghost predicate Valid()
      reads this, mapping
    {
      mapping.Valid() && cursor + pendingBytes < U64_LIMIT
    }

    /** Starts at the committed size found in the header (addons/shm_writer.cpp:29-47). */
    constructor (mapping: ShmMapping, debugChecks: bool)
      requires mapping.Valid()
      ensures Valid() && !closed
      ensures this.mapping == mapping && this.debugChecks == debugChecks
      ensures cursor == mapping.LoadCommittedSize() && pendingBytes == 0
    {
      this.mapping := mapping;
      this.debugChecks := debugChecks;
      cursor := mapping.LoadCommittedSize();
      pendingBytes := 0;
      closed := false;
    }

    /** `EnsureOpen`: the writer, and the mapping under it, must both be open. */
    function EnsureOpen(): (r: Outcome<WriterError>)
      reads this, mapping
      ensures r.Pass? <==> !closed && !mapping.closed
      ensures closed ==> r == Fail(WriterClosed)
      ensures !closed && mapping.closed ==> r == Fail(Mapping(MappingClosed))
    {
      if closed then Fail(WriterClosed)
      else if mapping.closed then Fail(Mapping(MappingClosed))
      else Pass
    }

    /** The debug check, reading the two length fields out of the mapping. */
    method CheckPrevious(w: nat) returns (r: Outcome<WriterError>)
      requires Valid() && w <= mapping.base.Length
      ensures r == CheckPreviousFrame(mapping.base[..], mapping.headerSize, mapping.dataOffset, w)
    {
      if w > mapping.dataOffset && w >= mapping.headerSize + FRAME_METADATA_BYTES {
        var size := ReadUint16LE(mapping.base, w - 2);
        if size < FRAME_METADATA_BYTES {
          return Fail(InvalidPreviousFrame);
        }
        if size > w - mapping.dataOffset {
          return Fail(CrossesDataOffset);
        }
        var leading := ReadUint16LE(mapping.base, w - size);
        if leading != size {
          return Fail(PrefixMismatch);
        }
      }
      return Pass;
    }

    /** The checks of `allocate` before anything is written: where the frame goes, or why it cannot. */
    method PlanFrame(requested: int) returns (r: Result<nat, WriterError>)
      requires Valid() && !mapping.closed
      ensures r == AllocationPlan(mapping.base[..], mapping.headerSize, mapping.dataOffset, mapping.length,
                                  cursor, pendingBytes, debugChecks, requested)
    {
      if requested <= 0 {
        return Failure(SizeNotPositive);
      }
      var frameSize := requested + FRAME_METADATA_BYTES;
      var w := cursor + pendingBytes;
      if w < mapping.dataOffset {
        w := mapping.dataOffset;
      }
      if w + frameSize > mapping.length {
        return Failure(Exhausted);
      }
      if debugChecks {
        var check := CheckPrevious(w);
        if check.Fail? {
          return Failure(check.error);
        }
      }
      return Success(w);
    }

    /**
     * `allocate(requested)`: stamps both length fields of a new frame and
     * hands back the payload region, a view of `requested` bytes just past
     * the prefix. Nothing is published: the committed size stays put.
     */
    method Allocate(requested: int) returns (r: Result<View, WriterError>)
      requires Valid() && requested <= MAX_PAYLOAD
      modifies this`pendingBytes, mapping.base
      ensures Valid() && cursor == old(cursor)
      ensures old(EnsureOpen()).Fail? ==> r == Failure(old(EnsureOpen()).error)
      ensures old(EnsureOpen()).Pass? ==>
        var plan := old(AllocationPlan(mapping.base[..], mapping.headerSize, mapping.dataOffset, mapping.length,
                                       cursor, pendingBytes, debugChecks, requested));
        && (plan.Failure? ==> r == Failure(plan.error))
        && (plan.Success? ==> r == Success(View(plan.value + LENGTH_FIELD_BYTES, requested as nat)))
      ensures r.Failure? ==> pendingBytes == old(pendingBytes) && mapping.base[..] == old(mapping.base[..])
      ensures r.Success? ==>
        && requested > 0
        && var w := r.value.start - LENGTH_FIELD_BYTES;
        && var frameSize := requested + FRAME_METADATA_BYTES;
        && w + frameSize <= mapping.base.Length
        && pendingBytes == old(pendingBytes) + frameSize
        && mapping.base[..] == StampFrame(old(mapping.base[..]), w, frameSize)
      ensures mapping.dataOffset >= DEFAULT_HEADER_SIZE ==> ReadHeader(mapping.base[..]) == old(ReadHeader(mapping.base[..]))
    {
      var open := EnsureOpen();
      if open.Fail? {
        return Failure(open.error);
      }
      var plan := PlanFrame(requested);
      if plan.Failure? {
        return Failure(plan.error);
      }
      var w := plan.value;
      var payloadSize: nat := requested;
      var frameSize := payloadSize + FRAME_METADATA_BYTES;

      StampLengthFields(w, frameSize);
      pendingBytes := pendingBytes + frameSize;
      return Success(View(w + LENGTH_FIELD_BYTES, payloadSize));
    }

    /** The two length-field writes of `allocate`; at or past byte 24 they leave the header alone. */
    method StampLengthFields(w: nat, frameSize: nat)
      requires Valid() && FRAME_METADATA_BYTES <= frameSize && w + frameSize <= mapping.base.Length
      modifies mapping.base
      ensures mapping.base[..] == StampFrame(old(mapping.base[..]), w, frameSize)
      ensures w >= DEFAULT_HEADER_SIZE ==> ReadHeader(mapping.base[..]) == old(ReadHeader(mapping.base[..]))
    {
      ghost var before := mapping.base[..];
      WriteUint16LE(mapping.base, w, LengthField(frameSize));
      WriteUint16LE(mapping.base, w + frameSize - LENGTH_FIELD_BYTES, LengthField(frameSize));
      if w >= DEFAULT_HEADER_SIZE {
        StampKeepsHeader(before, w, frameSize);
      }
    }

    /**
     * `commit`: publishes the pending frames by storing `cursor + pendingBytes`
     * as the committed size; with nothing pending it does nothing.
     */
    method Commit() returns (r: Outcome<WriterError>)
      requires Valid()
      modifies this`cursor, this`pendingBytes, mapping.base
      ensures Valid() && cursor >= old(cursor)
      ensures r == old(EnsureOpen())
      ensures r.Fail? || old(pendingBytes) == 0 ==>
        cursor == old(cursor) && pendingBytes == old(pendingBytes) && mapping.base[..] == old(mapping.base[..])
      ensures r.Pass? && old(pendingBytes) > 0 ==>
        && cursor == old(cursor + pendingBytes) && pendingBytes == 0
        && mapping.base[..] == WriteLE(old(mapping.base[..]), COMMITTED_AT, cursor, 8)
        && ReadHeader(mapping.base[..]) == old(ReadHeader(mapping.base[..])).(committed := cursor)
    {
      r := EnsureOpen();
      if r.Fail? || pendingBytes == 0 {
        return;
      }
      var newSize := cursor + pendingBytes;
      mapping.StoreCommittedSize(newSize);
      cursor := newSize;
      pendingBytes := 0;
    }

    /** `close`: marks the writer closed and forgets the pending frames. */
    method Close()
      requires Valid()
      modifies this`closed, this`pendingBytes
      ensures Valid() && closed && pendingBytes == 0
      ensures EnsureOpen() == Fail(WriterClosed)
    {
      closed := true;
      pendingBytes := 0;
    }
  }

  /** Stamping a frame at or after byte 24 leaves the header, and so the committed size, alone. */
  lemma StampKeepsHeader(mem: seq<byte>, w: nat, frameSize: nat)
    requires DEFAULT_HEADER_SIZE <= w && FRAME_METADATA_BYTES <= frameSize && w + frameSize <= |mem|
    ensures ReadHeader(StampFrame(mem, w, frameSize)) == ReadHeader(mem)
  {
    var r := StampFrame(mem, w, frameSize);
    assert r[..24] == mem[..24];
    assert r[0..8] == r[..24][0..8] && mem[0..8] == mem[..24][0..8];
    assert r[8..16] == r[..24][8..16] && mem[8..16] == mem[..24][8..16];
    assert r[16..24] == r[..24][16..24] && mem[16..24] == mem[..24][16..24];
  }

  /** A 64-byte mapping whose header 24/8/8 puts the data offset inside the header bytes. */
  function ShortOffsetExample(): (mem: seq<byte>)
    ensures |mem| == 64
  {
    WriteHeader(seq(64, _ => 0), Header(24, 8, 8))
  }

  /**
   * Normalisation as written accepts a data offset of 8, and the first
   * `allocate(16)` then stamps its prefix over the header's own
   * `dataOffset` field before anything is committed.
   */
  lemma ShortDataOffsetOverwritesHeader()
    ensures var mem := ShortOffsetExample();
      && ReadHeader(mem) == Header(24, 8, 8)
      && NormaliseHeader(ReadHeader(mem), |mem|) == Header(24, 8, 8)
      && AllocationPlan(mem, 24, 8, |mem|, 8, 0, false, 16) == Success(8)
      && ReadHeader(StampFrame(mem, 8, 20)).dataOffset != 8
  {
    ShortOffsetHeader();
    StampedOffsetField(ShortOffsetExample());
  }

  /** The header of the short-offset example. */
  lemma ShortOffsetHeader()
    ensures ReadHeader(ShortOffsetExample()) == Header(24, 8, 8)
  {
    HeaderRoundTrip(seq(64, _ => 0), Header(24, 8, 8));
  }

  /** A 20-byte frame stamped at byte 8 leaves 20 in the low byte of the `dataOffset` field. */
  lemma StampedOffsetField(mem: seq<byte>)
    requires |mem| >= 28
    ensures ReadHeader(StampFrame(mem, 8, 20)).dataOffset != 8
  {
    var s := StampFrame(mem, 8, 20);
    SmallU16LowByte(s, 8);
    var field := s[8..16];
    assert field[0] == 20;
    DecodeLowByte(field);
    assert ReadHeader(s).dataOffset == DecodeLE(field);
  }

  /** A u16 below 256 is all in its low byte. */
  lemma SmallU16LowByte(s: seq<byte>, at: nat)
    requires at + 2 <= |s| && U16At(s, at) < 256
    ensures s[at] as nat == U16At(s, at)
  {
  }

  /** A little-endian number is its first byte, or at least 256. */
  lemma DecodeLowByte(f: seq<byte>)
    requires |f| > 0
    ensures DecodeLE(f) == f[0] || DecodeLE(f) >= 256
  {
    assert DecodeLE(f) == f[0] + 256 * DecodeLE(f[1..]);
  }

  /**
   * With the guarded normalisation no allocation ever touches the header:
   * every frame the plan places starts at or past byte 24.
   */
  lemma GuardedAllocationKeepsHeader(mem: seq<byte>, cursor: nat, pendingBytes: nat, debugChecks: bool, requested: int)
    requires DEFAULT_HEADER_SIZE <= |mem| < U64_LIMIT
    ensures var img := WriteHeader(mem, NormaliseHeaderGuarded(ReadHeader(mem), |mem|));
      var h := ReadHeader(img);
      var plan := AllocationPlan(img, h.headerSize, h.dataOffset, |img|, cursor, pendingBytes, debugChecks, requested);
      && h == NormaliseHeaderGuarded(ReadHeader(mem), |mem|)
      && (plan.Success? ==> ReadHeader(StampFrame(img, plan.value, requested + FRAME_METADATA_BYTES)) == h)
  {
    var g := NormaliseHeaderGuarded(ReadHeader(mem), |mem|);
    HeaderRoundTrip(mem, g);
    var img := WriteHeader(mem, g);
    var plan := AllocationPlan(img, g.headerSize, g.dataOffset, |img|, cursor, pendingBytes, debugChecks, requested);
    if plan.Success? {
      StampKeepsHeader(img, plan.value, requested + FRAME_METADATA_BYTES);
    }
  }

  /** `createWriter`: refused on a closed or read-only mapping (addons/shm_mapping.cpp:289-318). */
  method CreateWriter(m: ShmMapping, arg: WriterArg) returns (r: Result<ShmWriter, MappingError>)
    requires m.Valid()
    ensures m.WriterSettings(arg).Failure? ==> r == Failure(m.WriterSettings(arg).error)
    ensures m.WriterSettings(arg).Success? ==> r.Success?
    ensures r.Success? ==>
      && m.WriterSettings(arg).Success?
      && fresh(r.value) && r.value.Valid() && !r.value.closed
      && r.value.mapping == m && r.value.debugChecks == m.WriterSettings(arg).value
      && r.value.cursor == m.LoadCommittedSize() && r.value.pendingBytes == 0
  {
    var debugChecks :- m.WriterSettings(arg);
    var w := new ShmWriter(m, debugChecks);
    return Success(w);
  }
}

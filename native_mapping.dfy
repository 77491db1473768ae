/**
 * The native mapping (`ShmMapping`): option validation for `openSharedLog`,
 * the choice between opening and creating the backing file, the header
 * normalisation the constructor performs on the mapped bytes, and the small
 * accessors the writer and the iterator use.
 *
 * The mapped file is an `array<byte>` that the mapping, its writer and its
 * iterators share; the operating-system calls that produce it are replaced
 * by a `FileState` value.
 */
module NativeMapping {
  import opened Wrappers
  import opened Bytes

  /** `kDefaultHeaderSize`: three u64 fields. */
  const DEFAULT_HEADER_SIZE: nat := 24
  const HEADER_SIZE_AT: nat := 0
  const DATA_OFFSET_AT: nat := 8
  const COMMITTED_AT: nat := 16

  datatype MappingError =
    | OptionsNotObject       // openSharedLog(options) expects an options object
    | PathNotString          // options.path must be a string
    | CapacityWrongType      // capacityBytes must be a number or bigint
    | CapacityNotU64         // capacityBytes must fit into uint64
    | CapacityRequired       // capacityBytes is required when writable is true
    | CapacityTooSmall       // capacityBytes must be at least 24 bytes
    | CannotOpen             // a read-only open of a missing file
    | SegmentTooSmall        // an existing file shorter than the header
    | MappingClosed          // Shared log mapping is closed
    | ReadOnly               // createWriter on a read-only mapping
    | WriterOptionsNotObject
    | IteratorOptionsNotObject
    | StartCursorNotBigInt
    | StartCursorNotU64
    | RepairFaults           // not an exception: the repair writes into a read-only mapping and the process faults

  /** The three u64 little-endian fields at the start of the mapping. */
  datatype Header = Header(headerSize: nat, dataOffset: nat, committed: nat)

  function ReadHeader(mem: seq<byte>): (h: Header)
    requires |mem| >= DEFAULT_HEADER_SIZE
    ensures h.headerSize < U64_LIMIT && h.dataOffset < U64_LIMIT && h.committed < U64_LIMIT
  {
    Header(U64At(mem, HEADER_SIZE_AT), U64At(mem, DATA_OFFSET_AT), U64At(mem, COMMITTED_AT))
  }

  function WriteHeader(mem: seq<byte>, h: Header): (r: seq<byte>)
    requires |mem| >= DEFAULT_HEADER_SIZE
    ensures |r| == |mem|
  {
    WriteLE(WriteLE(WriteLE(mem, HEADER_SIZE_AT, h.headerSize, 8), DATA_OFFSET_AT, h.dataOffset, 8),
            COMMITTED_AT, h.committed, 8)
  }

  /** Writing a header and reading it back gives the same fields; the data is untouched. */
  lemma HeaderRoundTrip(mem: seq<byte>, h: Header)
    requires |mem| >= DEFAULT_HEADER_SIZE
    requires h.headerSize < U64_LIMIT && h.dataOffset < U64_LIMIT && h.committed < U64_LIMIT
    ensures ReadHeader(WriteHeader(mem, h)) == h
    ensures WriteHeader(mem, h)[DEFAULT_HEADER_SIZE..] == mem[DEFAULT_HEADER_SIZE..]
  {
    Pow256Values();
    var m1 := WriteLE(mem, 0, h.headerSize, 8);
    var m2 := WriteLE(m1, 8, h.dataOffset, 8);
    var m3 := WriteLE(m2, 16, h.committed, 8);
    WriteLEElsewhere(m1, 8, h.dataOffset, 8, 0, 8);
    WriteLEElsewhere(m2, 16, h.committed, 8, 0, 8);
    WriteLEElsewhere(m2, 16, h.committed, 8, 8, 16);
    DecodeEncode(h.headerSize, 8);
    DecodeEncode(h.dataOffset, 8);
    DecodeEncode(h.committed, 8);
    assert m3[24..] == m2[24..] == m1[24..] == mem[24..] by {
      assert m2[24..] == m2[16..][8..];
      assert m1[24..] == m1[16..][8..];
      assert mem[24..] == mem[8..][16..];
      assert m1[24..] == m1[8..][16..];
    }
  }

  /** Writing the committed field changes that field of the header and nothing else. */
  lemma StoreCommittedHeader(mem: seq<byte>, value: nat)
    requires |mem| >= DEFAULT_HEADER_SIZE && value < U64_LIMIT
    ensures ReadHeader(WriteLE(mem, COMMITTED_AT, value, 8)) == ReadHeader(mem).(committed := value)
    ensures WriteLE(mem, COMMITTED_AT, value, 8)[DEFAULT_HEADER_SIZE..] == mem[DEFAULT_HEADER_SIZE..]
  {
    var r := WriteLE(mem, COMMITTED_AT, value, 8);
    WriteLEElsewhere(mem, 16, value, 8, 0, 8);
    WriteLEElsewhere(mem, 16, value, 8, 8, 16);
    Pow256Values();
    WriteLEReadBack(mem, 16, value, 8);
  }

  /** Writing back the fields just read leaves the mapping as it was. */
  lemma HeaderSameValue(mem: seq<byte>)
    requires |mem| >= DEFAULT_HEADER_SIZE
    ensures WriteHeader(mem, ReadHeader(mem)) == mem
  {
    WriteLESameValue(mem, 0, 8);
    WriteLESameValue(mem, 8, 8);
    WriteLESameValue(mem, 16, 8);
  }

  /** The constraints normalisation establishes on a mapping of `length` bytes. */
  predicate WellFormedHeader(h: Header, length: nat)
  {
    0 < h.headerSize <= length && 0 < h.dataOffset <= length && h.dataOffset <= h.committed <= length
  }

  /** The constructor's repair of an out-of-range header (addons/shm_mapping.cpp:202-220). */
  function NormaliseHeader(h: Header, length: nat): (n: Header)
    requires length >= DEFAULT_HEADER_SIZE
    ensures WellFormedHeader(n, length)
  {
    var headerSize := if h.headerSize == 0 || h.headerSize > length then DEFAULT_HEADER_SIZE else h.headerSize;
    var dataOffset := if h.dataOffset == 0 || h.dataOffset > length then headerSize else h.dataOffset;
    var committed := if h.committed < dataOffset || h.committed > length then dataOffset else h.committed;
    Header(headerSize, dataOffset, committed)
  }

  /**
   * Each field that is already in range survives normalisation; each one that
   * is not is replaced by its fallback: 24, then the header size, then the
   * data offset.
   */
  lemma NormaliseFields(h: Header, length: nat)
    requires length >= DEFAULT_HEADER_SIZE
    ensures var n := NormaliseHeader(h, length);
      && (0 < h.headerSize <= length ==> n.headerSize == h.headerSize)
      && (!(0 < h.headerSize <= length) ==> n.headerSize == DEFAULT_HEADER_SIZE)
      && (0 < h.dataOffset <= length ==> n.dataOffset == h.dataOffset)
      && (!(0 < h.dataOffset <= length) ==> n.dataOffset == n.headerSize)
      && (n.dataOffset <= h.committed <= length ==> n.committed == h.committed)
      && (!(n.dataOffset <= h.committed <= length) ==> n.committed == n.dataOffset)
  {
  }

  /** A well-formed header is left alone, so normalising twice is normalising once. */
  lemma NormaliseIdempotent(h: Header, length: nat)
    requires length >= DEFAULT_HEADER_SIZE
    ensures WellFormedHeader(h, length) ==> NormaliseHeader(h, length) == h
    ensures NormaliseHeader(NormaliseHeader(h, length), length) == NormaliseHeader(h, length)
  {
  }

  /**
   * Normalisation as it is evidently meant to be: a data offset that points
   * into the 24 header bytes is out of range as well, and falls back to the
   * header size, but never below 24.
   */
  function NormaliseHeaderGuarded(h: Header, length: nat): (n: Header)
    requires length >= DEFAULT_HEADER_SIZE
    ensures WellFormedHeader(n, length) && n.dataOffset >= DEFAULT_HEADER_SIZE
  {
    var headerSize := if h.headerSize == 0 || h.headerSize > length then DEFAULT_HEADER_SIZE else h.headerSize;
    var fallback := if headerSize < DEFAULT_HEADER_SIZE then DEFAULT_HEADER_SIZE else headerSize;
    var dataOffset := if h.dataOffset < DEFAULT_HEADER_SIZE || h.dataOffset > length then fallback else h.dataOffset;
    var committed := if h.committed < dataOffset || h.committed > length then dataOffset else h.committed;
    Header(headerSize, dataOffset, committed)
  }

  /**
   * The guarded repair differs from the source's only where the source leaves
   * a data offset below 24; a well-formed header with its data past the
   * header bytes is left alone by both.
   */
  lemma GuardedAgrees(h: Header, length: nat)
    requires length >= DEFAULT_HEADER_SIZE
    ensures NormaliseHeader(h, length).dataOffset >= DEFAULT_HEADER_SIZE ==>
      NormaliseHeaderGuarded(h, length) == NormaliseHeader(h, length)
    ensures WellFormedHeader(h, length) && h.dataOffset >= DEFAULT_HEADER_SIZE ==>
      NormaliseHeaderGuarded(h, length) == h
  {
  }

  function Zeros(n: nat): (s: seq<byte>)
    ensures |s| == n && forall i :: 0 <= i < n ==> s[i] == 0
  {
    seq(n, _ => 0)
  }

  lemma {:induction false} DecodeZeros(s: seq<byte>)
    requires forall i :: 0 <= i < |s| ==> s[i] == 0
    ensures DecodeLE(s) == 0
  {
    if |s| > 0 {
      DecodeZeros(s[1..]);
    }
  }

  /** A newly created (zero-filled) file gets the header 24/24/24: an empty log. */
  lemma FreshFileHeader(capacity: nat)
    requires capacity >= DEFAULT_HEADER_SIZE
    ensures ReadHeader(Zeros(capacity)) == Header(0, 0, 0)
    ensures NormaliseHeader(ReadHeader(Zeros(capacity)), capacity) == Header(24, 24, 24)
  {
    var z := Zeros(capacity);
    DecodeZeros(z[0..8]);
    DecodeZeros(z[8..16]);
    DecodeZeros(z[16..24]);
  }

  /** The bytes of the mapping once the constructor has normalised its header. */
  function NormalisedImage(mem: seq<byte>): (r: seq<byte>)
    requires |mem| >= DEFAULT_HEADER_SIZE
    ensures |r| == |mem|
  {
    WriteHeader(mem, NormaliseHeader(ReadHeader(mem), |mem|))
  }

  /**
   * Normalisation writes the repaired header and nothing else, and it leaves a
   * mapping whose header is already well formed byte-for-byte unchanged.
   */
  lemma NormalisedImageHeader(mem: seq<byte>)
    requires DEFAULT_HEADER_SIZE <= |mem| < U64_LIMIT
    ensures ReadHeader(NormalisedImage(mem)) == NormaliseHeader(ReadHeader(mem), |mem|)
    ensures WellFormedHeader(ReadHeader(NormalisedImage(mem)), |mem|)
    ensures NormalisedImage(mem)[DEFAULT_HEADER_SIZE..] == mem[DEFAULT_HEADER_SIZE..]
    ensures WellFormedHeader(ReadHeader(mem), |mem|) ==> NormalisedImage(mem) == mem
  {
    HeaderRoundTrip(mem, NormaliseHeader(ReadHeader(mem), |mem|));
    if WellFormedHeader(ReadHeader(mem), |mem|) {
      HeaderSameValue(mem);
    }
  }

  /** How the addon classifies the `capacityBytes` property of the options. */
  datatype CapacityArg =
    | CapacityMissing                 // absent, undefined or null
    | CapacityBigInt(value: int)      // a BigInt, exact; lossless only in 0 .. 2^64-1
    | CapacityNumber(value: int)      // a Number, after its conversion to uint64
    | CapacityOther                   // any other type

  /**
   * The argument of `openSharedLog`. `path` is `None` when the property is not
   * a string; `writable` and `debugChecks` are the truthiness of the
   * properties, false when they are absent.
   */
  datatype OpenArg =
    | NotAnObject
    | OptionsObject(path: Option<string>, writable: bool, debugChecks: bool, capacity: CapacityArg)

  datatype OpenConfig = OpenConfig(path: string, capacityBytes: nat, writable: bool, debugChecks: bool)

  predicate CapacityConverted(arg: OpenArg)
  {
    arg.OptionsObject? && arg.capacity.CapacityNumber? ==> 0 <= arg.capacity.value < U64_LIMIT
  }

  /** `openSharedLog`'s validation of its options (addons/shm_mapping.cpp:36-91). */
  function ParseOpenOptions(arg: OpenArg): (r: Result<OpenConfig, MappingError>)
    requires CapacityConverted(arg)
    ensures r.Success? ==> DEFAULT_HEADER_SIZE <= r.value.capacityBytes < U64_LIMIT
    ensures r.Success? ==>
      && arg.OptionsObject? && arg.path == Some(r.value.path)
      && r.value.writable == arg.writable && r.value.debugChecks == arg.debugChecks
  {
    match arg
    case NotAnObject => Failure(OptionsNotObject)
    case OptionsObject(path, writable, debugChecks, capacity) =>
      if path.None? then Failure(PathNotString)
      else
        var given: Result<nat, MappingError> :=
          match capacity
          case CapacityOther => Failure(CapacityWrongType)
          case CapacityBigInt(v) => if 0 <= v < U64_LIMIT then Success(v as nat) else Failure(CapacityNotU64)
          case CapacityNumber(v) => Success(v as nat)
          case CapacityMissing => if writable then Failure(CapacityRequired) else Success(DEFAULT_HEADER_SIZE);
        if given.Failure? then Failure(given.error)
        else if given.value < DEFAULT_HEADER_SIZE then Failure(CapacityTooSmall)
        else Success(OpenConfig(path.value, given.value, writable, debugChecks))
  }

  /**
   * The outcomes of option validation for a well-typed path: a writer must
   * name a capacity, a reader defaults to 24 bytes, and a capacity is used
   * when it is a lossless u64 of at least 24.
   */
  lemma ParseOpenOptionsCases(path: string, writable: bool, debugChecks: bool, capacity: CapacityArg)
    requires CapacityConverted(OptionsObject(Some(path), writable, debugChecks, capacity))
    ensures var r := ParseOpenOptions(OptionsObject(Some(path), writable, debugChecks, capacity));
      && (capacity.CapacityMissing? && writable ==> r == Failure(CapacityRequired))
      && (capacity.CapacityMissing? && !writable ==> r == Success(OpenConfig(path, 24, false, debugChecks)))
      && (capacity.CapacityOther? ==> r == Failure(CapacityWrongType))
      && (capacity.CapacityBigInt? && !(0 <= capacity.value < U64_LIMIT) ==> r == Failure(CapacityNotU64))
      && ((capacity.CapacityNumber? || capacity.CapacityBigInt?) && 0 <= capacity.value < 24 ==>
            r == Failure(CapacityTooSmall))
      && ((capacity.CapacityNumber? || capacity.CapacityBigInt?) && 24 <= capacity.value < U64_LIMIT ==>
            r == Success(OpenConfig(path, capacity.value as nat, writable, debugChecks)))
  {
  }

  lemma ParseOpenOptionsPath(arg: OpenArg)
    requires CapacityConverted(arg)
    ensures arg.NotAnObject? ==> ParseOpenOptions(arg) == Failure(OptionsNotObject)
    ensures arg.OptionsObject? && arg.path.None? ==> ParseOpenOptions(arg) == Failure(PathNotString)
  {
  }

  /** The backing file before the open: absent, or present with these bytes. */
  datatype FileState = Missing | Existing(contents: seq<byte>)

  /**
   * The bytes that get mapped (addons/shm_mapping.cpp:125-179): an existing
   * file is mapped at its own size whatever capacity was asked for; a missing
   * file is created zero-filled at the requested capacity, and only a writer
   * may create one.
   */
  function OpenFile(file: FileState, cfg: OpenConfig): (r: Result<seq<byte>, MappingError>)
    requires cfg.capacityBytes >= DEFAULT_HEADER_SIZE
    ensures r.Success? ==> |r.value| >= DEFAULT_HEADER_SIZE
    ensures file.Missing? ==> (r.Success? <==> cfg.writable)
    ensures file.Missing? && r.Success? ==> r.value == Zeros(cfg.capacityBytes)
    ensures file.Existing? ==> (r.Success? <==> |file.contents| >= DEFAULT_HEADER_SIZE)
    ensures file.Existing? && r.Success? ==> r.value == file.contents
  {
    match file
    case Missing =>
      if !cfg.writable then Failure(CannotOpen) else Success(Zeros(cfg.capacityBytes))
    case Existing(contents) =>
      if |contents| < DEFAULT_HEADER_SIZE then Failure(SegmentTooSmall) else Success(contents)
  }

  /** Opening an existing file never depends on the requested capacity. */
  lemma ExistingFileKeepsSize(contents: seq<byte>, cfg1: OpenConfig, cfg2: OpenConfig)
    requires cfg1.capacityBytes >= DEFAULT_HEADER_SIZE && cfg2.capacityBytes >= DEFAULT_HEADER_SIZE
    ensures OpenFile(Existing(contents), cfg1) == OpenFile(Existing(contents), cfg2)
  {
  }

  /**
   * What the constructor leaves in the mapping, as written: it repairs the
   * header whatever the protection. A read-only mapping (`PROT_READ`) takes no
   * write, so an open whose header needs repair faults at the first one.
   */
  function MappedImage(writable: bool, contents: seq<byte>): (r: Result<seq<byte>, MappingError>)
    requires DEFAULT_HEADER_SIZE <= |contents| < U64_LIMIT
    ensures r.Failure? <==> !writable && !WellFormedHeader(ReadHeader(contents), |contents|)
    ensures r.Failure? ==> r.error == RepairFaults
    ensures r.Success? ==> r.value == NormalisedImage(contents)
    ensures r.Success? && !writable ==> r.value == contents
  {
    NormalisedImageHeader(contents);
    if !writable && !WellFormedHeader(ReadHeader(contents), |contents|) then Failure(RepairFaults)
    else Success(NormalisedImage(contents))
  }

  /** A read-only open of an existing zero-filled file faults: its header 0/0/0 needs repair. */
  lemma ReadOnlyZeroFileFaults(capacity: nat)
    requires DEFAULT_HEADER_SIZE <= capacity < U64_LIMIT
    ensures MappedImage(false, Zeros(capacity)) == Failure(RepairFaults)
  {
    FreshFileHeader(capacity);
  }

  /**
   * The evidently intended constructor: only a writable mapping repairs the
   * header in the file; a read-only one keeps the bytes as they are.
   */
  function MappedImageCorrected(writable: bool, contents: seq<byte>): (r: seq<byte>)
    requires DEFAULT_HEADER_SIZE <= |contents| < U64_LIMIT
    ensures |r| == |contents|
    ensures !writable ==> r == contents
    ensures writable ==> ReadHeader(r) == NormaliseHeader(ReadHeader(contents), |contents|)
    ensures r[DEFAULT_HEADER_SIZE..] == contents[DEFAULT_HEADER_SIZE..]
  {
    NormalisedImageHeader(contents);
    if writable then NormalisedImage(contents) else contents
  }

  /** The corrected constructor never faults and agrees with the source wherever the source does not fault. */
  lemma CorrectedAgrees(writable: bool, contents: seq<byte>)
    requires DEFAULT_HEADER_SIZE <= |contents| < U64_LIMIT
    ensures MappedImage(writable, contents).Success? ==> MappedImage(writable, contents).value == MappedImageCorrected(writable, contents)
  {
  }

  /** How `createWriter` sees its optional argument. */
  datatype WriterArg =
    | WriterNoOptions                          // absent, undefined or null
    | WriterOptions(debugChecks: Option<bool>) // an object; the truthiness of `debugChecks` if present
    | WriterBadOptions                         // anything else

  datatype StartCursorArg = StartAbsent | StartBigInt(value: int) | StartNotBigInt

  /** How `createIterator` sees its optional argument. */
  datatype IteratorArg =
    | IteratorNoOptions
    | IteratorOptions(startCursor: StartCursorArg)
    | IteratorBadOptions

  class ShmMapping {
    /** The mapped file; it stays allocated after `Close`, but `length` drops to 0. */
    const base: array<byte>
    const writable: bool
    const debugChecks: bool
    const headerSize: nat
    const dataOffset: nat
    var length: nat
    var closed: bool

    ghost predicate Valid()
      reads this
    {
      && DEFAULT_HEADER_SIZE <= base.Length < U64_LIMIT
      && 0 < headerSize <= base.Length
      && 0 < dataOffset <= base.Length
      && length == (if closed then 0 else base.Length)
    }

    /** Maps the bytes and repairs the header in place (addons/shm_mapping.cpp:196-220). */
    constructor (mapped: array<byte>, writable: bool, debugChecks: bool)
      requires DEFAULT_HEADER_SIZE <= mapped.Length < U64_LIMIT
      requires MappedImage(writable, mapped[..]).Success?
      modifies mapped
      ensures Valid() && !closed
      ensures base == mapped && this.writable == writable && this.debugChecks == debugChecks
      ensures mapped[..] == NormalisedImage(old(mapped[..])) == MappedImage(writable, old(mapped[..])).value
      ensures !writable ==> mapped[..] == old(mapped[..])
      ensures Header(headerSize, dataOffset, U64At(mapped[..], COMMITTED_AT))
           == NormaliseHeader(ReadHeader(old(mapped[..])), mapped.Length)
    {
      var hs, d, committed := NormaliseInPlace(mapped);
      base := mapped;
      this.writable := writable;
      this.debugChecks := debugChecks;
      headerSize := hs;
      dataOffset := d;
      length := mapped.Length;
      closed := false;
    }

    /** `EnsureOpen`: the mapping refuses work once closed (addons/shm_mapping.cpp:241-245). */
    function EnsureOpen(): (r: Outcome<MappingError>)
      reads this
      ensures r.Fail? <==> closed
      ensures r.Fail? ==> r.error == MappingClosed
    {
      if closed then Fail(MappingClosed) else Pass
    }

    /** `headerView`: a Buffer over exactly the first `headerSize` bytes. */
    function HeaderView(): (r: Result<View, MappingError>)
      reads this
      requires Valid()
      ensures r.Success? <==> !closed
      ensures r.Success? ==> r.value.start == 0 && r.value.length == headerSize
      ensures r.Success? ==> r.value.start + r.value.length <= length
    {
      if closed then Failure(MappingClosed) else Success(View(0, headerSize))
    }

    /** The committed size as the header currently holds it. */
    function LoadCommittedSize(): (v: nat)
      reads this, base
      requires Valid()
      ensures v < U64_LIMIT
      ensures v == ReadHeader(base[..]).committed
    {
      U64At(base[..], COMMITTED_AT)
    }

    /** Publishes a new committed size; the other header fields and the data stay. */
    method StoreCommittedSize(value: nat)
      requires Valid() && value < U64_LIMIT
      modifies base
      ensures base[..] == WriteLE(old(base[..]), COMMITTED_AT, value, 8)
      ensures ReadHeader(base[..]) == old(ReadHeader(base[..])).(committed := value)
      ensures base[DEFAULT_HEADER_SIZE..] == old(base[DEFAULT_HEADER_SIZE..])
    {
      ghost var m0 := base[..];
      WriteUint64LE(base, COMMITTED_AT, value);
      StoreCommittedHeader(m0, value);
    }

    /** `createWriter`'s checks, giving the writer's `debugChecks` (addons/shm_mapping.cpp:289-307). */
    function WriterSettings(arg: WriterArg): (r: Result<bool, MappingError>)
      reads this
      ensures closed ==> r == Failure(MappingClosed)
      ensures !closed && !writable ==> r == Failure(ReadOnly)
      ensures r.Success? <==> !closed && writable && !arg.WriterBadOptions?
      ensures r.Success? && arg.WriterOptions? && arg.debugChecks.Some? ==> r.value == arg.debugChecks.value
      ensures r.Success? && !(arg.WriterOptions? && arg.debugChecks.Some?) ==> r.value == debugChecks
    {
      if closed then Failure(MappingClosed)
      else if !writable then Failure(ReadOnly)
      else match arg
        case WriterNoOptions => Success(debugChecks)
        case WriterOptions(d) => Success(if d.Some? then d.value else debugChecks)
        case WriterBadOptions => Failure(WriterOptionsNotObject)
    }

    /** `createIterator`'s checks, giving the start cursor (addons/shm_mapping.cpp:253-276). */
    function IteratorStart(arg: IteratorArg): (r: Result<nat, MappingError>)
      reads this
      ensures closed ==> r == Failure(MappingClosed)
      ensures r.Success? ==> !closed && r.value < U64_LIMIT
      ensures !closed && (arg.IteratorNoOptions? || arg == IteratorOptions(StartAbsent)) ==> r == Success(0)
      ensures !closed && arg.IteratorOptions? && arg.startCursor.StartBigInt? ==>
        (r.Success? <==> 0 <= arg.startCursor.value < U64_LIMIT)
      ensures r.Success? && arg.IteratorOptions? && arg.startCursor.StartBigInt? ==>
        r.value == arg.startCursor.value
      ensures arg.IteratorBadOptions? || (arg.IteratorOptions? && arg.startCursor.StartNotBigInt?) ==> r.Failure?
    {
      if closed then Failure(MappingClosed)
      else match arg
        case IteratorNoOptions => Success(0)
        case IteratorBadOptions => Failure(IteratorOptionsNotObject)
        case IteratorOptions(start) =>
          match start
          case StartAbsent => Success(0)
          case StartNotBigInt => Failure(StartCursorNotBigInt)
          case StartBigInt(v) => if 0 <= v < U64_LIMIT then Success(v as nat) else Failure(StartCursorNotU64)
    }

    /** `close` / `Cleanup`: unmaps once; a second call does nothing (addons/shm_mapping.cpp:320-345). */
    method Close()
      requires Valid()
      modifies this`closed, this`length
      ensures Valid() && closed && length == 0
      ensures old(closed) ==> length == old(length)
    {
      if closed {
        return;
      }
      closed := true;
      length := 0;
    }
  }

  /**
   * The constructor's normalisation of the mapped bytes: each header field
   * is read, and replaced by its fallback when out of range.
   */
  method NormaliseInPlace(mapped: array<byte>) returns (hs: nat, d: nat, committed: nat)
    requires DEFAULT_HEADER_SIZE <= mapped.Length < U64_LIMIT
    modifies mapped
    ensures Header(hs, d, committed) == NormaliseHeader(ReadHeader(old(mapped[..])), mapped.Length)
    ensures mapped[..] == NormalisedImage(old(mapped[..]))
    ensures ReadHeader(mapped[..]) == Header(hs, d, committed)
  {
    ghost var m0 := mapped[..];
    var len := mapped.Length;

    hs := ReadUint64LE(mapped, HEADER_SIZE_AT);
    hs := RepairField(mapped, HEADER_SIZE_AT, hs, hs == 0 || hs > len, DEFAULT_HEADER_SIZE);
    ghost var m1 := mapped[..];

    d := ReadUint64LE(mapped, DATA_OFFSET_AT);
    WriteLEElsewhere(m0, 0, hs, 8, 8, 16);
    d := RepairField(mapped, DATA_OFFSET_AT, d, d == 0 || d > len, hs);

    committed := ReadUint64LE(mapped, COMMITTED_AT);
    WriteLEElsewhere(m0, 0, hs, 8, 16, 24);
    WriteLEElsewhere(m1, 8, d, 8, 16, 24);
    committed := RepairField(mapped, COMMITTED_AT, committed, committed < d || committed > len, d);

    assert Header(hs, d, committed) == NormaliseHeader(ReadHeader(m0), len);
    HeaderRoundTrip(m0, Header(hs, d, committed));
  }

  /** Replaces one u64 header field by `fallback` when `replace` holds. */
  method RepairField(data: array<byte>, at: nat, current: nat, replace: bool, fallback: nat) returns (v: nat)
    requires at + 8 <= data.Length && current == U64At(data[..], at) && fallback < U64_LIMIT
    modifies data
    ensures v == (if replace then fallback else current)
    ensures data[..] == WriteLE(old(data[..]), at, v, 8)
  {
    if replace {
      v := fallback;
      WriteUint64LE(data, at, v);
    } else {
      v := current;
      WriteLESameValue(data[..], at, 8);
    }
  }

  /**
   * `openSharedLog`: validates the options, opens or creates the file and
   * builds a mapping over its bytes with a normalised header.
   */
  method OpenSharedLog(arg: OpenArg, file: FileState) returns (r: Result<ShmMapping, MappingError>)
    requires CapacityConverted(arg)
    requires file.Existing? ==> |file.contents| < U64_LIMIT
    ensures ParseOpenOptions(arg).Failure? ==> r == Failure(ParseOpenOptions(arg).error)
    ensures ParseOpenOptions(arg).Success? && OpenFile(file, ParseOpenOptions(arg).value).Failure? ==>
      r == Failure(OpenFile(file, ParseOpenOptions(arg).value).error)
    ensures ParseOpenOptions(arg).Success? && OpenFile(file, ParseOpenOptions(arg).value).Success? ==>
      var cfg := ParseOpenOptions(arg).value;
      var image := MappedImage(cfg.writable, OpenFile(file, cfg).value);
      && (r.Success? <==> image.Success?)
      && (image.Failure? ==> r == Failure(RepairFaults))
    ensures r.Success? ==>
      && ParseOpenOptions(arg).Success?
      && var cfg := ParseOpenOptions(arg).value;
      && OpenFile(file, cfg).Success?
      && MappedImage(cfg.writable, OpenFile(file, cfg).value).Success?
      && fresh(r.value) && fresh(r.value.base)
      && r.value.Valid() && !r.value.closed
      && r.value.writable == cfg.writable && r.value.debugChecks == cfg.debugChecks
      && r.value.base[..] == NormalisedImage(OpenFile(file, cfg).value)
  {
    var cfg :- ParseOpenOptions(arg);
    var contents :- OpenFile(file, cfg);
    var mapped := new byte[|contents|](i requires 0 <= i < |contents| => contents[i]);
    assert mapped[..] == contents;
    if !cfg.writable && !WellFormedHeader(ReadHeader(contents), |contents|) {
      return Failure(RepairFaults);
    }
    var m := new ShmMapping(mapped, cfg.writable, cfg.debugChecks);
    return Success(m);
  }
}

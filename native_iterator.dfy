/**
 * The native iterator (`ShmIterator`): reads committed frames out of the
 * mapping from a cursor that is relative to the data offset.
 *
 * Every error it raises carries one of the four `ERR_SHM_*` codes and stops
 * the call before the cursor moves.
 */
module NativeIterator {
  import opened Wrappers
  import opened Bytes
  import opened FrameCodec
  import opened NativeTypes
  import opened NativeMapping

  /** Limits of one batch; both limits lie in 1 .. 2^32-1 once parsed. */
  datatype BatchOptions = BatchOptions(maxMessages: nat, maxBytes: nat, debugChecks: bool)

  /** The payload views of a batch and the bytes the cursor moves past. */
  datatype Batch = Batch(frames: seq<View>, consumed: nat)

  const DEFAULT_OPTIONS: BatchOptions := BatchOptions(DEFAULT_MAX_MESSAGES, DEFAULT_MAX_BYTES, false)
  /** What `next` collects with: one frame, no byte bound beyond u32, no checks. */
  const NEXT_OPTIONS: BatchOptions := BatchOptions(1, U32_LIMIT - 1, false)

  /** A batch limit: a number in 1 .. 2^32-1, or the default when absent. */
  function ParseLimit(props: map<string, JsValue>, name: string, default: nat): (r: Result<nat, ErrorCode>)
    ensures r.Success? <==> name !in props || (props[name].Number? && 0 < props[name].n < U32_LIMIT)
    ensures r.Success? ==> r.value == (if name in props then props[name].n else default)
    ensures r.Failure? ==> r.error == CursorInvalid
  {
    if name !in props then Success(default)
    else match props[name]
      case Number(n) => if 0 < n < U32_LIMIT then Success(n as nat) else Failure(CursorInvalid)
      case _ => Failure(CursorInvalid)
  }

  /** `ParseOptions`: validates the properties of a `nextBatch` options object. */
  function ParseOptions(props: map<string, JsValue>): (r: Result<BatchOptions, ErrorCode>)
    ensures r.Success? <==>
      && ParseLimit(props, "maxMessages", DEFAULT_MAX_MESSAGES).Success?
      && ParseLimit(props, "maxBytes", DEFAULT_MAX_BYTES).Success?
      && ("debugChecks" in props ==> props["debugChecks"].Boolean?)
    ensures r.Success? ==>
      && 0 < r.value.maxMessages < U32_LIMIT && 0 < r.value.maxBytes < U32_LIMIT
      && r.value.maxMessages == ParseLimit(props, "maxMessages", DEFAULT_MAX_MESSAGES).value
      && r.value.maxBytes == ParseLimit(props, "maxBytes", DEFAULT_MAX_BYTES).value
      && r.value.debugChecks == ("debugChecks" in props && props["debugChecks"].b)
    ensures r.Failure? ==> r.error == CursorInvalid
  {
    var maxMessages :- ParseLimit(props, "maxMessages", DEFAULT_MAX_MESSAGES);
    var maxBytes :- ParseLimit(props, "maxBytes", DEFAULT_MAX_BYTES);
    if "debugChecks" !in props then Success(BatchOptions(maxMessages, maxBytes, false))
    else match props["debugChecks"]
      case Boolean(b) => Success(BatchOptions(maxMessages, maxBytes, b))
      case _ => Failure(CursorInvalid)
  }

  /** An empty options object gives the defaults, 64 frames and 256 KiB. */
  lemma ParseOptionsDefaults()
    ensures ParseOptions(map[]) == Success(DEFAULT_OPTIONS)
    ensures DEFAULT_OPTIONS.maxMessages == 64 && DEFAULT_OPTIONS.maxBytes == 262144
  {
  }

  /** `nextBatch`'s argument: an object is parsed, undefined or null mean defaults, anything else fails. */
  function BatchArgument(arg: JsValue): (r: Result<BatchOptions, ErrorCode>)
    ensures arg.Undefined? || arg.Null? ==> r == Success(DEFAULT_OPTIONS)
    ensures arg.Object? ==> r == ParseOptions(arg.props)
    ensures !(arg.Undefined? || arg.Null? || arg.Object?) ==> r == Failure(CursorInvalid)
  {
    match arg
    case Undefined => Success(DEFAULT_OPTIONS)
    case Null => Success(DEFAULT_OPTIONS)
    case Object(props) => ParseOptions(props)
    case _ => Failure(CursorInvalid)
  }

  /** The bytes the frames of a batch cover, 4 metadata bytes each included. */
  function BatchBytes(frames: seq<View>): nat
  {
    if frames == [] then 0 else frames[0].length + FRAME_METADATA_BYTES + BatchBytes(frames[1..])
  }

  /**
   * `frames` are consecutive frames of `mem` from `at` on: each payload view
   * sits just past a prefix that holds its frame size, and, when
   * `checkSuffix`, just before a suffix that repeats it.
   */
  ghost predicate FramesAt(mem: seq<byte>, at: nat, frames: seq<View>, checkSuffix: bool)
    decreases |frames|
  {
    frames == [] ||
    var f := frames[0];
    && f.start == at + LENGTH_FIELD_BYTES
    && f.start + f.length + LENGTH_FIELD_BYTES <= |mem|
    && U16At(mem, at) == f.length + FRAME_METADATA_BYTES
    && (checkSuffix ==> U16At(mem, f.start + f.length) == f.length + FRAME_METADATA_BYTES)
    && FramesAt(mem, at + f.length + FRAME_METADATA_BYTES, frames[1..], checkSuffix)
  }

  /** What the loop of `CollectFrames` does with the frame at relative position `pos`. */
  datatype Step = Stop | Halt(code: ErrorCode) | Take(size: nat)

  /**
   * One iteration of the loop: `len` is the iterator's mapping length, `d`
   * the data offset, `rel` the committed size relative to `d`, `acc` the
   * bytes and `count` the frames collected so far.
   */
  function NextStep(mem: seq<byte>, len: nat, d: nat, rel: nat, opts: BatchOptions,
                    acc: nat, pos: nat, count: nat): (s: Step)
    requires len <= |mem|
    ensures s.Take? ==>
      && pos < rel && count < opts.maxMessages
      && FRAME_METADATA_BYTES <= s.size && pos + s.size <= rel && d + pos + s.size <= len
      && acc + s.size <= opts.maxBytes
      && U16At(mem, d + pos) == s.size
      && (opts.debugChecks ==> U16At(mem, d + pos + s.size - LENGTH_FIELD_BYTES) == s.size)
  {
    if !(pos < rel && count < opts.maxMessages) then Stop
    else
      var abs := d + pos;
      if abs + FRAME_METADATA_BYTES > d + rel then Stop
      else if abs + FRAME_METADATA_BYTES > len then Halt(MappingGone)
      else
        var size := U16At(mem, abs);
        if size < FRAME_METADATA_BYTES then Halt(if opts.debugChecks then FrameCorrupt else CursorInvalid)
        else if pos + size > rel then Stop
        else if abs + size > len then Halt(MappingGone)
        else if acc + size > opts.maxBytes then Stop
        else if opts.debugChecks && U16At(mem, abs + size - LENGTH_FIELD_BYTES) != size then Halt(FrameCorrupt)
        else Take(size)
  }

  /**
   * The rest of the loop of `CollectFrames` from relative position `pos`,
   * with `acc` bytes and `count` frames already collected: the frames it
   * still takes and the bytes they cover.
   */
  function Scan(mem: seq<byte>, len: nat, d: nat, rel: nat, opts: BatchOptions,
                acc: nat, pos: nat, count: nat): (r: Result<Batch, ErrorCode>)
    requires len <= |mem|
    decreases rel - pos
  {
    match NextStep(mem, len, d, rel, opts, acc, pos, count)
    case Stop => Success(Batch([], 0))
    case Halt(code) => Failure(code)
    case Take(size) =>
      match Scan(mem, len, d, rel, opts, acc + size, pos + size, count + 1)
      case Failure(code) => Failure(code)
      case Success(rest) =>
        Success(Batch([View(d + pos + LENGTH_FIELD_BYTES, size - FRAME_METADATA_BYTES)] + rest.frames,
                      size + rest.consumed))
  }

  /**
   * One batch read from relative cursor `cursor` of a mapping whose header
   * holds `committed`: the checks before the loop, then the loop.
   */
  function Collect(mem: seq<byte>, len: nat, d: nat, committed: nat, cursor: nat, opts: BatchOptions): (r: Result<Batch, ErrorCode>)
    requires len <= |mem|
    ensures committed < d ==> r == Failure(CursorInvalid)
    ensures committed >= d && cursor > committed - d ==> r == Failure(CursorInvalid)
    ensures r.Success? ==> cursor + r.value.consumed <= committed - d
  {
    if committed < d then Failure(CursorInvalid)
    else
      var rel := committed - d;
      if cursor > rel then Failure(CursorInvalid)
      else if d + cursor > len then Failure(MappingGone)
      else
        var r := Scan(mem, len, d, rel, opts, 0, cursor, 0);
        assert r.Success? ==> cursor + r.value.consumed <= rel by {
          if r.Success? {
            ScanFacts(mem, len, d, rel, opts, 0, cursor, 0);
          }
        }
        r
  }

  /** Unfolds one taken step of the loop. */
  lemma ScanTake(mem: seq<byte>, len: nat, d: nat, rel: nat, opts: BatchOptions,
                 acc: nat, pos: nat, count: nat, size: nat)
    requires len <= |mem|
    requires NextStep(mem, len, d, rel, opts, acc, pos, count) == Take(size)
    ensures Scan(mem, len, d, rel, opts, acc, pos, count)
         == match Scan(mem, len, d, rel, opts, acc + size, pos + size, count + 1)
            case Failure(code) => Failure(code)
            case Success(rest) =>
              Success(Batch([View(d + pos + LENGTH_FIELD_BYTES, size - FRAME_METADATA_BYTES)] + rest.frames,
                            size + rest.consumed))
  {
  }

  /**
   * What every successful loop run delivers: within the message and byte
   * budgets and within the committed size, and `consumed` is exactly the
   * bytes its frames cover.
   */
  lemma {:induction false} ScanFacts(mem: seq<byte>, len: nat, d: nat, rel: nat, opts: BatchOptions,
                                     acc: nat, pos: nat, count: nat)
    requires len <= |mem| && pos <= rel && count <= opts.maxMessages && acc <= opts.maxBytes
    requires Scan(mem, len, d, rel, opts, acc, pos, count).Success?
    ensures var b := Scan(mem, len, d, rel, opts, acc, pos, count).value;
      && BatchBytes(b.frames) == b.consumed
      && count + |b.frames| <= opts.maxMessages
      && acc + b.consumed <= opts.maxBytes
      && pos + b.consumed <= rel
    decreases rel - pos
  {
    var step := NextStep(mem, len, d, rel, opts, acc, pos, count);
    if step.Take? {
      var size := step.size;
      ScanTake(mem, len, d, rel, opts, acc, pos, count, size);
      ScanFacts(mem, len, d, rel, opts, acc + size, pos + size, count + 1);
      var rest := Scan(mem, len, d, rel, opts, acc + size, pos + size, count + 1).value;
      var v := View(d + pos + LENGTH_FIELD_BYTES, size - FRAME_METADATA_BYTES);
      assert ([v] + rest.frames)[1..] == rest.frames;
    }
  }

  /** The frames of a loop run are whole frames laid end to end from `pos` on, suffix-checked under debug checks. */
  lemma {:induction false} ScanFrames(mem: seq<byte>, len: nat, d: nat, rel: nat, opts: BatchOptions,
                                      acc: nat, pos: nat, count: nat)
    requires len <= |mem|
    requires Scan(mem, len, d, rel, opts, acc, pos, count).Success?
    ensures FramesAt(mem, d + pos, Scan(mem, len, d, rel, opts, acc, pos, count).value.frames, opts.debugChecks)
    decreases rel - pos
  {
    var step := NextStep(mem, len, d, rel, opts, acc, pos, count);
    if step.Take? {
      var size := step.size;
      ScanTake(mem, len, d, rel, opts, acc, pos, count, size);
      ScanFrames(mem, len, d, rel, opts, acc + size, pos + size, count + 1);
      var rest := Scan(mem, len, d, rel, opts, acc + size, pos + size, count + 1).value;
      var v := View(d + pos + LENGTH_FIELD_BYTES, size - FRAME_METADATA_BYTES);
      assert ([v] + rest.frames)[1..] == rest.frames;
    }
  }

  /** The loop ends where a step stops or halts. */
  lemma ScanEnds(mem: seq<byte>, len: nat, d: nat, rel: nat, opts: BatchOptions,
                 acc: nat, pos: nat, count: nat)
    requires len <= |mem|
    ensures NextStep(mem, len, d, rel, opts, acc, pos, count) == Stop ==>
      Scan(mem, len, d, rel, opts, acc, pos, count) == Success(Batch([], 0))
    ensures NextStep(mem, len, d, rel, opts, acc, pos, count).Halt? ==>
      Scan(mem, len, d, rel, opts, acc, pos, count) == Failure(NextStep(mem, len, d, rel, opts, acc, pos, count).code)
  {
  }

  /** The loop stops once the committed size or the message budget is reached. */
  lemma ScanDone(mem: seq<byte>, len: nat, d: nat, rel: nat, opts: BatchOptions,
                 acc: nat, pos: nat, count: nat)
    requires len <= |mem| && !(pos < rel && count < opts.maxMessages)
    ensures Scan(mem, len, d, rel, opts, acc, pos, count) == Success(Batch([], 0))
  {
  }

  /** Past the checks before the loop, a batch is what the loop collects. */
  lemma CollectScans(mem: seq<byte>, len: nat, d: nat, committed: nat, cursor: nat, opts: BatchOptions)
    requires len <= |mem| && d <= committed && cursor <= committed - d && d + cursor <= len
    ensures Collect(mem, len, d, committed, cursor, opts) == Scan(mem, len, d, committed - d, opts, 0, cursor, 0)
  {
  }

  /** A whole, committed frame within both budgets is taken. */
  lemma TakeWhole(mem: seq<byte>, len: nat, d: nat, rel: nat, opts: BatchOptions,
                  acc: nat, pos: nat, count: nat, size: nat)
    requires len <= |mem| && pos < rel && count < opts.maxMessages
    requires FRAME_METADATA_BYTES <= size && pos + size <= rel && d + pos + size <= len
    requires acc + size <= opts.maxBytes
    requires U16At(mem, d + pos) == size
    requires opts.debugChecks ==> U16At(mem, d + pos + size - LENGTH_FIELD_BYTES) == size
    ensures NextStep(mem, len, d, rel, opts, acc, pos, count) == Take(size)
  {
  }

  /**
   * What `CollectFrames` returns once it holds `frames` covering `consumed`
   * bytes and the rest of the loop gives `rest`.
   */
  function Then(frames: seq<View>, consumed: nat, rest: Result<Batch, ErrorCode>): Result<Batch, ErrorCode>
  {
    match rest
    case Failure(code) => Failure(code)
    case Success(b) => Success(Batch(frames + b.frames, consumed + b.consumed))
  }

  lemma ThenNothing(r: Result<Batch, ErrorCode>)
    ensures Then([], 0, r) == r
  {
    if r.Success? {
      assert [] + r.value.frames == r.value.frames;
    }
  }

  lemma ThenDone(frames: seq<View>, consumed: nat)
    ensures Then(frames, consumed, Success(Batch([], 0))) == Success(Batch(frames, consumed))
  {
    assert frames + [] == frames;
  }

  /**
   * Taking the frame at relative position `pos` moves it from the rest of
   * the loop to what is held: `frames'`, `acc'`, `pos'` and `count'` are the
   * loop's variables after that turn.
   */
  lemma ThenTake(mem: seq<byte>, len: nat, d: nat, rel: nat, opts: BatchOptions, size: nat,
                 frames: seq<View>, acc: nat, pos: nat, count: nat,
                 frames': seq<View>, acc': nat, pos': nat, count': nat)
    requires len <= |mem|
    requires NextStep(mem, len, d, rel, opts, acc, pos, count) == Take(size)
    requires frames' == frames + [View(d + pos + LENGTH_FIELD_BYTES, size - FRAME_METADATA_BYTES)]
    requires acc' == acc + size && pos' == pos + size && count' == count + 1
    ensures Then(frames, acc, Scan(mem, len, d, rel, opts, acc, pos, count))
         == Then(frames', acc', Scan(mem, len, d, rel, opts, acc', pos', count'))
  {
    ScanTake(mem, len, d, rel, opts, acc, pos, count, size);
    var v := View(d + pos + LENGTH_FIELD_BYTES, size - FRAME_METADATA_BYTES);
    var next := Scan(mem, len, d, rel, opts, acc', pos', count');
    if next.Success? {
      assert frames + ([v] + next.value.frames) == frames + [v] + next.value.frames;
    }
  }

  /** A batch that starts at the committed size is empty. */
  lemma CollectAtEnd(mem: seq<byte>, len: nat, d: nat, committed: nat, opts: BatchOptions)
    requires len <= |mem| && d <= committed && committed <= len
    ensures Collect(mem, len, d, committed, committed - d, opts) == Success(Batch([], 0))
  {
  }

  /** A first frame bigger than `maxBytes` yields an empty batch, not an error. */
  lemma CollectFirstFrameTooLarge(mem: seq<byte>, len: nat, d: nat, committed: nat, cursor: nat, opts: BatchOptions)
    requires len <= |mem| && d + cursor + FRAME_METADATA_BYTES <= committed <= len
    requires d + cursor + U16At(mem, d + cursor) <= committed
    requires opts.maxMessages > 0
    requires FRAME_METADATA_BYTES <= U16At(mem, d + cursor) && U16At(mem, d + cursor) > opts.maxBytes
    ensures Collect(mem, len, d, committed, cursor, opts) == Success(Batch([], 0))
  {
  }

  /** Fewer than 4 committed bytes past the cursor, or a frame not yet fully committed: an empty batch. */
  lemma CollectPartialFrame(mem: seq<byte>, len: nat, d: nat, committed: nat, cursor: nat, opts: BatchOptions)
    requires len <= |mem| && d + cursor <= committed && d + cursor <= len
    requires d + cursor + FRAME_METADATA_BYTES > committed ||
             (d + cursor + FRAME_METADATA_BYTES <= len && FRAME_METADATA_BYTES <= U16At(mem, d + cursor)
              && d + cursor + U16At(mem, d + cursor) > committed)
    ensures Collect(mem, len, d, committed, cursor, opts) == Success(Batch([], 0))
  {
  }

  /** The payload views of the frames of `payloads` laid down from `at` on. */
  function PayloadViews(payloads: seq<seq<byte>>, at: nat): (vs: seq<View>)
    ensures |vs| == |payloads|
  {
    if payloads == [] then []
    else [View(at + LENGTH_FIELD_BYTES, |payloads[0]|)] + PayloadViews(payloads[1..], at + |payloads[0]| + FRAME_METADATA_BYTES)
  }

  /** The bytes a view shows. */
  function ViewBytes(mem: seq<byte>, v: View): seq<byte>
    requires v.start + v.length <= |mem|
  {
    mem[v.start..v.start + v.length]
  }

  predicate PayloadsFit(payloads: seq<seq<byte>>)
  {
    forall i :: 0 <= i < |payloads| ==> |payloads[i]| <= U16_LIMIT - 1 - FRAME_METADATA_BYTES
  }

  /** Each view of an encoded log shows exactly the payload written there. */
  lemma {:induction false} PayloadViewsShow(mem: seq<byte>, at: nat, payloads: seq<seq<byte>>)
    requires at + |EncodeLog(payloads)| <= |mem|
    requires mem[at..at + |EncodeLog(payloads)|] == EncodeLog(payloads)
    ensures forall i :: 0 <= i < |payloads| ==>
      PayloadViews(payloads, at)[i].start + PayloadViews(payloads, at)[i].length <= |mem| &&
      ViewBytes(mem, PayloadViews(payloads, at)[i]) == payloads[i]
    decreases |payloads|
  {
    if payloads != [] {
      LogHead(mem, at, payloads);
      FrameFields(mem, at, payloads[0]);
      var next := at + |payloads[0]| + FRAME_METADATA_BYTES;
      PayloadViewsShow(mem, next, payloads[1..]);
      var vs := PayloadViews(payloads, at);
      forall i | 0 <= i < |payloads|
        ensures vs[i].start + vs[i].length <= |mem| && ViewBytes(mem, vs[i]) == payloads[i]
      {
        if i > 0 {
          assert vs[i] == PayloadViews(payloads[1..], next)[i - 1];
          assert payloads[i] == payloads[1..][i - 1];
        }
      }
    }
  }

  /**
   * The size fields of a log of `payloads` laid down from `at` on: each
   * frame's prefix and suffix hold its size.
   */
  ghost predicate SizesAt(mem: seq<byte>, at: nat, payloads: seq<seq<byte>>)
    decreases |payloads|
  {
    payloads == [] ||
    var n := |payloads[0]| + FRAME_METADATA_BYTES;
    && at + n <= |mem|
    && U16At(mem, at) == n && U16At(mem, at + n - LENGTH_FIELD_BYTES) == n
    && SizesAt(mem, at + n, payloads[1..])
  }

  /** An encoded log of fitting payloads has the size fields of its frames. */
  lemma {:induction false} EncodedSizes(mem: seq<byte>, at: nat, payloads: seq<seq<byte>>)
    requires PayloadsFit(payloads)
    requires at + |EncodeLog(payloads)| <= |mem|
    requires mem[at..at + |EncodeLog(payloads)|] == EncodeLog(payloads)
    ensures SizesAt(mem, at, payloads)
    decreases |payloads|
  {
    if payloads != [] {
      LogHead(mem, at, payloads);
      FrameFields(mem, at, payloads[0]);
      assert |payloads[0]| <= U16_LIMIT - 1 - FRAME_METADATA_BYTES;
      assert PayloadsFit(payloads[1..]) by {
        forall i | 0 <= i < |payloads[1..]|
          ensures |payloads[1..][i]| <= U16_LIMIT - 1 - FRAME_METADATA_BYTES
        {
          assert payloads[1..][i] == payloads[i + 1];
        }
      }
      EncodedSizes(mem, at + |payloads[0]| + FRAME_METADATA_BYTES, payloads[1..]);
    }
  }

  /**
   * The loop over a log whose size fields are in place, that is committed
   * up to its end and that fits the budgets, collects one view per payload,
   * in order, and consumes the log.
   */
  lemma {:induction false} ScanEncodedLog(mem: seq<byte>, len: nat, d: nat, rel: nat, opts: BatchOptions,
                                          acc: nat, pos: nat, count: nat, payloads: seq<seq<byte>>)
    requires len <= |mem|
    requires SizesAt(mem, d + pos, payloads) && d + pos + LogSize(payloads) <= len
    requires rel == pos + LogSize(payloads)
    requires count + |payloads| <= opts.maxMessages
    requires acc + LogSize(payloads) <= opts.maxBytes
    ensures Scan(mem, len, d, rel, opts, acc, pos, count)
         == Success(Batch(PayloadViews(payloads, d + pos), LogSize(payloads)))
    decreases |payloads|
  {
    if payloads != [] {
      var n := |payloads[0]| + FRAME_METADATA_BYTES;
      TakeWhole(mem, len, d, rel, opts, acc, pos, count, n);
      ScanTake(mem, len, d, rel, opts, acc, pos, count, n);
      ScanEncodedLog(mem, len, d, rel, opts, acc + n, pos + n, count + 1, payloads[1..]);
    } else {
      ScanDone(mem, len, d, rel, opts, acc, pos, count);
    }
  }

  /**
   * Read-back: when the committed bytes after the cursor are the frames of
   * `payloads` and the budgets allow them all, one batch returns one view
   * per payload, in write order, each showing that payload byte-for-byte,
   * and moves the cursor to the committed size.
   */
  lemma ReadBack(mem: seq<byte>, len: nat, d: nat, cursor: nat, payloads: seq<seq<byte>>, opts: BatchOptions)
    requires len <= |mem| && PayloadsFit(payloads)
    requires d + cursor + |EncodeLog(payloads)| <= len
    requires mem[d + cursor..d + cursor + |EncodeLog(payloads)|] == EncodeLog(payloads)
    requires |payloads| <= opts.maxMessages && |EncodeLog(payloads)| <= opts.maxBytes
    ensures Collect(mem, len, d, d + cursor + |EncodeLog(payloads)|, cursor, opts)
         == Success(Batch(PayloadViews(payloads, d + cursor), |EncodeLog(payloads)|))
    ensures forall i :: 0 <= i < |payloads| ==>
      PayloadViews(payloads, d + cursor)[i].start + PayloadViews(payloads, d + cursor)[i].length <= |mem| &&
      ViewBytes(mem, PayloadViews(payloads, d + cursor)[i]) == payloads[i]
  {
    EncodeLogSize(payloads);
    EncodedSizes(mem, d + cursor, payloads);
    CollectScans(mem, len, d, d + cursor + LogSize(payloads), cursor, opts);
    ScanEncodedLog(mem, len, d, cursor + LogSize(payloads), opts, 0, cursor, 0, payloads);
    PayloadViewsShow(mem, d + cursor, payloads);
  }

  class ShmIterator {
    /** The bytes it reads: the mapping of its `ShmMapping`, or a Buffer. */
    const base: array<byte>
    const headerSize: nat
    const dataOffset: nat
    var mappingLength: nat
    /** Position relative to `dataOffset`. */
    var cursor: nat
    var closed: bool

    ghost predicate Valid()
      reads this
    {
      DEFAULT_HEADER_SIZE <= base.Length && mappingLength <= base.Length && (closed ==> mappingLength == 0)
    }

    constructor (base: array<byte>, mappingLength: nat, headerSize: nat, dataOffset: nat, cursor: nat)
      requires DEFAULT_HEADER_SIZE <= base.Length && mappingLength <= base.Length
      ensures Valid() && !closed
      ensures this.base == base && this.mappingLength == mappingLength
      ensures this.headerSize == headerSize && this.dataOffset == dataOffset && this.cursor == cursor
    {
      this.base := base;
      this.mappingLength := mappingLength;
      this.headerSize := headerSize;
      this.dataOffset := dataOffset;
      this.cursor := cursor;
      closed := false;
    }

    function LoadCommittedSize(): (v: nat)
      reads this, base
      requires Valid()
      ensures v == ReadHeader(base[..]).committed
    {
      U64At(base[..], COMMITTED_AT)
    }

    /** What one batch with `opts` would return now. */
    function BatchNow(opts: BatchOptions): Result<Batch, ErrorCode>
      reads this, base
      requires Valid()
    {
      Collect(base[..], mappingLength, dataOffset, LoadCommittedSize(), cursor, opts)
    }

    /** `EnsureOpen`: everything but `close` fails on a closed iterator. */
    function EnsureOpen(): (r: Outcome<ErrorCode>)
      reads this
      ensures r.Fail? <==> closed
      ensures r.Fail? ==> r.error == IteratorClosed
    {
      if closed then Fail(IteratorClosed) else Pass
    }

    /**
     * One turn of `CollectFrames`' loop at relative position `pos` (absolute
     * `abs`), with `accumulated` bytes and `messages` frames collected.
     */
    method FrameStep(opts: BatchOptions, rel: nat, pos: nat, abs: nat, accumulated: nat, messages: nat)
      returns (s: Step)
      requires Valid() && abs == dataOffset + pos && pos < rel && messages < opts.maxMessages
      ensures s == NextStep(base[..], mappingLength, dataOffset, rel, opts, accumulated, pos, messages)
    {
      if abs + FRAME_METADATA_BYTES > dataOffset + rel {
        return Stop;
      }
      if abs + FRAME_METADATA_BYTES > mappingLength {
        return Halt(MappingGone);
      }
      var frameSize := ReadUint16LE(base, abs);
      if frameSize < FRAME_METADATA_BYTES {
        return Halt(if opts.debugChecks then FrameCorrupt else CursorInvalid);
      }
      var frameEndRelative := pos + frameSize;
      var frameEndAbsolute := abs + frameSize;
      if frameEndRelative > rel {
        return Stop;
      }
      if frameEndAbsolute > mappingLength {
        return Halt(MappingGone);
      }
      if accumulated + frameSize > opts.maxBytes {
        return Stop;
      }
      if opts.debugChecks {
        var suffix := ReadUint16LE(base, abs + frameSize - LENGTH_FIELD_BYTES);
        if suffix != frameSize {
          return Halt(FrameCorrupt);
        }
      }
      return Take(frameSize);
    }

    /** `CollectFrames`: the checks before the loop and the loop itself, reading the mapping. */
    method CollectFrames(opts: BatchOptions) returns (r: Result<Batch, ErrorCode>)
      requires Valid()
      ensures r == BatchNow(opts)
    {
      var committed := ReadUint64LE(base, COMMITTED_AT);
      if committed < dataOffset {
        return Failure(CursorInvalid);
      }
      var rel := committed - dataOffset;
      if cursor > rel {
        return Failure(CursorInvalid);
      }
      if dataOffset + cursor > mappingLength {
        return Failure(MappingGone);
      }
      ghost var mem := base[..];
      ghost var batch := Scan(mem, mappingLength, dataOffset, rel, opts, 0, cursor, 0);
      CollectScans(mem, mappingLength, dataOffset, committed, cursor, opts);
      assert BatchNow(opts) == batch;
      ThenNothing(batch);
      var pos := cursor;
      var abs := dataOffset + cursor;
      var messages := 0;
      var accumulated := 0;
      var frames: seq<View> := [];
      while pos < rel && messages < opts.maxMessages
        invariant abs == dataOffset + pos
        invariant Then(frames, accumulated, Scan(mem, mappingLength, dataOffset, rel, opts, accumulated, pos, messages)) == batch
        decreases rel - pos
      {
        var step := FrameStep(opts, rel, pos, abs, accumulated, messages);
        match step
        case Stop =>
          ScanEnds(mem, mappingLength, dataOffset, rel, opts, accumulated, pos, messages);
          ThenDone(frames, accumulated);
          return Success(Batch(frames, accumulated));
        case Halt(code) =>
          ScanEnds(mem, mappingLength, dataOffset, rel, opts, accumulated, pos, messages);
          return Failure(code);
        case Take(frameSize) =>
          ghost var frames0, accumulated0, pos0, messages0 := frames, accumulated, pos, messages;
          frames := frames + [View(abs + LENGTH_FIELD_BYTES, frameSize - FRAME_METADATA_BYTES)];
          messages := messages + 1;
          accumulated := accumulated + frameSize;
          pos := pos + frameSize;
          abs := abs + frameSize;
          ThenTake(mem, mappingLength, dataOffset, rel, opts, frameSize,
                   frames0, accumulated0, pos0, messages0, frames, accumulated, pos, messages);
      }
      ScanDone(mem, mappingLength, dataOffset, rel, opts, accumulated, pos, messages);
      ThenDone(frames, accumulated);
      return Success(Batch(frames, accumulated));
    }

    /**
     * `next`: the next committed frame's payload, or `None` when there is
     * none yet; the cursor moves past exactly that frame.
     */
    method Next() returns (r: Result<Option<View>, ErrorCode>)
      requires Valid()
      modifies this`cursor
      ensures Valid()
      ensures closed ==> r == Failure(IteratorClosed) && cursor == old(cursor)
      ensures !closed ==> match old(BatchNow(NEXT_OPTIONS))
        case Failure(e) => r == Failure(e) && cursor == old(cursor)
        case Success(b) =>
          if b.frames == [] then r == Success(None) && cursor == old(cursor)
          else r == Success(Some(b.frames[0])) && cursor == old(cursor) + b.consumed
    {
      if closed {
        return Failure(IteratorClosed);
      }
      var result := CollectFrames(NEXT_OPTIONS);
      if result.Failure? {
        return Failure(result.error);
      }
      if result.value.frames == [] {
        return Success(None);
      }
      cursor := cursor + result.value.consumed;
      return Success(Some(result.value.frames[0]));
    }

    /** `nextBatch(options)`: up to the limits' worth of frames; the cursor moves past all of them. */
    method NextBatch(arg: JsValue) returns (r: Result<seq<View>, ErrorCode>)
      requires Valid()
      modifies this`cursor
      ensures Valid()
      ensures closed ==> r == Failure(IteratorClosed)
      ensures !closed && BatchArgument(arg).Failure? ==> r == Failure(BatchArgument(arg).error)
      ensures !closed && BatchArgument(arg).Success? ==> match old(BatchNow(BatchArgument(arg).value))
        case Failure(e) => r == Failure(e)
        case Success(b) => r == Success(b.frames) && cursor == old(cursor) + b.consumed
      ensures r.Failure? ==> cursor == old(cursor)
    {
      if closed {
        return Failure(IteratorClosed);
      }
      var options := BatchArgument(arg);
      if options.Failure? {
        return Failure(options.error);
      }
      var result := CollectFrames(options.value);
      if result.Failure? {
        return Failure(result.error);
      }
      cursor := cursor + result.value.consumed;
      return Success(result.value.frames);
    }

    /** `cursor()`: the position relative to the data offset. */
    function Cursor(): (r: Result<nat, ErrorCode>)
      reads this
      ensures r.Success? <==> !closed
      ensures r.Success? ==> r.value == cursor
      ensures r.Failure? ==> r.error == IteratorClosed
    {
      if closed then Failure(IteratorClosed) else Success(cursor)
    }

    /** `committedSize()`: the committed bytes past the data offset. */
    function CommittedSize(): (r: Result<nat, ErrorCode>)
      reads this, base
      requires Valid()
      ensures closed ==> r == Failure(IteratorClosed)
      ensures !closed ==> (r.Success? <==> LoadCommittedSize() >= dataOffset)
      ensures r.Success? ==> r.value + dataOffset == LoadCommittedSize()
      ensures r.Failure? && !closed ==> r.error == CursorInvalid
    {
      if closed then Failure(IteratorClosed)
      else
        var committed := LoadCommittedSize();
        if committed < dataOffset then Failure(CursorInvalid) else Success(committed - dataOffset)
    }

    /** `seek(position)`: jumps to any position up to the committed size; on error the cursor stays. */
    method Seek(arg: JsValue) returns (r: Outcome<ErrorCode>)
      requires Valid()
      modifies this`cursor
      ensures Valid()
      ensures closed ==> r == Fail(IteratorClosed)
      ensures !closed && !(arg.BigInt? && 0 <= arg.i < U64_LIMIT) ==> r == Fail(CursorInvalid)
      ensures !closed && arg.BigInt? && 0 <= arg.i < U64_LIMIT ==>
        (r.Pass? <==> LoadCommittedSize() >= dataOffset && arg.i <= LoadCommittedSize() - dataOffset)
      ensures r.Pass? ==> arg.BigInt? && cursor == arg.i
      ensures r.Fail? ==> cursor == old(cursor)
      ensures r.Fail? && !closed ==> r.error == CursorInvalid
    {
      if closed {
        return Fail(IteratorClosed);
      }
      if !arg.BigInt? || !(0 <= arg.i < U64_LIMIT) {
        return Fail(CursorInvalid);
      }
      var position: nat := arg.i;
      var committed := ReadUint64LE(base, COMMITTED_AT);
      if committed < dataOffset {
        return Fail(CursorInvalid);
      }
      if position > committed - dataOffset {
        return Fail(CursorInvalid);
      }
      cursor := position;
      return Pass;
    }

    /** `close`: drops the mapping once; closing again does nothing. */
    method Close()
      requires Valid()
      modifies this`closed, this`mappingLength
      ensures Valid() && closed && mappingLength == 0
      ensures EnsureOpen() == Fail(IteratorClosed)
    {
      if closed {
        return;
      }
      closed := true;
      mappingLength := 0;
    }
  }

  /** The committed size relative to the data offset, 0 when it does not lie past it. */
  function CommittedRelative(committed: nat, dataOffset: nat): (r: nat)
    ensures committed > dataOffset ==> r + dataOffset == committed
    ensures committed <= dataOffset ==> r == 0
  {
    if committed > dataOffset then committed - dataOffset else 0
  }

  /**
   * The constructor's path for an iterator made by `createIterator`: it
   * reads the mapping's own fields and accepts a start cursor up to the
   * committed size.
   */
  method FromMapping(m: ShmMapping, startCursor: nat) returns (r: Result<ShmIterator, ErrorCode>)
    requires m.Valid()
    ensures m.length < DEFAULT_HEADER_SIZE ==> r == Failure(MappingGone)
    ensures m.length >= DEFAULT_HEADER_SIZE ==>
      (r.Success? <==> startCursor <= CommittedRelative(m.LoadCommittedSize(), m.dataOffset))
    ensures r.Failure? && m.length >= DEFAULT_HEADER_SIZE ==> r.error == CursorInvalid
    ensures r.Success? ==>
      && fresh(r.value) && r.value.Valid() && !r.value.closed
      && r.value.base == m.base && r.value.mappingLength == m.length
      && r.value.headerSize == m.headerSize && r.value.dataOffset == m.dataOffset
      && r.value.cursor == startCursor
  {
    if m.length < DEFAULT_HEADER_SIZE {
      return Failure(MappingGone);
    }
    var committed := ReadUint64LE(m.base, COMMITTED_AT);
    var committedRelative := CommittedRelative(committed, m.dataOffset);
    if startCursor > committedRelative {
      return Failure(CursorInvalid);
    }
    var it := new ShmIterator(m.base, m.length, m.headerSize, m.dataOffset, startCursor);
    return Success(it);
  }

  datatype CreateError = Refused(cause: MappingError) | Thrown(code: ErrorCode)

  /** `createIterator(options)` on a mapping (addons/shm_mapping.cpp:253-287). */
  method CreateIterator(m: ShmMapping, arg: IteratorArg) returns (r: Result<ShmIterator, CreateError>)
    requires m.Valid()
    ensures m.IteratorStart(arg).Failure? ==> r == Failure(Refused(m.IteratorStart(arg).error))
    ensures m.IteratorStart(arg).Success? ==>
      && (r.Success? <==> m.IteratorStart(arg).value <= CommittedRelative(m.LoadCommittedSize(), m.dataOffset))
      && (r.Failure? ==> r == Failure(Thrown(CursorInvalid)))
    ensures r.Success? ==>
      && m.IteratorStart(arg).Success? && !m.closed
      && fresh(r.value) && r.value.Valid() && !r.value.closed
      && r.value.base == m.base && r.value.dataOffset == m.dataOffset
      && r.value.cursor == m.IteratorStart(arg).value
      && r.value.cursor <= CommittedRelative(m.LoadCommittedSize(), m.dataOffset)
  {
    var start := m.IteratorStart(arg);
    if start.Failure? {
      return Failure(Refused(start.error));
    }
    var it := FromMapping(m, start.value);
    if it.Failure? {
      return Failure(Thrown(it.error));
    }
    return Success(it.value);
  }

  /** The length argument of the Buffer path: a Number taken modulo 2^32, or a lossless BigInt. */
  function BufferLength(arg: JsValue): (r: Result<nat, ErrorCode>)
    ensures r.Success? <==> arg.Number? || (arg.BigInt? && 0 <= arg.i < U64_LIMIT)
    ensures r.Success? && arg.Number? ==> r.value == arg.n % U32_LIMIT
    ensures r.Success? && arg.BigInt? ==> r.value == arg.i
    ensures r.Failure? ==> r.error == CursorInvalid
  {
    match arg
    case Number(n) => Success(n % U32_LIMIT)
    case BigInt(i) => if 0 <= i < U64_LIMIT then Success(i as nat) else Failure(CursorInvalid)
    case _ => Failure(CursorInvalid)
  }

  /** The optional start cursor of the Buffer path: when passed at all it must be a lossless BigInt. */
  function BufferStart(arg: Option<JsValue>): (r: Result<nat, ErrorCode>)
    ensures arg.None? ==> r == Success(0)
    ensures arg.Some? ==> (r.Success? <==> arg.value.BigInt? && 0 <= arg.value.i < U64_LIMIT)
    ensures r.Success? && arg.Some? ==> r.value == arg.value.i
    ensures r.Failure? ==> r.error == CursorInvalid
  {
    match arg
    case None => Success(0)
    case Some(BigInt(i)) => if 0 <= i < U64_LIMIT then Success(i as nat) else Failure(CursorInvalid)
    case Some(_) => Failure(CursorInvalid)
  }

  /**
   * The constructor's path for a bare Buffer with an explicit length: the
   * header is read from the Buffer, not normalised; the data offset must lie
   * inside the length and the start cursor within the committed size.
   */
  method FromBuffer(buffer: array<byte>, lengthArg: JsValue, startArg: Option<JsValue>)
    returns (r: Result<ShmIterator, ErrorCode>)
    requires BufferLength(lengthArg).Success? ==> BufferLength(lengthArg).value <= buffer.Length
    ensures BufferLength(lengthArg).Failure? ==> r == Failure(CursorInvalid)
    ensures BufferLength(lengthArg).Success? && BufferLength(lengthArg).value < DEFAULT_HEADER_SIZE ==>
      r == Failure(MappingGone)
    ensures r.Success? ==>
      && var len := BufferLength(lengthArg).value;
      && var h := ReadHeader(old(buffer[..]));
      && DEFAULT_HEADER_SIZE <= len && h.dataOffset <= len
      && BufferStart(startArg).Success?
      && BufferStart(startArg).value <= CommittedRelative(h.committed, h.dataOffset)
      && fresh(r.value) && r.value.Valid() && !r.value.closed
      && r.value.base == buffer && r.value.mappingLength == len
      && r.value.headerSize == h.headerSize && r.value.dataOffset == h.dataOffset
      && r.value.cursor == BufferStart(startArg).value
    ensures r.Failure? && BufferLength(lengthArg).Success? && BufferLength(lengthArg).value >= DEFAULT_HEADER_SIZE ==>
      r.error == CursorInvalid &&
      (ReadHeader(buffer[..]).dataOffset > BufferLength(lengthArg).value ||
       BufferStart(startArg).Failure? ||
       BufferStart(startArg).value > CommittedRelative(ReadHeader(buffer[..]).committed, ReadHeader(buffer[..]).dataOffset))
  {
    var len := BufferLength(lengthArg);
    if len.Failure? {
      return Failure(len.error);
    }
    var mappingLength := len.value;
    if mappingLength < DEFAULT_HEADER_SIZE {
      return Failure(MappingGone);
    }
    var headerSize := ReadUint64LE(buffer, HEADER_SIZE_AT);
    var dataOffset := ReadUint64LE(buffer, DATA_OFFSET_AT);
    if dataOffset > mappingLength {
      return Failure(CursorInvalid);
    }
    var committed := ReadUint64LE(buffer, COMMITTED_AT);
    var committedRelative := CommittedRelative(committed, dataOffset);
    var start := BufferStart(startArg);
    if start.Failure? {
      return Failure(start.error);
    }
    if start.value > committedRelative {
      return Failure(CursorInvalid);
    }
    var it := new ShmIterator(buffer, mappingLength, headerSize, dataOffset, start.value);
    return Success(it);
  }
}

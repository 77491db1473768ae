/**
 * The newer JavaScript reader, `SharedMemoryIterator` of
 * dist/lib/SharedMemoryIterator.js. It walks the same cursor as the newer
 * `Pool` and yields, for every frame below `totalSize`, the Buffer between
 * its two length fields.
 */
module SegmentedIterator {
  import opened Wrappers
  import opened Bytes
  import opened FrameCodec
  import opened Segments

  /** `MESSAGE_HEADER_SIZE`: the bytes of one length field. */
  const MESSAGE_HEADER_SIZE: nat := 2

  /** The iterator's moving fields: the cursor and `buffersTotal`, the bytes of the buffers passed. */
  datatype Walker = Walker(at: Cursor, buffersTotal: nat)

  /** `buffersTotal + index`: how far into the log the walk has come. */
  function Reached(w: Walker): nat
  {
    w.buffersTotal + w.at.index
  }

  /** `buffersTotal` counts exactly the buffers before the current one. */
  predicate Aligned(l: nat, w: Walker)
  {
    w.buffersTotal == l * w.at.bufferIndex
  }

  /** Where the constructor starts a walk from `fromIndex`. */
  function StartWalker(l: nat, fromIndex: nat): (w: Walker)
    requires l > 0
    ensures Aligned(l, w) && Reached(w) == fromIndex && w.at == Place(l, fromIndex)
  {
    var c := Place(l, fromIndex);
    Walker(c, l * c.bufferIndex)
  }

  /** A step of `next()`: the end of the walk, or a payload and the walk after it. */
  datatype Yield = Done | Item(payload: View, next: Walker)

  /**
   * `next()`: done once `buffersTotal + index` reaches `totalSize`; otherwise
   * the u16 `size` at the cursor, the slice `[index + 2, index + size - 2)`,
   * and the cursor `size` bytes on, rebased once into the next buffer with
   * `buffersTotal` growing by the stride. Reading past the last buffer or
   * past the end of one throws.
   */
  function NextFrame(mem: seq<byte>, lay: Layout, totalSize: nat, w: Walker): (r: Result<Yield, BufferError>)
    requires ValidLayout(lay) && |mem| == FileSize(lay)
    ensures r == Success(Done) <==> Reached(w) >= totalSize
    ensures Reached(w) < totalSize && w.at.bufferIndex >= lay.count ==> r == Failure(NoBuffer)
    ensures Reached(w) < totalSize && w.at.bufferIndex < lay.count ==>
      (r.Failure? <==> w.at.index + LENGTH_FIELD_BYTES > BufferLength(lay, w.at.bufferIndex))
    ensures r.Failure? ==> r.error == (if w.at.bufferIndex < lay.count then RangeError else NoBuffer)
    ensures r.Success? && r.value.Item? ==>
      var size := U16At(mem, Address(lay, w.at.bufferIndex, w.at.index));
      && w.at.bufferIndex < lay.count
      && r.value.payload == SliceOf(lay, w.at.bufferIndex, w.at.index + MESSAGE_HEADER_SIZE, w.at.index + size - MESSAGE_HEADER_SIZE)
      && r.value.next.at == Advance(Stride(lay), w.at, size)
      && Reached(r.value.next) == Reached(w) + size
      && (Aligned(Stride(lay), w) ==> Aligned(Stride(lay), r.value.next))
  {
    var l := Stride(lay);
    var c := w.at;
    if Reached(w) >= totalSize then Success(Done)
    else if c.bufferIndex >= lay.count then Failure(NoBuffer)
    else if c.index + LENGTH_FIELD_BYTES > BufferLength(lay, c.bufferIndex) then Failure(RangeError)
    else
      var size := U16At(mem, Address(lay, c.bufferIndex, c.index));
      var view := SliceOf(lay, c.bufferIndex, c.index + MESSAGE_HEADER_SIZE, c.index + size - MESSAGE_HEADER_SIZE);
      var next := Advance(l, c, size);
      var total := if next.bufferIndex > c.bufferIndex then w.buffersTotal + l else w.buffersTotal;
      Success(Item(view, Walker(next, total)))
  }

  /** The payloads of up to `n` calls of `next()`, and the walk after them. */
  datatype Drained = Drained(views: seq<View>, rest: Walker)

  function Drain(mem: seq<byte>, lay: Layout, totalSize: nat, w: Walker, n: nat): (r: Result<Drained, BufferError>)
    requires ValidLayout(lay) && |mem| == FileSize(lay)
    ensures r.Success? ==> |r.value.views| <= n
    decreases n
  {
    if n == 0 then Success(Drained([], w))
    else match NextFrame(mem, lay, totalSize, w)
      case Failure(e) => Failure(e)
      case Success(Done) => Success(Drained([], w))
      case Success(Item(v, next)) =>
        match Drain(mem, lay, totalSize, next, n - 1)
        case Failure(e) => Failure(e)
        case Success(d) => Success(Drained([v] + d.views, d.rest))
  }

  /** Each view lies in memory and shares exactly the bytes of the payload with the same index. */
  ghost predicate ViewsHold(mem: seq<byte>, views: seq<View>, payloads: seq<seq<byte>>)
  {
    && |views| == |payloads|
    && forall k :: 0 <= k < |views| ==>
         views[k].start + views[k].length <= |mem| && ViewBytes(mem, views[k]) == payloads[k]
  }

  /** A reader at a placed frame finds its payload, and moves on by exactly the frame. */
  lemma ReadsFrameAt(mem: seq<byte>, lay: Layout, totalSize: nat, w: Walker, p: seq<byte>)
    requires ValidLayout(lay) && |mem| == FileSize(lay)
    requires FrameAt(mem, lay, w.at, p) && Reached(w) < totalSize
    ensures var r := NextFrame(mem, lay, totalSize, w);
      && r.Success? && r.value.Item?
      && r.value.payload.start + r.value.payload.length <= |mem|
      && ViewBytes(mem, r.value.payload) == p
      && r.value.next.at == Advance(Stride(lay), w.at, |p| + FRAME_METADATA_BYTES)
      && Reached(r.value.next) == Reached(w) + |p| + FRAME_METADATA_BYTES
  {
    var c := w.at;
    var a := Address(lay, c.bufferIndex, c.index);
    FrameFields(mem, a, p);
    assert Address(lay, c.bufferIndex, c.index + MESSAGE_HEADER_SIZE) == a + MESSAGE_HEADER_SIZE;
  }

  /**
   * Frames placed from an aligned walk, read up to the position where they
   * end, come back payload by payload in the order they were placed, and
   * the walk then reports done.
   */
  lemma {:induction false} DrainReadsPlaced(mem: seq<byte>, lay: Layout, w: Walker, payloads: seq<seq<byte>>, totalSize: nat)
    requires ValidLayout(lay) && |mem| == FileSize(lay)
    requires Aligned(Stride(lay), w) && FramesPlaced(mem, lay, w.at, payloads)
    requires totalSize == Reached(w) + LogSize(payloads)
    ensures Drain(mem, lay, totalSize, w, |payloads|).Success?
    ensures ViewsHold(mem, Drain(mem, lay, totalSize, w, |payloads|).value.views, payloads)
    ensures Drain(mem, lay, totalSize, w, |payloads|).value.rest.at == PassFrames(Stride(lay), w.at, payloads)
    ensures NextFrame(mem, lay, totalSize, Drain(mem, lay, totalSize, w, |payloads|).value.rest) == Success(Done)
    decreases |payloads|
  {
    if payloads == [] {
      assert Drain(mem, lay, totalSize, w, 0) == Success(Drained([], w));
    } else {
      var p := payloads[0];
      ReadsFrameAt(mem, lay, totalSize, w, p);
      var step := NextFrame(mem, lay, totalSize, w).value;
      var v, next := step.payload, step.next;
      DrainReadsPlaced(mem, lay, next, payloads[1..], totalSize);
      var d := Drain(mem, lay, totalSize, next, |payloads[1..]|).value;
      DrainStep(mem, lay, totalSize, w, payloads, v, next, d);
    }
  }

  /**
   * The inductive step of `DrainReadsPlaced`: the first frame's item in
   * front of a drain that read the rest is a drain that read them all.
   */
  lemma DrainStep(mem: seq<byte>, lay: Layout, totalSize: nat, w: Walker, payloads: seq<seq<byte>>,
                  v: View, next: Walker, d: Drained)
    requires ValidLayout(lay) && |mem| == FileSize(lay) && payloads != []
    requires NextFrame(mem, lay, totalSize, w) == Success(Item(v, next))
    requires v.start + v.length <= |mem| && ViewBytes(mem, v) == payloads[0]
    requires next.at == Advance(Stride(lay), w.at, |payloads[0]| + FRAME_METADATA_BYTES)
    requires Drain(mem, lay, totalSize, next, |payloads[1..]|) == Success(d)
    requires ViewsHold(mem, d.views, payloads[1..])
    requires d.rest.at == PassFrames(Stride(lay), next.at, payloads[1..])
    ensures Drain(mem, lay, totalSize, w, |payloads|) == Success(Drained([v] + d.views, d.rest))
    ensures ViewsHold(mem, [v] + d.views, payloads)
    ensures d.rest.at == PassFrames(Stride(lay), w.at, payloads)
  {
    ViewsCons(mem, v, d.views, payloads);
  }

  /** The view of the first payload in front of views that hold the rest. */
  lemma ViewsCons(mem: seq<byte>, v: View, views: seq<View>, payloads: seq<seq<byte>>)
    requires payloads != []
    requires v.start + v.length <= |mem| && ViewBytes(mem, v) == payloads[0]
    requires ViewsHold(mem, views, payloads[1..])
    ensures ViewsHold(mem, [v] + views, payloads)
  {
    forall k | 0 <= k < |views| + 1
      ensures ([v] + views)[k].start + ([v] + views)[k].length <= |mem|
      ensures ViewBytes(mem, ([v] + views)[k]) == payloads[k]
    {
      if k > 0 {
        assert ([v] + views)[k] == views[k - 1];
        assert payloads[k] == payloads[1..][k - 1];
      }
    }
  }

  /**
   * A reader started where a writer's frames begin, bounded by where they
   * end, yields exactly the payloads written, in order.
   */
  lemma ReadBackFrom(mem: seq<byte>, lay: Layout, payloads: seq<seq<byte>>, fromIndex: nat, toIndex: nat, w: Walker)
    requires ValidLayout(lay) && |mem| == FileSize(lay)
    requires FramesPlaced(mem, lay, Place(Stride(lay), fromIndex), payloads)
    requires toIndex == fromIndex + LogSize(payloads) && w == StartWalker(Stride(lay), fromIndex)
    ensures Drain(mem, lay, toIndex, w, |payloads|).Success?
    ensures ViewsHold(mem, Drain(mem, lay, toIndex, w, |payloads|).value.views, payloads)
    ensures NextFrame(mem, lay, toIndex, Drain(mem, lay, toIndex, w, |payloads|).value.rest) == Success(Done)
  {
    DrainReadsPlaced(mem, lay, w, payloads, toIndex);
  }

  class Iterator {
    const mem: array<byte>
    const layout: Layout
    /** `bufferLength`: the stride of the cursor. */
    const bufferLength: nat
    const totalSize: nat
    /** The constructor replaced `next` by one that is always done. */
    const exhausted: bool
    var bufferIndex: nat
    var index: nat
    var buffersTotal: nat

    ghost predicate Valid()
      reads this
    {
      && ValidLayout(layout) && mem.Length == FileSize(layout) && bufferLength == Stride(layout)
      && Aligned(bufferLength, Walk())
      && (exhausted ==> Reached(Walk()) >= totalSize)
    }

    function Walk(): Walker
      reads this
    {
      Walker(Cursor(bufferIndex, index), buffersTotal)
    }

    /**
     * `new SharedMemoryIterator(sharedMemory, fromIndex, toIndex)`: the walk
     * starts at `fromIndex` and is exhausted from the start when `toIndex`
     * does not exceed it.
     */
    constructor (mem: array<byte>, lay: Layout, fromIndex: nat, toIndex: nat)
      requires ValidLayout(lay) && mem.Length == FileSize(lay)
      ensures Valid() && this.mem == mem && layout == lay && totalSize == toIndex
      ensures Walk() == StartWalker(Stride(lay), fromIndex)
      ensures exhausted <==> toIndex <= fromIndex
    {
      this.mem := mem;
      layout := lay;
      var l := Stride(lay);
      bufferLength := l;
      totalSize := toIndex;
      bufferIndex := fromIndex / l;
      buffersTotal := l * (fromIndex / l);
      index := fromIndex % l;
      exhausted := toIndex <= fromIndex;
    }

    /**
     * `next()`, replaced or not: the step `NextFrame` describes, with the
     * payload as the value and `None` for done. A step that throws moves
     * nothing.
     */
    method Next() returns (r: Result<Option<View>, BufferError>)
      requires Valid()
      modifies this`bufferIndex, this`index, this`buffersTotal
      ensures Valid()
      ensures match NextFrame(mem[..], layout, totalSize, old(Walk()))
        case Success(Done) => r == Success(None) && Walk() == old(Walk())
        case Success(Item(v, next)) => r == Success(Some(v)) && Walk() == next
        case Failure(e) => r == Failure(e) && Walk() == old(Walk())
    {
      ghost var step := NextFrame(mem[..], layout, totalSize, Walk());
      if exhausted {
        assert step == Success(Done);
        return Success(None);
      }
      if buffersTotal + index >= totalSize {
        return Success(None);
      }
      var size := ReadUInt16LE(mem, layout, bufferIndex, index);
      if size.Failure? {
        return Failure(size.error);
      }
      var s := size.value;
      ghost var w0 := Walk();
      var v := SliceOf(layout, bufferIndex, index + MESSAGE_HEADER_SIZE, index + s - MESSAGE_HEADER_SIZE);
      index := index + s;
      if index >= bufferLength {
        index := index - bufferLength;
        bufferIndex := bufferIndex + 1;
        buffersTotal := buffersTotal + bufferLength;
      }
      assert Walk().at == Advance(bufferLength, w0.at, s);
      assert step.value.payload == v;
      assert step == Success(Item(v, Walk()));
      return Success(Some(v));
    }
  }

  /** `shmIter(sharedMemory, fromIndex, toIndex)`: a new iterator. */
  method ShmIter(mem: array<byte>, lay: Layout, fromIndex: nat, toIndex: nat) returns (it: Iterator)
    requires ValidLayout(lay) && mem.Length == FileSize(lay)
    ensures fresh(it) && it.Valid() && it.mem == mem && it.layout == lay && it.totalSize == toIndex
    ensures it.Walk() == StartWalker(Stride(lay), fromIndex)
    ensures it.exhausted <==> toIndex <= fromIndex
  {
    it := new Iterator(mem, lay, fromIndex, toIndex);
  }
}

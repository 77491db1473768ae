/**
 * The older TypeScript reader, `SharedMemoryIterator` of
 * src/lib/SharedMemoryIterator.ts. It walks the same cursor as the older
 * `Pool`: at each record it reads a u32 LE size, yields the position, the
 * `size` bytes two on and the size twice, and moves `2 + size` bytes on.
 */
module LegacyIterator {
  import opened Wrappers
  import opened Bytes
  import opened FrameCodec
  import opened Segments
  import opened SegmentedIterator
  import LegacyPool

  /** `ShmItem`: where the record starts, its payload, and its size twice. */
  datatype ShmItem = ShmItem(position: nat, payload: View, size: nat, sizeAgain: nat)

  /** A step of `next()`: the end of the walk, or an item and the walk after it. */
  datatype LegacyYield = Finished | Record(item: ShmItem, next: Walker)

  /**
   * `next()` as written: done once `buffersTotal + index` reaches
   * `totalSize`; otherwise the u32 `size` at the cursor, the slice
   * `[index + 2, index + 2 + size)`, and the cursor `2 + size` bytes on,
   * rebased once into the next buffer with `buffersTotal` growing by the
   * stride. Reading past the last buffer or past the end of one throws.
   */
  function LegacyNext(mem: seq<byte>, lay: Layout, totalSize: nat, w: Walker): (r: Result<LegacyYield, BufferError>)
    requires ValidLayout(lay) && |mem| == FileSize(lay)
    ensures r == Success(Finished) <==> Reached(w) >= totalSize
    ensures Reached(w) < totalSize && w.at.bufferIndex >= lay.count ==> r == Failure(NoBuffer)
    ensures Reached(w) < totalSize && w.at.bufferIndex < lay.count ==>
      (r.Failure? <==> w.at.index + 4 > BufferLength(lay, w.at.bufferIndex))
    ensures r.Failure? ==> r.error == (if w.at.bufferIndex < lay.count then RangeError else NoBuffer)
    ensures r.Success? && r.value.Record? ==>
      var size := U32At(mem, Address(lay, w.at.bufferIndex, w.at.index));
      && w.at.bufferIndex < lay.count
      && r.value.item.position == Reached(w)
      && r.value.item.size == size && r.value.item.sizeAgain == size
      && r.value.item.payload == SliceOf(lay, w.at.bufferIndex, w.at.index + LegacyPool.MESSAGE_HEADER_SIZE,
                                         w.at.index + LegacyPool.MESSAGE_HEADER_SIZE + size)
      && r.value.next.at == Advance(Stride(lay), w.at, LegacyPool.MESSAGE_HEADER_SIZE + size)
      && Reached(r.value.next) == Reached(w) + LegacyPool.MESSAGE_HEADER_SIZE + size
      && (Aligned(Stride(lay), w) ==> Aligned(Stride(lay), r.value.next))
  {
    var l := Stride(lay);
    var c := w.at;
    if Reached(w) >= totalSize then Success(Finished)
    else if c.bufferIndex >= lay.count then Failure(NoBuffer)
    else if c.index + 4 > BufferLength(lay, c.bufferIndex) then Failure(RangeError)
    else
      var size := U32At(mem, Address(lay, c.bufferIndex, c.index));
      var start := c.index + LegacyPool.MESSAGE_HEADER_SIZE;
      var view := SliceOf(lay, c.bufferIndex, start, start + size);
      var next := Advance(l, c, LegacyPool.MESSAGE_HEADER_SIZE + size);
      var total := if next.bufferIndex > c.bufferIndex then w.buffersTotal + l else w.buffersTotal;
      Success(Record(ShmItem(Reached(w), view, size, size), Walker(next, total)))
  }

  /**
   * A record the older `Pool` sliced at the walk's cursor and whose payload
   * was then filled in is read back at its position, with the payload's
   * bytes, exactly when the payload starts with the high half of its size;
   * otherwise the size read is a different one.
   */
  lemma ReadsSlicedRecord(mem: seq<byte>, lay: Layout, totalSize: nat, w: Walker, p: seq<byte>)
    requires ValidLayout(lay) && |mem| == FileSize(lay)
    requires w.at.bufferIndex < lay.count
    requires w.at.index + LegacyPool.MESSAGE_HEADER_SIZE + |p| <= BufferLength(lay, w.at.bufferIndex)
    requires 2 <= |p| < U32_LIMIT && Reached(w) < totalSize
    ensures Address(lay, w.at.bufferIndex, w.at.index) + LegacyPool.MESSAGE_HEADER_SIZE + |p| <= |mem|
    ensures var a := Address(lay, w.at.bufferIndex, w.at.index);
      var m := Fill(WriteLE(mem, a, |p|, 4), a + LegacyPool.MESSAGE_HEADER_SIZE, p);
      var r := LegacyNext(m, lay, totalSize, w);
      && r.Success? && r.value.Record? && r.value.item.position == Reached(w)
      && (r.value.item.size == |p| <==> U16At(p, 0) == |p| / U16_LIMIT)
      && (r.value.item.size == |p| ==>
            && ViewBytes(m, r.value.item.payload) == p
            && r.value.next.at == Advance(Stride(lay), w.at, LegacyPool.MESSAGE_HEADER_SIZE + |p|))
  {
    var a := Address(lay, w.at.bufferIndex, w.at.index);
    var e := Address(lay, w.at.bufferIndex, BufferLength(lay, w.at.bufferIndex));
    assert a + LegacyPool.MESSAGE_HEADER_SIZE + |p| <= e;
    LegacyPool.SizeReadBackExact(mem, a, p);
    LegacyPool.SizeUnderPayload(mem, a, p);
  }

  /**
   * Below a total of `HEADER_SIZE` the constructor's replacement of `next`
   * differs from the method it replaces only for a walk that starts before
   * the total: from the default start the two agree.
   */
  lemma ReplacedNextAgrees(mem: seq<byte>, lay: Layout, totalSize: nat, fromIndex: nat)
    requires ValidLayout(lay) && |mem| == FileSize(lay) && totalSize <= LegacyPool.HEADER_SIZE
    ensures LegacyNext(mem, lay, totalSize, StartWalker(Stride(lay), fromIndex)) == Success(Finished)
            <==> fromIndex >= totalSize
  {
  }

  class Iterator {
    const mem: array<byte>
    const layout: Layout
    /** `bufferLength`: the stride of the cursor. */
    const bufferLength: nat
    const totalSize: nat
    /** The constructor replaced `next` by one that is always done. */
    const exhausted: bool
    var bufferIndex: nat
    var index: nat
    var buffersTotal: nat

    ghost predicate Valid()
      reads this
    {
      && ValidLayout(layout) && mem.Length == FileSize(layout) && bufferLength == Stride(layout)
      && Aligned(bufferLength, Walk())
      && (exhausted <==> totalSize <= LegacyPool.HEADER_SIZE)
    }

    function Walk(): Walker
      reads this
    {
      Walker(Cursor(bufferIndex, index), buffersTotal)
    }

    /**
     * The constructor once `totalSize` is known: the walk starts at
     * `fromIndex`, and `next` is replaced when the total is no more than
     * the header.
     */
    constructor (mem: array<byte>, lay: Layout, fromIndex: nat, totalSize: nat)
      requires ValidLayout(lay) && mem.Length == FileSize(lay)
      ensures Valid() && this.mem == mem && layout == lay && this.totalSize == totalSize
      ensures Walk() == StartWalker(Stride(lay), fromIndex)
      ensures exhausted <==> totalSize <= LegacyPool.HEADER_SIZE
    {
      this.mem := mem;
      layout := lay;
      var l := Stride(lay);
      bufferLength := l;
      bufferIndex := fromIndex / l;
      buffersTotal := l * (fromIndex / l);
      index := fromIndex % l;
      this.totalSize := totalSize;
      exhausted := totalSize <= LegacyPool.HEADER_SIZE;
    }

    /**
     * `next()`: always done once replaced; otherwise the step `LegacyNext`
     * describes, with the item as the value and `None` for done. A step
     * that throws moves nothing.
     */
    method Next() returns (r: Result<Option<ShmItem>, BufferError>)
      requires Valid()
      modifies this`bufferIndex, this`index, this`buffersTotal
      ensures Valid()
      ensures exhausted ==> r == Success(None) && Walk() == old(Walk())
      ensures !exhausted ==> match LegacyNext(mem[..], layout, totalSize, old(Walk()))
        case Success(Finished) => r == Success(None) && Walk() == old(Walk())
        case Success(Record(item, next)) => r == Success(Some(item)) && Walk() == next
        case Failure(e) => r == Failure(e) && Walk() == old(Walk())
    {
      if exhausted {
        return Success(None);
      }
      ghost var step := LegacyNext(mem[..], layout, totalSize, Walk());
      if buffersTotal + index >= totalSize {
        return Success(None);
      }
      var size := ReadUInt32LE(mem, layout, bufferIndex, index);
      if size.Failure? {
        return Failure(size.error);
      }
      var s := size.value;
      ghost var w0 := Walk();
      var position := buffersTotal + index;
      index := index + LegacyPool.MESSAGE_HEADER_SIZE;
      var v := SliceOf(layout, bufferIndex, index, index + s);
      index := index + s;
      if index >= bufferLength {
        index := index - bufferLength;
        bufferIndex := bufferIndex + 1;
        buffersTotal := buffersTotal + bufferLength;
      }
      var item := ShmItem(position, v, s, s);
      assert Walk().at == Advance(bufferLength, w0.at, LegacyPool.MESSAGE_HEADER_SIZE + s);
      assert step.value.item == item;
      assert step == Success(Record(item, Walk()));
      return Success(Some(item));
    }
  }

  /**
   * `shmIter(sharedMemory, fromIndex, toIndex)`, which is the constructor:
   * the total is `toIndex` when given, otherwise the size stored in the
   * header, whose reads throw when the first buffer is shorter than it.
   */
  method ShmIter(mem: array<byte>, lay: Layout, fromIndex: nat, toIndex: Option<nat>) returns (r: Result<Iterator, BufferError>)
    requires ValidLayout(lay) && mem.Length == FileSize(lay)
    ensures r.Success? <==> toIndex.Some? || BufferLength(lay, 0) >= LegacyPool.HEADER_SIZE
    ensures r.Failure? ==> r.error == RangeError
    ensures r.Success? ==>
      && fresh(r.value) && r.value.Valid() && r.value.mem == mem && r.value.layout == lay
      && r.value.Walk() == StartWalker(Stride(lay), fromIndex)
      && (toIndex.Some? ==> r.value.totalSize == toIndex.value)
    ensures r.Success? && toIndex.None? ==>
      mem.Length >= LegacyPool.HEADER_SIZE && r.value.totalSize == LegacyPool.StoredSize(mem[..])
  {
    var total: nat;
    if toIndex.Some? {
      total := toIndex.value;
    } else {
      var lo := ReadUInt32LE(mem, lay, 0, 0);
      if lo.Failure? {
        return Failure(lo.error);
      }
      var hi := ReadUInt32LE(mem, lay, 0, 4);
      if hi.Failure? {
        return Failure(hi.error);
      }
      total := lo.value + hi.value * U32_LIMIT;
    }
    var it := new Iterator(mem, lay, fromIndex, total);
    return Success(it);
  }
}

/**
 * The frame format shared by the native addon and the newer JavaScript
 * revision: `[u16 LE frameSize][payload][u16 LE frameSize]` with
 * `frameSize = |payload| + 4`. The two copies of the length let a reader
 * check a frame from both ends.
 */
module FrameCodec {
  import opened Bytes

  /** Bytes of one length field. */
  const LENGTH_FIELD_BYTES: nat := 2
  /** Bytes of metadata per frame: the prefix and the suffix. */
  const FRAME_METADATA_BYTES: nat := 4

  /** The value stored in a length field: the frame size cast to u16. */
  function LengthField(frameSize: nat): (v: nat)
    ensures v < U16_LIMIT
    ensures frameSize < U16_LIMIT ==> v == frameSize
  {
    frameSize % U16_LIMIT
  }

  /** One frame for `payload`, as it lies in memory. */
  function EncodeFrame(payload: seq<byte>): (f: seq<byte>)
    ensures |f| == |payload| + FRAME_METADATA_BYTES
  {
    var field := EncodeLE(LengthField(|payload| + FRAME_METADATA_BYTES), 2);
    field + payload + field
  }

  /** Consecutive frames for `payloads`, first payload first. */
  function EncodeLog(payloads: seq<seq<byte>>): (log: seq<byte>)
  {
    if payloads == [] then [] else EncodeFrame(payloads[0]) + EncodeLog(payloads[1..])
  }

  /** Total bytes of the frames of `payloads`, metadata included. */
  function LogSize(payloads: seq<seq<byte>>): nat
  {
    if payloads == [] then 0 else |payloads[0]| + FRAME_METADATA_BYTES + LogSize(payloads[1..])
  }

  lemma {:induction false} EncodeLogSize(payloads: seq<seq<byte>>)
    ensures |EncodeLog(payloads)| == LogSize(payloads)
  {
    if payloads != [] {
      EncodeLogSize(payloads[1..]);
    }
  }

  /** Appending a payload appends its frame: what a writer does, one allocation at a time. */
  lemma {:induction false} EncodeLogAppend(payloads: seq<seq<byte>>, p: seq<byte>)
    ensures EncodeLog(payloads + [p]) == EncodeLog(payloads) + EncodeFrame(p)
  {
    if payloads == [] {
      assert [p][1..] == [];
    } else {
      assert (payloads + [p])[1..] == payloads[1..] + [p];
      EncodeLogAppend(payloads[1..], p);
    }
  }

  /** A log in memory ends with the frame of its last payload. */
  lemma LogLast(mem: seq<byte>, at: nat, init: seq<seq<byte>>, last: seq<byte>)
    requires at + |EncodeLog(init + [last])| <= |mem|
    requires mem[at..at + |EncodeLog(init + [last])|] == EncodeLog(init + [last])
    ensures var start := at + |EncodeLog(init)|;
            && start + |last| + FRAME_METADATA_BYTES == at + |EncodeLog(init + [last])|
            && mem[start..start + |last| + FRAME_METADATA_BYTES] == EncodeFrame(last)
  {
    EncodeLogAppend(init, last);
    var log := EncodeLog(init + [last]);
    var k := |EncodeLog(init)|;
    assert mem[at + k..at + |log|] == mem[at..at + |log|][k..];
  }

  /**
   * The two length fields an allocation writes for a frame of `frameSize`
   * bytes at `at`: the prefix at `at`, the suffix at `at + frameSize - 2`.
   */
  function StampFrame(mem: seq<byte>, at: nat, frameSize: nat): (r: seq<byte>)
    requires FRAME_METADATA_BYTES <= frameSize && at + frameSize <= |mem|
    ensures |r| == |mem|
    ensures U16At(r, at) == LengthField(frameSize)
    ensures U16At(r, at + frameSize - 2) == LengthField(frameSize)
    ensures forall i :: 0 <= i < |mem| && !(at <= i < at + 2) && !(at + frameSize - 2 <= i < at + frameSize)
              ==> r[i] == mem[i]
  {
    WriteU16(WriteU16(mem, at, LengthField(frameSize)), at + frameSize - 2, LengthField(frameSize))
  }

  /** `mem` with `data` written at `at`: what a caller does to the region it was given. */
  function Fill(mem: seq<byte>, at: nat, data: seq<byte>): (r: seq<byte>)
    requires at + |data| <= |mem|
    ensures |r| == |mem|
  {
    mem[..at] + data + mem[at + |data|..]
  }

  /**
   * Stamping a frame and then filling its payload region lays down exactly
   * the encoded frame, and touches nothing else.
   */
  lemma StampThenFill(mem: seq<byte>, at: nat, payload: seq<byte>)
    requires at + |payload| + FRAME_METADATA_BYTES <= |mem|
    ensures Fill(StampFrame(mem, at, |payload| + FRAME_METADATA_BYTES), at + 2, payload)
            == Fill(mem, at, EncodeFrame(payload))
  {
    var n := |payload| + FRAME_METADATA_BYTES;
    var stamped := StampFrame(mem, at, n);
    var lhs := Fill(stamped, at + 2, payload);
    var rhs := Fill(mem, at, EncodeFrame(payload));
    var field := EncodeLE(LengthField(n), 2);
    assert EncodeLE(LengthField(n) / 256, 1) == [LengthField(n) / 256 % 256] + EncodeLE(LengthField(n) / 256 / 256, 0);
    assert field == [LengthField(n) % 256, LengthField(n) / 256];
    forall i | 0 <= i < |mem|
      ensures lhs[i] == rhs[i]
    {
      if i < at {
      } else if i < at + 2 {
        assert rhs[i] == EncodeFrame(payload)[i - at];
      } else if i < at + 2 + |payload| {
        assert lhs[i] == payload[i - at - 2];
        assert rhs[i] == EncodeFrame(payload)[i - at];
      } else if i < at + n {
        assert rhs[i] == EncodeFrame(payload)[i - at];
      } else {
      }
    }
  }

  /** What a reader finds in memory that holds an encoded frame. */
  lemma FrameFields(mem: seq<byte>, at: nat, payload: seq<byte>)
    requires at + |payload| + FRAME_METADATA_BYTES <= |mem|
    requires mem[at..at + |payload| + FRAME_METADATA_BYTES] == EncodeFrame(payload)
    ensures U16At(mem, at) == LengthField(|payload| + FRAME_METADATA_BYTES)
    ensures U16At(mem, at + |payload| + 2) == LengthField(|payload| + FRAME_METADATA_BYTES)
    ensures mem[at + 2..at + 2 + |payload|] == payload
  {
    var n := |payload| + FRAME_METADATA_BYTES;
    var field := EncodeLE(LengthField(n), 2);
    DecodeEncode(LengthField(n), 2);
    Pow256Values();
    U16AtDecode(mem, at);
    U16AtDecode(mem, at + n - 2);
    assert mem[at..at + 2] == EncodeFrame(payload)[..2] == field;
    assert mem[at + n - 2..at + n] == EncodeFrame(payload)[n - 2..] == field;
    assert mem[at + 2..at + 2 + |payload|] == mem[at..at + n][2..2 + |payload|];
    assert EncodeFrame(payload)[2..2 + |payload|] == payload;
  }

  /** A log in memory splits into its first frame and the rest. */
  lemma LogHead(mem: seq<byte>, at: nat, payloads: seq<seq<byte>>)
    requires payloads != []
    requires at + |EncodeLog(payloads)| <= |mem|
    requires mem[at..at + |EncodeLog(payloads)|] == EncodeLog(payloads)
    ensures mem[at..at + |payloads[0]| + FRAME_METADATA_BYTES] == EncodeFrame(payloads[0])
    ensures var next := at + |payloads[0]| + FRAME_METADATA_BYTES;
            next + |EncodeLog(payloads[1..])| <= |mem| &&
            mem[next..next + |EncodeLog(payloads[1..])|] == EncodeLog(payloads[1..])
  {
    var n := |payloads[0]| + FRAME_METADATA_BYTES;
    var log := EncodeLog(payloads);
    assert log == EncodeFrame(payloads[0]) + EncodeLog(payloads[1..]);
    assert mem[at..at + n] == mem[at..at + |log|][..n];
    assert mem[at + n..at + |log|] == mem[at..at + |log|][n..];
  }
}

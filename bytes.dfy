/**
 * Bytes of a memory mapping and the little-endian integer codecs used by
 * every revision of the log: u16 frame lengths, u32 sizes of the older
 * JavaScript revision and the u64 header fields of the native addon.
 */
module Bytes {

  /** A Buffer that aliases `length` bytes of a mapping starting at `start`. */
  datatype View = View(start: nat, length: nat)

  type byte = b: int | 0 <= b < 256

  const U16_LIMIT: nat := 0x1_0000
  const U32_LIMIT: nat := 0x1_0000_0000
  const U64_LIMIT: nat := 0x1_0000_0000_0000_0000

  function Pow256(n: nat): (r: nat)
    ensures r >= 1
  {
    if n == 0 then 1 else 256 * Pow256(n - 1)
  }

  /** The unsigned value of `s` read least significant byte first. */
  function DecodeLE(s: seq<byte>): (v: nat)
    ensures v < Pow256(|s|)
  {
    if |s| == 0 then 0
    else
      var rest := DecodeLE(s[1..]);
      assert s[0] + 256 * rest <= 255 + 256 * (Pow256(|s| - 1) - 1);
      s[0] + 256 * rest
  }

  /** The `n` low-order bytes of `v`, least significant first. */
  function EncodeLE(v: nat, n: nat): (s: seq<byte>)
    ensures |s| == n
  {
    if n == 0 then [] else [v % 256] + EncodeLE(v / 256, n - 1)
  }

  lemma {:induction false} DecodeEncode(v: nat, n: nat)
    requires v < Pow256(n)
    ensures DecodeLE(EncodeLE(v, n)) == v
  {
    if n > 0 {
      DecodeEncode(v / 256, n - 1);
      assert EncodeLE(v, n)[1..] == EncodeLE(v / 256, n - 1);
    }
  }

  lemma {:induction false} EncodeDecode(s: seq<byte>)
    ensures EncodeLE(DecodeLE(s), |s|) == s
  {
    if |s| > 0 {
      EncodeDecode(s[1..]);
      var v := DecodeLE(s);
      assert v % 256 == s[0] && v / 256 == DecodeLE(s[1..]);
    }
  }

  /** `v >> 8 k`: `v` with its `k` low-order bytes shifted out. */
  function ShiftBytes(v: nat, k: nat): (r: nat)
    ensures r <= v
  {
    if k == 0 then v else ShiftBytes(v, k - 1) / 256
  }

  lemma {:induction false} ShiftBytesFirst(v: nat, k: nat)
    requires k > 0
    ensures ShiftBytes(v, k) == ShiftBytes(v / 256, k - 1)
  {
    if k > 1 {
      ShiftBytesFirst(v, k - 1);
    }
  }

  /** Byte `k` of the encoding is `(v >> 8 k) & 0xff`. */
  lemma {:induction false} EncodeLEAt(v: nat, n: nat, k: nat)
    requires k < n
    ensures EncodeLE(v, n)[k] == ShiftBytes(v, k) % 256
  {
    if k > 0 {
      EncodeLEAt(v / 256, n - 1, k - 1);
      ShiftBytesFirst(v, k);
    }
  }

  lemma Pow256Values()
    ensures Pow256(2) == U16_LIMIT && Pow256(4) == U32_LIMIT && Pow256(8) == U64_LIMIT
  {
  }

  // ---- u16, as the frame length fields store it ----

  /** `data[0] | data[1] << 8`, the u16 read of both the addon and Node's readUInt16LE. */
  function U16At(s: seq<byte>, at: nat): (v: nat)
    requires at + 2 <= |s|
    ensures v < U16_LIMIT
  {
    (s[at] as nat) + 256 * (s[at + 1] as nat)
  }

  /** The u16 read is the two-byte case of the little-endian decoding. */
  lemma U16AtDecode(s: seq<byte>, at: nat)
    requires at + 2 <= |s|
    ensures U16At(s, at) == DecodeLE(s[at..at + 2])
  {
    assert s[at..at + 2][1..] == s[at + 1..at + 2];
    assert s[at + 1..at + 2][1..] == [];
  }

  /** The u16 write: low byte at `at`, high byte at `at + 1`. */
  function WriteU16(s: seq<byte>, at: nat, v: nat): (r: seq<byte>)
    requires at + 2 <= |s| && v < U16_LIMIT
    ensures |r| == |s|
    ensures U16At(r, at) == v
    ensures forall i :: 0 <= i < |s| && i != at && i != at + 1 ==> r[i] == s[i]
  {
    s[at := v % 256][at + 1 := v / 256]
  }

  // ---- u32 and u64 fields ----

  function U32At(s: seq<byte>, at: nat): (v: nat)
    requires at + 4 <= |s|
    ensures v < U32_LIMIT
  {
    Pow256Values();
    DecodeLE(s[at..at + 4])
  }

  function U64At(s: seq<byte>, at: nat): (v: nat)
    requires at + 8 <= |s|
    ensures v < U64_LIMIT
  {
    Pow256Values();
    DecodeLE(s[at..at + 8])
  }

  /** A little-endian number split into its low and its high bytes. */
  lemma {:induction false} DecodeLEConcat(lo: seq<byte>, hi: seq<byte>)
    ensures DecodeLE(lo + hi) == DecodeLE(lo) + Pow256(|lo|) * DecodeLE(hi)
    decreases |lo|
  {
    if lo == [] {
      assert lo + hi == hi;
    } else {
      var x := lo + hi;
      assert x[1..] == lo[1..] + hi;
      DecodeLEConcat(lo[1..], hi);
      var r := DecodeLE(lo[1..]);
      var h := DecodeLE(hi);
      var p := Pow256(|lo| - 1);
      assert DecodeLE(x) == x[0] + 256 * (r + p * h);
      assert DecodeLE(lo) == lo[0] + 256 * r;
      assert Pow256(|lo|) == 256 * p;
      MulDistributes(256, r, p * h);
      MulAssociates(256, p, h);
    }
  }

  lemma MulDistributes(a: int, b: int, c: int)
    ensures a * (b + c) == a * b + a * c
  {
  }

  lemma MulAssociates(a: int, b: int, c: int)
    ensures a * (b * c) == (a * b) * c
  {
  }

  /** A u64 is its low u32 half plus its high u32 half times 2^32. */
  lemma U64Halves(s: seq<byte>, at: nat)
    requires at + 8 <= |s|
    ensures U64At(s, at) == U32At(s, at) + U32_LIMIT * U32At(s, at + 4)
  {
    assert s[at..at + 8] == s[at..at + 4] + s[at + 4..at + 8];
    DecodeLEConcat(s[at..at + 4], s[at + 4..at + 8]);
    Pow256Values();
  }

  /** `s` with the `n` bytes at `at` replaced by the little-endian encoding of `v`. */
  function WriteLE(s: seq<byte>, at: nat, v: nat, n: nat): (r: seq<byte>)
    requires at + n <= |s|
    ensures |r| == |s|
    ensures r[..at] == s[..at] && r[at + n..] == s[at + n..]
    ensures r[at..at + n] == EncodeLE(v, n)
  {
    s[..at] + EncodeLE(v, n) + s[at + n..]
  }

  lemma {:induction false} WriteLEReadBack(s: seq<byte>, at: nat, v: nat, n: nat)
    requires at + n <= |s| && v < Pow256(n)
    ensures DecodeLE(WriteLE(s, at, v, n)[at..at + n]) == v
  {
    DecodeEncode(v, n);
  }

  /** A write leaves every byte range it does not overlap as it was. */
  lemma WriteLEElsewhere(s: seq<byte>, at: nat, v: nat, n: nat, j: nat, k: nat)
    requires at + n <= |s| && j <= k <= |s|
    requires k <= at || at + n <= j
    ensures WriteLE(s, at, v, n)[j..k] == s[j..k]
  {
    var r := WriteLE(s, at, v, n);
    if k <= at {
      assert r[j..k] == r[..at][j..k];
      assert s[j..k] == s[..at][j..k];
    } else {
      assert r[j..k] == r[at + n..][j - at - n..k - at - n];
      assert s[j..k] == s[at + n..][j - at - n..k - at - n];
    }
  }

  /** Rewriting a field with the value it already holds leaves the bytes as they were. */
  lemma {:induction false} WriteLESameValue(s: seq<byte>, at: nat, n: nat)
    requires at + n <= |s|
    ensures WriteLE(s, at, DecodeLE(s[at..at + n]), n) == s
  {
    EncodeDecode(s[at..at + n]);
    assert s == s[..at] + s[at..at + n] + s[at + n..];
  }

  // ---- the byte loops of the addon ----

  /**
   * ReadUint64LE of the addon: a loop over the eight bytes from the most
   * significant down, shifting the accumulated value left by eight bits and
   * or-ing in the next byte (the shift leaves the low byte zero, so the or is
   * an addition).
   */
  method ReadUint64LE(data: array<byte>, off: nat) returns (value: nat)
    requires off + 8 <= data.Length
    ensures value == U64At(data[..], off)
  {
    value := 0;
    var i := 8;
    while i > 0
      invariant 0 <= i <= 8
      invariant value == DecodeLE(data[off + i..off + 8])
    {
      i := i - 1;
      assert data[off + i..off + 8][1..] == data[off + i + 1..off + 8];
      value := value * 256 + data[off + i];
    }
    assert data[off..off + 8] == data[..][off..off + 8];
  }

  /** WriteUint64LE of the addon: byte `i` receives `(value >> 8 i) & 0xff`. */
  method WriteUint64LE(data: array<byte>, off: nat, value: nat)
    requires off + 8 <= data.Length && value < U64_LIMIT
    modifies data
    ensures data[..] == WriteLE(old(data[..]), off, value, 8)
  {
    var i := 0;
    while i < 8
      invariant 0 <= i <= 8
      invariant forall k :: 0 <= k < i ==> data[off + k] == ShiftBytes(value, k) % 256
      invariant forall j :: 0 <= j < data.Length && !(off <= j < off + i) ==> data[j] == old(data[j])
    {
      data[off + i] := ShiftBytes(value, i) % 256;
      i := i + 1;
    }
    ghost var expected := WriteLE(old(data[..]), off, value, 8);
    forall j | 0 <= j < data.Length
      ensures data[j] == expected[j]
    {
      if off <= j < off + 8 {
        EncodeLEAt(value, 8, j - off);
        assert expected[j] == expected[off..off + 8][j - off];
      } else if j < off {
        assert expected[j] == expected[..off][j];
      } else {
        assert expected[j] == expected[off + 8..][j - off - 8];
      }
    }
  }

  /** A u16 little-endian field of an array. */
  method ReadUint16LE(data: array<byte>, at: nat) returns (v: nat)
    requires at + 2 <= data.Length
    ensures v == U16At(data[..], at)
  {
    v := (data[at] as nat) + 256 * (data[at + 1] as nat);
  }

  /** WriteUint16LE of the addon: low byte then high byte, in place. */
  method WriteUint16LE(data: array<byte>, off: nat, value: nat)
    requires off + 2 <= data.Length && value < U16_LIMIT
    modifies data
    ensures data[..] == WriteU16(old(data[..]), off, value)
  {
    data[off] := value % 256;
    data[off + 1] := value / 256;
  }
}

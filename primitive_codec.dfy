/** Lossless conversion between fixed-width unsigned integers and their
    big-endian byte arrays (`primitives_impl!`), written once for any width of
    `nBytes` bytes and instantiated for `u32` and `u64`. The machine operations
    the source uses on the integer are spelled out on `nat`. */
module PrimitiveCodec {
  import opened BigEndian

  type U32 = x: nat | x < 0x1_0000_0000
  type U64 = x: nat | x < 0x1_0000_0000_0000_0000

  /** `x >> k`: the bits below position k fall off, one at a time. */
  function Shr(x: nat, k: nat): nat
  {
    if k == 0 then x else Shr(x / 2, k - 1)
  }

  /** `x << k` on a `width`-bit integer: bits pushed past the width are lost. */
  function Shl(x: nat, k: nat, width: nat): nat
  {
    (x * Pow2(k)) % Pow2(width)
  }

  /** `(x & 0xFF) as u8`: the lowest eight bits. */
  function LowByte(x: nat): Byte
  {
    x % 256
  }

  /** `a | b`: bitwise or, one binary digit at a time from the lowest. */
  function BitOr(a: nat, b: nat): nat
    decreases a + b
  {
    if a == 0 then b
    else if b == 0 then a
    else 2 * BitOr(a / 2, b / 2) + (if a % 2 == 1 || b % 2 == 1 then 1 else 0)
  }

  // ---------------------------------------------------------------------------
  // The generic codec

  /** `bytes_to_prim`: or-s each byte, shifted to its big-endian position, into
      an accumulator. */
  method BytesToPrim(nBytes: nat, bytes: seq<Byte>) returns (res: nat)
    requires |bytes| == nBytes
    ensures res == BE(bytes)
    ensures res < Pow2(8 * nBytes)
    ensures Encode(nBytes, res) == bytes
  {
    var nBits := nBytes * 8;
    res := 0;
    for i := 0 to nBytes
      invariant res == BE(bytes[..i]) * Pow2(nBits - 8 * i)
    {
      DecodeStep(bytes, i, nBits, res);
      res := BitOr(res, Shl(bytes[i], nBits - (i + 1) * 8, nBits));
    }
    assert bytes[..nBytes] == bytes;
    BEBound(bytes);
    EncodeBE(bytes);
  }

  /** `prim_to_bytes`: fills a zeroed array, byte i taking the eight bits of
      `val` at offset `N_BITS - (i + 1) * 8`. */
  method PrimToBytes(nBytes: nat, val: nat) returns (bytes: seq<Byte>)
    requires val < Pow2(8 * nBytes)
    ensures |bytes| == nBytes
    ensures forall i :: 0 <= i < nBytes ==> bytes[i] == LowByte(Shr(val, 8 * nBytes - (i + 1) * 8))
    ensures bytes == Encode(nBytes, val)
    ensures BE(bytes) == val
  {
    var nBits := nBytes * 8;
    var buf := new Byte[nBytes](_ => 0x0);
    for i := 0 to nBytes
      invariant forall k :: 0 <= k < i ==> buf[k] == Encode(nBytes, val)[k]
    {
      EncodeAt(nBytes, val, i);
      ShrDiv(val, nBits - (i + 1) * 8);
      buf[i] := LowByte(Shr(val, nBits - (i + 1) * 8));
    }
    bytes := buf[..];
    forall i | 0 <= i < nBytes
      ensures bytes[i] == LowByte(Shr(val, 8 * nBytes - (i + 1) * 8))
    {
      EncodeAt(nBytes, val, i);
      ShrDiv(val, 8 * nBytes - (i + 1) * 8);
    }
    DecodeEncode(nBytes, val);
  }

  // ---------------------------------------------------------------------------
  // The two instances

  method Bytes4ToU32(bytes: seq<Byte>) returns (val: U32)
    requires |bytes| == 4
    ensures val == BE(bytes)
    ensures Encode(4, val) == bytes
  {
    Pow2Widths();
    val := BytesToPrim(4, bytes);
  }

  method U32ToBytes4(val: U32) returns (bytes: seq<Byte>)
    ensures |bytes| == 4
    ensures BE(bytes) == val
    ensures bytes == Encode(4, val)
  {
    Pow2Widths();
    bytes := PrimToBytes(4, val);
  }

  method Bytes8ToU64(bytes: seq<Byte>) returns (val: U64)
    requires |bytes| == 8
    ensures val == BE(bytes)
    ensures Encode(8, val) == bytes
  {
    Pow2Widths();
    val := BytesToPrim(8, bytes);
  }

  method U64ToBytes8(val: U64) returns (bytes: seq<Byte>)
    ensures |bytes| == 8
    ensures BE(bytes) == val
    ensures bytes == Encode(8, val)
  {
    Pow2Widths();
    bytes := PrimToBytes(8, val);
  }

  /** The round trips of the unit tests, through the two instances themselves. */
  method U32RoundTrip(val: U32) returns (back: U32)
    ensures back == val
  {
    var bytes := U32ToBytes4(val);
    back := Bytes4ToU32(bytes);
  }

  method Bytes4RoundTrip(bytes: seq<Byte>) returns (back: seq<Byte>)
    requires |bytes| == 4
    ensures back == bytes
  {
    var val := Bytes4ToU32(bytes);
    back := U32ToBytes4(val);
  }

  method U64RoundTrip(val: U64) returns (back: U64)
    ensures back == val
  {
    var bytes := U64ToBytes8(val);
    back := Bytes8ToU64(bytes);
  }

  method Bytes8RoundTrip(bytes: seq<Byte>) returns (back: seq<Byte>)
    requires |bytes| == 8
    ensures back == bytes
  {
    var val := Bytes8ToU64(bytes);
    back := U64ToBytes8(val);
  }

  // ---------------------------------------------------------------------------
  // Properties

  /** Every value of the width survives encoding and decoding. */
  lemma {:induction false} DecodeEncode(nBytes: nat, val: nat)
    requires val < Pow2(8 * nBytes)
    ensures BE(Encode(nBytes, val)) == val
  {
    BEEncode(nBytes, val);
    DivModUnique(val, Pow2(8 * nBytes), 0, val);
  }

  /** Every byte array of the width survives decoding and encoding. */
  lemma {:induction false} EncodeDecode(bytes: seq<Byte>)
    ensures Encode(|bytes|, BE(bytes)) == bytes
    ensures BE(bytes) < Pow2(8 * |bytes|)
  {
    EncodeBE(bytes);
    BEBound(bytes);
  }

  /** Shifting right by k divides by 2^k. */
  lemma {:induction false} ShrDiv(x: nat, k: nat)
    ensures Shr(x, k) == x / Pow2(k)
  {
    if k > 0 {
      ShrDiv(x / 2, k - 1);
      DivHalf(x, Pow2(k - 1));
    }
  }

  /** Halving, then dividing by m, is dividing by 2 * m. */
  lemma {:induction false} DivHalf(v: nat, m: nat)
    requires m > 0
    ensures v / (2 * m) == (v / 2) / m
  {
    var q, r := v / 2, v % 2;
    var t, s := q / m, q % m;
    assert v == 2 * q + r;
    assert q == m * t + s;
    assert v == (2 * m) * t + (2 * s + r);
    DivModUnique(v, 2 * m, t, 2 * s + r);
  }

  /** Or-ing a value below 2^k into a multiple of 2^k adds it. */
  lemma {:induction false} OrDisjoint(hi: nat, lo: nat, k: nat)
    requires lo < Pow2(k)
    ensures BitOr(hi * Pow2(k), lo) == hi * Pow2(k) + lo
  {
    var a := hi * Pow2(k);
    if k == 0 {
      assert lo == 0;
    } else if a != 0 && lo != 0 {
      DivModUnique(a, 2, hi * Pow2(k - 1), 0);
      OrDisjoint(hi, lo / 2, k - 1);
    }
  }

  /** A byte shifted left by k stays below 2^(k + 8). */
  lemma {:induction false} ByteShiftBound(b: Byte, k: nat)
    ensures b * Pow2(k) < Pow2(k + 8)
  {
    Pow2Add(k, 8);
    Pow2Byte(0);
    MulAtLeast(Pow2(k), 256 - b);
  }

  /** A byte shifted left by k stays inside a width of at least k + 8 bits. */
  lemma {:induction false} ShlByte(b: Byte, k: nat, width: nat)
    requires k + 8 <= width
    ensures Shl(b, k, width) == b * Pow2(k)
  {
    ByteShiftBound(b, k);
    Pow2Add(k + 8, width - (k + 8));
    MulAtLeast(Pow2(k + 8), Pow2(width - (k + 8)));
    DivModUnique(b * Pow2(k), Pow2(width), 0, b * Pow2(k));
  }

  /** One step of `BytesToPrim`: or-ing the next byte at offset k extends the
      decoded prefix by that byte. */
  lemma {:induction false} DecodeStep(bytes: seq<Byte>, i: nat, width: nat, acc: nat)
    requires i < |bytes| && width == 8 * |bytes|
    requires acc == BE(bytes[..i]) * Pow2(width - 8 * i)
    ensures BitOr(acc, Shl(bytes[i], width - (i + 1) * 8, width)) == BE(bytes[..i + 1]) * Pow2(width - 8 * (i + 1))
  {
    var k := width - (i + 1) * 8;
    var b := bytes[i];
    var hi := BE(bytes[..i]);
    var p := Pow2(k);
    assert k + 8 == width - 8 * i;
    assert bytes[..i + 1][..i] == bytes[..i];
    assert BE(bytes[..i + 1]) == hi * 256 + b;
    ShlByte(b, k, width);
    ByteShiftBound(b, k);
    OrDisjoint(hi, b * p, k + 8);
    Pow2Add(k, 8);
    Pow2Byte(0);
    calc {
      BitOr(acc, Shl(b, k, width));
      BitOr(hi * Pow2(k + 8), b * p);
      hi * Pow2(k + 8) + b * p;
      { Rescale(hi, b, p); }
      (hi * 256 + b) * p;
      BE(bytes[..i + 1]) * p;
    }
  }

  /** Arithmetic step of `DecodeStep`, kept apart so that the nonlinear
      identity is proved without the rest of that proof in view. */
  lemma {:induction false} Rescale(hi: int, b: int, p: int)
    ensures hi * (p * 256) + b * p == (hi * 256 + b) * p
  {
  }

  /** The `u32` vectors of the unit tests. */
  lemma {:induction false} U32Vectors()
    ensures Encode(4, 0x0000_0000) == [0x00, 0x00, 0x00, 0x00]
    ensures Encode(4, 0xFFFF_FFFF) == [0xFF, 0xFF, 0xFF, 0xFF]
    ensures Encode(4, 0x0000_0001) == [0x00, 0x00, 0x00, 0x01]
    ensures Encode(4, 0x1234_5678) == [0x12, 0x34, 0x56, 0x78]
  {
    Encode4(0x00, 0x00, 0x00, 0x00);
    Encode4(0xFF, 0xFF, 0xFF, 0xFF);
    Encode4(0x00, 0x00, 0x00, 0x01);
    Encode4(0x12, 0x34, 0x56, 0x78);
  }

  /** The `u64` vectors of the unit tests: zero, the maximum, one, and a value
      whose bytes are all different. */
  lemma {:induction false} U64VectorZero()
    ensures Encode(8, 0x0000_0000_0000_0000) == [0x00, 0x00, 0x00, 0x00, 0x00, 0x00, 0x00, 0x00]
  {
    Encode8(0x00, 0x00, 0x00, 0x00, 0x00, 0x00, 0x00, 0x00);
  }

  lemma {:induction false} U64VectorMax()
    ensures Encode(8, 0xFFFF_FFFF_FFFF_FFFF) == [0xFF, 0xFF, 0xFF, 0xFF, 0xFF, 0xFF, 0xFF, 0xFF]
  {
    Encode8(0xFF, 0xFF, 0xFF, 0xFF, 0xFF, 0xFF, 0xFF, 0xFF);
  }

  lemma {:induction false} U64VectorOne()
    ensures Encode(8, 0x0000_0000_0000_0001) == [0x00, 0x00, 0x00, 0x00, 0x00, 0x00, 0x00, 0x01]
  {
    EncodeZero(7);
    assert Encode(8, 1) == Zeros(7) + [0x01];
    assert Zeros(7) == [0x00, 0x00, 0x00, 0x00, 0x00, 0x00, 0x00];
  }

  lemma {:induction false} U64VectorUnique()
    ensures Encode(8, 0x1234_5678_9ABC_DEF0) == [0x12, 0x34, 0x56, 0x78, 0x9A, 0xBC, 0xDE, 0xF0]
  {
    Encode8(0x12, 0x34, 0x56, 0x78, 0x9A, 0xBC, 0xDE, 0xF0);
  }

  /** A four-byte buffer is the encoding of its written-out value. */
  lemma {:induction false} Encode4(a: Byte, b: Byte, c: Byte, d: Byte)
    ensures Encode(4, BE4Value(a, b, c, d)) == [a, b, c, d]
  {
    BE4(a, b, c, d);
    EncodeBE([a, b, c, d]);
  }

  /** An eight-byte buffer is the encoding of its written-out value. */
  lemma {:induction false} Encode8(a: Byte, b: Byte, c: Byte, d: Byte, e: Byte, f: Byte, g: Byte, h: Byte)
    ensures Encode(8, BE4Value(a, b, c, d) * 0x1_0000_0000 + BE4Value(e, f, g, h)) == [a, b, c, d, e, f, g, h]
  {
    var hi: seq<Byte>, lo: seq<Byte> := [a, b, c, d], [e, f, g, h];
    assert hi + lo == [a, b, c, d, e, f, g, h];
    BE4(a, b, c, d);
    BE4(e, f, g, h);
    Pow2Widths();
    BEConcat(hi, lo);
    EncodeBE(hi + lo);
  }
}

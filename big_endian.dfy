/** Big-endian byte buffers and the unsigned integers they denote.
    Index 0 is the most significant byte; a buffer of n bytes denotes a value
    modulo 2^(8*n). */
module BigEndian {

  /** One `u8`. */
  type Byte = x: int | 0 <= x < 256

  function Pow2(k: nat): (r: nat)
    ensures r >= 1
  {
    if k == 0 then 1 else 2 * Pow2(k - 1)
  }

  /** The unsigned value of a big-endian buffer. */
  function BE(s: seq<Byte>): nat
  {
    if s == [] then 0 else BE(s[..|s| - 1]) * 256 + s[|s| - 1]
  }

  /** The n-byte big-endian buffer holding v modulo 2^(8*n). */
  function Encode(n: nat, v: nat): (r: seq<Byte>)
    ensures |r| == n
  {
    if n == 0 then [] else Encode(n - 1, v / 256) + [v % 256]
  }

  /** The all-zero buffer of n bytes. */
  function Zeros(n: nat): (r: seq<Byte>)
    ensures |r| == n && forall i :: 0 <= i < n ==> r[i] == 0
  {
    seq(n, _ => 0)
  }

  // ---------------------------------------------------------------------------
  // Arithmetic facts

  lemma {:induction false} Pow2Add(a: nat, b: nat)
    ensures Pow2(a + b) == Pow2(a) * Pow2(b)
  {
    if a > 0 {
      Pow2Add(a - 1, b);
      assert Pow2(a + b) == 2 * Pow2(a - 1 + b);
    }
  }

  /** One more byte of width multiplies the modulus by 256. */
  lemma {:induction false} Pow2Byte(k: nat)
    ensures Pow2(8 * (k + 1)) == 256 * Pow2(8 * k)
  {
    Pow2Add(8 * k, 8);
    assert Pow2(8) == 256;
  }

  /** Euclidean division is determined by quotient and remainder. */
  lemma {:induction false} DivModUnique(v: int, d: int, q: int, r: int)
    requires d > 0 && v == d * q + r && 0 <= r < d
    ensures v / d == q && v % d == r
  {
    var k := v / d - q;
    assert d * k == r - v % d by {
      assert v == d * (v / d) + v % d;
      assert d * (v / d) - d * q == d * k;
    }
    if k > 0 {
      MulAtLeast(d, k);
    } else if k < 0 {
      MulAtLeast(d, -k);
    }
  }

  lemma {:induction false} MulAtLeast(d: int, k: int)
    requires d > 0 && k >= 1
    ensures d * k >= d
  {
  }

  /** Dropping the low byte, then working modulo m, is working modulo 256*m. */
  lemma {:induction false} DivModByte(v: nat, m: nat)
    requires m > 0
    ensures v / (256 * m) == (v / 256) / m
    ensures v % (256 * m) == ((v / 256) % m) * 256 + v % 256
  {
    var q, r := v / 256, v % 256;
    var t, s := q / m, q % m;
    assert v == 256 * q + r;
    assert q == m * t + s;
    assert v == (256 * m) * t + (s * 256 + r) by {
      assert 256 * q == 256 * (m * t) + 256 * s;
    }
    assert s * 256 + r < 256 * m by {
      assert s <= m - 1;
      assert s * 256 <= (m - 1) * 256;
    }
    DivModUnique(v, 256 * m, t, s * 256 + r);
  }

  // ---------------------------------------------------------------------------
  // The value of a buffer

  /** A buffer of n bytes holds a value below 2^(8*n). */
  lemma {:induction false} BEBound(s: seq<Byte>)
    ensures BE(s) < Pow2(8 * |s|)
  {
    if s != [] {
      var p := s[..|s| - 1];
      BEBound(p);
      Pow2Byte(|p|);
      assert BE(p) * 256 <= (Pow2(8 * |p|) - 1) * 256;
    }
  }

  /** The value of a concatenation: the prefix is shifted past the suffix's bytes. */
  lemma {:induction false} BEConcat(p: seq<Byte>, q: seq<Byte>)
    ensures BE(p + q) == BE(p) * Pow2(8 * |q|) + BE(q)
  {
    if q == [] {
      assert p + q == p;
    } else {
      var q' := q[..|q| - 1];
      assert (p + q)[..|p + q| - 1] == p + q';
      BEConcat(p, q');
      Pow2Byte(|q'|);
      assert BE(q) == BE(q') * 256 + q[|q| - 1];
      ShiftByte(BE(p), Pow2(8 * |q'|), BE(q'), q[|q| - 1]);
    }
  }

  /** Arithmetic step of `BEConcat`, kept apart so that the nonlinear identity
      is proved without the rest of that proof in view. */
  lemma {:induction false} ShiftByte(hi: int, w: int, lo: int, b: int)
    ensures (hi * w + lo) * 256 + b == hi * (w * 256) + (lo * 256 + b)
  {
  }

  /** Splitting a buffer at byte i: the byte at i weighs 2^(8*(bytes after it)). */
  lemma {:induction false} BEAt(s: seq<Byte>, i: nat)
    requires i < |s|
    ensures BE(s[i..]) == s[i] * Pow2(8 * (|s| - i - 1)) + BE(s[i + 1..])
  {
    assert s[i..] == [s[i]] + s[i + 1..];
    BEConcat([s[i]], s[i + 1..]);
    assert BE([s[i]]) == s[i] by {
      assert [s[i]][..0] == [];
    }
  }

  /** The buffer is the whole prefix shifted past the suffix, plus the suffix. */
  lemma {:induction false} BESplit(s: seq<Byte>, i: nat)
    requires i <= |s|
    ensures BE(s) == BE(s[..i]) * Pow2(8 * (|s| - i)) + BE(s[i..])
  {
    assert s == s[..i] + s[i..];
    BEConcat(s[..i], s[i..]);
  }

  // ---------------------------------------------------------------------------
  // Encoding and decoding are inverse

  /** Decoding an encoding yields the value modulo 2^(8*n). */
  lemma {:induction false} BEEncode(n: nat, v: nat)
    ensures BE(Encode(n, v)) == v % Pow2(8 * n)
  {
    if n > 0 {
      var e := Encode(n, v);
      assert e[..n - 1] == Encode(n - 1, v / 256);
      BEEncode(n - 1, v / 256);
      Pow2Byte(n - 1);
      DivModByte(v, Pow2(8 * (n - 1)));
    }
  }

  /** Encoding the value of a buffer gives back the buffer. */
  lemma {:induction false} EncodeBE(s: seq<Byte>)
    ensures Encode(|s|, BE(s)) == s
  {
    if s != [] {
      var p, x := s[..|s| - 1], s[|s| - 1];
      DivModUnique(BE(s), 256, BE(p), x);
      EncodeBE(p);
      assert s == p + [x];
    }
  }

  /** Encoding keeps only the low 8*n bits. */
  lemma {:induction false} EncodeModulo(n: nat, v: nat)
    ensures Encode(n, v) == Encode(n, v % Pow2(8 * n))
  {
    EncodeBE(Encode(n, v));
    BEEncode(n, v);
  }

  /** A buffer is determined by its length and its value. */
  lemma {:induction false} BytesOfValue(s: seq<Byte>, v: nat)
    requires BE(s) == v % Pow2(8 * |s|)
    ensures s == Encode(|s|, v)
  {
    EncodeBE(s);
    EncodeModulo(|s|, v);
  }

  /** Byte i of an n-byte encoding is bits 8*(n-1-i) .. 8*(n-i) of the value. */
  lemma {:induction false} EncodeAt(n: nat, v: nat, i: nat)
    requires i < n
    ensures Encode(n, v)[i] == (v / Pow2(8 * (n - 1 - i))) % 256
  {
    if i < n - 1 {
      EncodeAt(n - 1, v / 256, i);
      Pow2Byte(n - 2 - i);
      DivModByte(v, Pow2(8 * (n - 2 - i)));
    }
  }

  /** Zero encodes as the all-zero buffer. */
  lemma {:induction false} EncodeZero(n: nat)
    ensures Encode(n, 0) == Zeros(n)
  {
    if n > 0 {
      EncodeZero(n - 1);
      assert Zeros(n) == Zeros(n - 1) + [0];
    }
  }

  /** The value of a two-byte buffer, written out. */
  lemma {:induction false} BE2(a: Byte, b: Byte)
    ensures BE([a, b]) == a * 0x100 + b
  {
    assert [a][..0] == [];
    assert BE([a]) == a;
    assert [a, b][..1] == [a];
    assert BE([a, b]) == BE([a]) * 256 + b;
  }

  function BE4Value(a: Byte, b: Byte, c: Byte, d: Byte): nat
  {
    a * 0x100_0000 + b * 0x1_0000 + c * 0x100 + d
  }

  /** The value of a four-byte buffer, written out. */
  lemma {:induction false} BE4(a: Byte, b: Byte, c: Byte, d: Byte)
    ensures BE([a, b, c, d]) == BE4Value(a, b, c, d)
  {
    assert [a, b, c, d][..3] == [a, b, c];
    assert [a, b, c][..2] == [a, b];
    BE2(a, b);
    assert BE([a, b, c]) == BE([a, b]) * 256 + c;
    assert BE([a, b, c, d]) == BE([a, b, c]) * 256 + d;
  }

  /** The moduli of the buffer widths used by the library. */
  lemma {:induction false} Pow2Widths()
    ensures Pow2(8) == 0x100
    ensures Pow2(16) == 0x1_0000
    ensures Pow2(32) == 0x1_0000_0000
    ensures Pow2(64) == 0x1_0000_0000_0000_0000
  {
    assert Pow2(8) == 0x100;
    Pow2Byte(1);
    Pow2Byte(2);
    Pow2Byte(3);
    Pow2Add(32, 32);
  }
}

/** In-place two's-complement arithmetic on caller-owned big-endian byte
    buffers (`&mut [u8]`). Every operation works modulo 2^(8*length): a carry
    out of the most significant byte is dropped. */
module TwosComplement {
  import opened BigEndian

  /** `u8::overflowing_add`: the wrapped sum and whether it wrapped. */
  function OverflowingAdd(a: Byte, b: Byte): (r: (Byte, bool))
    ensures r.0 == (a + b) % 256
    ensures r.1 <==> a + b >= 256
  {
    if a + b < 256 then (a + b, false) else (a + b - 256, true)
  }

  /** `!b` on a `u8`: every one of the eight bits flipped, which for an 8-bit
      value is 255 - b (see `NotFlipsBits`). */
  function Not(b: Byte): Byte
  {
    255 - b
  }

  /** Binary digit k of x. */
  function Bit(x: nat, k: nat): nat
  {
    if k == 0 then x % 2 else Bit(x / 2, k - 1)
  }

  /** `Not` flips each of the eight bits of a byte. */
  lemma {:induction false} NotFlipsBits(b: Byte, k: nat)
    requires k < 8
    ensures Bit(Not(b), k) == 1 - Bit(b, k)
  {
    assert Pow2(8) == 256;
    FlipBits(8, b, k);
  }

  /** Below 2^n, subtracting from 2^n - 1 flips each of the n low bits. */
  lemma {:induction false} FlipBits(n: nat, x: nat, k: nat)
    requires x < Pow2(n) && k < n
    ensures Bit(Pow2(n) - 1 - x, k) == 1 - Bit(x, k)
  {
    var y := Pow2(n) - 1 - x;
    assert y == 2 * (Pow2(n - 1) - 1 - x / 2) + (1 - x % 2);
    DivModUnique(y, 2, Pow2(n - 1) - 1 - x / 2, 1 - x % 2);
    if k > 0 {
      FlipBits(n - 1, x / 2, k - 1);
    }
  }

  /** The buffer with every bit flipped. */
  function Inverted(s: seq<Byte>): (r: seq<Byte>)
    ensures |r| == |s|
  {
    seq(|s|, i requires 0 <= i < |s| => Not(s[i]))
  }

  /** Reference meaning of negation: 2^(8n) - v, reduced to n bytes. */
  function Negated(s: seq<Byte>): (r: seq<Byte>)
    ensures |r| == |s|
  {
    BEBound(s);
    Encode(|s|, Pow2(8 * |s|) - BE(s))
  }

  /** Reference meaning of addition: the sum reduced to n bytes. */
  function Sum(a: seq<Byte>, b: seq<Byte>): (r: seq<Byte>)
    requires |a| == |b|
    ensures |r| == |a|
  {
    Encode(|a|, BE(a) + BE(b))
  }

  // ---------------------------------------------------------------------------
  // The operations on buffers

  /** Adds one byte into `lhs`, carrying from the last byte toward the first and
      stopping as soon as the carry is zero; reports whether a carry fell off the
      front. Panics on an empty buffer. */
  method BytesAddByte(lhs: array<Byte>, rhs: Byte) returns (overflow: bool)
    requires lhs.Length >= 1
    modifies lhs
    ensures BE(lhs[..]) == (BE(old(lhs[..])) + rhs) % Pow2(8 * lhs.Length)
    ensures lhs[..] == Encode(lhs.Length, BE(old(lhs[..])) + rhs)
    ensures overflow <==> BE(old(lhs[..])) + rhs >= Pow2(8 * lhs.Length)
  {
    ghost var orig := lhs[..];
    var n := lhs.Length;
    var carry: Byte := rhs;
    var i := n;
    while i > 0
      invariant 0 <= i <= n
      invariant lhs[..i] == orig[..i]
      invariant BE(lhs[..][i..]) + carry * Pow2(8 * (n - i)) == BE(orig[i..]) + rhs
    {
      if carry == 0 {
        AddDone(orig, lhs[..], i, 0, rhs);
        return false;
      }
      ghost var before := lhs[..];
      i := i - 1;
      assert lhs[i] == orig[i] by { assert lhs[..i + 1][i] == orig[..i + 1][i]; }
      var (res, ovfl) := OverflowingAdd(lhs[i], carry);
      lhs[i] := res;
      ghost var cin := carry;
      carry := if ovfl then 1 else 0;
      CarryStep(before, lhs[..], orig, i, cin, carry, 0, rhs, rhs);
    }
    AddDone(orig, lhs[..], 0, carry, rhs);
    overflow := carry != 0;
  }

  /** Flips every bit of every byte. */
  method InvertBytes(bytes: array<Byte>)
    modifies bytes
    ensures bytes[..] == Inverted(old(bytes[..]))
    ensures BE(bytes[..]) == Pow2(8 * bytes.Length) - 1 - BE(old(bytes[..]))
  {
    for i := 0 to bytes.Length
      invariant bytes[..i] == Inverted(old(bytes[..]))[..i]
      invariant bytes[i..] == old(bytes[i..])
    {
      bytes[i] := Not(bytes[i]);
    }
    BEInverted(old(bytes[..]));
  }

  /** Two's-complement negation in place: flip every bit, then add one. */
  method NegateBytes(bytes: array<Byte>)
    requires bytes.Length >= 1
    modifies bytes
    ensures bytes[..] == Negated(old(bytes[..]))
    ensures BE(bytes[..]) == (Pow2(8 * bytes.Length) - BE(old(bytes[..]))) % Pow2(8 * bytes.Length)
  {
    InvertBytes(bytes);
    var _ := BytesAddByte(bytes, 1);
  }

  /** Adds `rhs` into `lhs` byte by byte from the last to the first, with a carry
      of at most one; the carry out of the first byte is dropped. Panics when
      the lengths differ. */
  method BytesAddBytes(lhs: array<Byte>, rhs: array<Byte>)
    requires lhs.Length == rhs.Length
    requires lhs != rhs
    modifies lhs
    ensures rhs[..] == old(rhs[..])
    ensures BE(lhs[..]) == (BE(old(lhs[..])) + BE(rhs[..])) % Pow2(8 * lhs.Length)
    ensures lhs[..] == Sum(old(lhs[..]), rhs[..])
  {
    ghost var orig, r := lhs[..], rhs[..];
    var n := lhs.Length;
    var carry: Byte := 0;
    var i := n;
    while i > 0
      invariant 0 <= i <= n
      invariant carry <= 1
      invariant lhs[..i] == orig[..i]
      invariant BE(lhs[..][i..]) + carry * Pow2(8 * (n - i)) == BE(orig[i..]) + BE(r[i..])
    {
      ghost var before := lhs[..];
      i := i - 1;
      assert lhs[i] == orig[i] by { assert lhs[..i + 1][i] == orig[..i + 1][i]; }
      var (res1, carry1) := OverflowingAdd(lhs[i], carry);
      var (res2, carry2) := OverflowingAdd(res1, rhs[i]);
      CarryAtMostOne(lhs[i], carry, rhs[i]);
      assert !(carry1 && carry2);
      lhs[i] := res2;
      ghost var cin := carry;
      carry := if carry1 || carry2 then 1 else 0;
      BEAt(r, i);
      CarryStep(before, lhs[..], orig, i, cin, carry, r[i], BE(r[i + 1..]), BE(r[i..]));
    }
    AddDone(orig, lhs[..], 0, carry, BE(r));
  }

  // ---------------------------------------------------------------------------
  // Proof steps of the carry loops

  /** One step of a carry loop at byte i: when the stored byte and the carry out
      make up the column sum `orig[i] + cin + d`, the running equation over the
      processed suffix extends by one byte. */
  lemma {:induction false} CarryStep(before: seq<Byte>, cur: seq<Byte>, orig: seq<Byte>, i: nat,
                  cin: nat, cout: nat, d: nat, tail: nat, total: nat)
    requires |before| == |cur| == |orig| && i < |cur|
    requires cur == before[i := cur[i]]
    requires BE(before[i + 1..]) + cin * Pow2(8 * (|cur| - i - 1)) == BE(orig[i + 1..]) + tail
    requires cur[i] + 256 * cout == orig[i] + cin + d
    requires total == d * Pow2(8 * (|cur| - i - 1)) + tail
    ensures BE(cur[i..]) + cout * Pow2(8 * (|cur| - i)) == BE(orig[i..]) + total
  {
    assert cur[i + 1..] == before[i + 1..];
    var q := Pow2(8 * (|cur| - i - 1));
    BEAt(cur, i);
    BEAt(orig, i);
    Pow2Byte(|cur| - i - 1);
    assert |cur| - i == (|cur| - i - 1) + 1;
    assert cout * Pow2(8 * (|cur| - i)) == (256 * cout) * q;
    Distribute(cur[i], 256 * cout, 0, q);
    Distribute(orig[i], cin, d, q);
  }

  /** Arithmetic step of `CarryStep`, kept apart so that the nonlinear
      identity is proved without the rest of that proof in view. */
  lemma {:induction false} Distribute(x: int, y: int, z: int, q: int)
    ensures (x + y + z) * q == x * q + y * q + z * q
  {
  }

  /** When the carry loop ends with the first i bytes untouched, the buffer holds
      the sum modulo 2^(8n), and the carry is what fell off the front. */
  lemma {:induction false} AddDone(orig: seq<Byte>, cur: seq<Byte>, i: nat, c: nat, addend: nat)
    requires |cur| == |orig| && i <= |cur|
    requires i == 0 || c == 0
    requires cur[..i] == orig[..i]
    requires BE(cur[i..]) + c * Pow2(8 * (|cur| - i)) == BE(orig[i..]) + addend
    ensures BE(cur) == (BE(orig) + addend) % Pow2(8 * |cur|)
    ensures cur == Encode(|cur|, BE(orig) + addend)
    ensures c == 0 <==> BE(orig) + addend < Pow2(8 * |cur|)
  {
    if i == 0 {
      assert cur[i..] == cur && orig[i..] == orig;
    } else {
      UntouchedPrefix(orig, cur, i, addend);
    }
    WrapAround(orig, cur, c, addend);
  }

  lemma {:induction false} UntouchedPrefix(orig: seq<Byte>, cur: seq<Byte>, i: nat, addend: nat)
    requires |cur| == |orig| && i <= |cur|
    requires cur[..i] == orig[..i]
    requires BE(cur[i..]) == BE(orig[i..]) + addend
    ensures BE(cur) == BE(orig) + addend
  {
    BESplit(cur, i);
    BESplit(orig, i);
  }

  lemma {:induction false} WrapAround(orig: seq<Byte>, cur: seq<Byte>, c: nat, addend: nat)
    requires |cur| == |orig|
    requires BE(cur) + c * Pow2(8 * |cur|) == BE(orig) + addend
    ensures BE(cur) == (BE(orig) + addend) % Pow2(8 * |cur|)
    ensures c == 0 <==> BE(orig) + addend < Pow2(8 * |cur|)
    ensures cur == Encode(|cur|, BE(orig) + addend)
  {
    BEBound(cur);
    CarryOut(BE(orig) + addend, Pow2(8 * |cur|), c, BE(cur));
    BytesOfValue(cur, BE(orig) + addend);
  }

  /** A sum split into a part below the modulus and a carry multiple of it. */
  lemma {:induction false} CarryOut(total: nat, m: nat, c: nat, low: nat)
    requires m > 0 && low < m && low + c * m == total
    ensures low == total % m
    ensures c == 0 <==> total < m
  {
    if c > 0 {
      MulAtLeast(m, c);
    }
    DivModUnique(total, m, c, low);
  }

  /** Flipping every bit of an n-byte buffer maps v to 2^(8n) - 1 - v. */
  lemma {:induction false} BEInverted(s: seq<Byte>)
    ensures BE(Inverted(s)) == Pow2(8 * |s|) - 1 - BE(s)
  {
    if s != [] {
      var p := s[..|s| - 1];
      assert Inverted(s)[..|s| - 1] == Inverted(p);
      BEInverted(p);
      Pow2Byte(|p|);
    }
  }

  // ---------------------------------------------------------------------------
  // Properties of the reference definitions

  /** In each step of `BytesAddBytes` at most one of the two byte additions
      wraps, so the carry into the next byte is 0 or 1. */
  lemma {:induction false} CarryAtMostOne(l: Byte, carry: Byte, r: Byte)
    requires carry <= 1
    ensures var (res1, carry1) := OverflowingAdd(l, carry);
            var (_, carry2) := OverflowingAdd(res1, r);
            !(carry1 && carry2)
  {
  }

  /** Addition does not depend on the order of the operands. */
  lemma {:induction false} SumCommutes(a: seq<Byte>, b: seq<Byte>)
    requires |a| == |b|
    ensures Sum(a, b) == Sum(b, a)
  {
  }

  /** `BytesAddByte` stops once the carry is zero: when the addition already
      fits in the last |s| - k bytes, the first k bytes keep their old values. */
  lemma {:induction false} AddKeepsPrefix(s: seq<Byte>, x: nat, k: nat)
    requires k <= |s|
    requires BE(s[k..]) + x < Pow2(8 * (|s| - k))
    ensures Encode(|s|, BE(s) + x)[..k] == s[..k]
  {
    var m := |s| - k;
    var lo := BE(s[k..]) + x;
    var c := s[..k] + Encode(m, lo);
    assert BE(c) == BE(s) + x by {
      BEConcat(s[..k], Encode(m, lo));
      BEEncode(m, lo);
      DivModUnique(lo, Pow2(8 * m), 0, lo);
      BESplit(s, k);
    }
    BEBound(c);
    DivModUnique(BE(c), Pow2(8 * |c|), 0, BE(c));
    BytesOfValue(c, BE(s) + x);
    assert c[..k] == s[..k];
  }

  /** The all-zero buffer is the identity of the addition. */
  lemma {:induction false} SumZeroLeft(b: seq<Byte>)
    ensures Sum(Zeros(|b|), b) == b
  {
    BEEncode(|b|, 0);
    EncodeZero(|b|);
    EncodeBE(b);
  }

  /** Negating twice restores the buffer. */
  lemma {:induction false} NegatedInvolutive(s: seq<Byte>)
    ensures Negated(Negated(s)) == s
  {
    var n, m, v := |s|, Pow2(8 * |s|), BE(s);
    BEBound(s);
    BEEncode(n, m - v);
    EncodeBE(s);
    if v == 0 {
      DivModUnique(m, m, 1, 0);
      EncodeModulo(n, m);
    } else {
      DivModUnique(m - v, m, 0, m - v);
    }
  }

  /** A buffer plus its negation is the all-zero buffer. */
  lemma {:induction false} AddNegatedIsZero(a: seq<Byte>)
    ensures Sum(a, Negated(a)) == Zeros(|a|)
  {
    var n, m, v := |a|, Pow2(8 * |a|), BE(a);
    BEBound(a);
    BEEncode(n, m - v);
    DivModUnique(m, m, 1, 0);
    if v != 0 {
      DivModUnique(m - v, m, 0, m - v);
    }
    EncodeModulo(n, m);
    EncodeZero(n);
  }

  /** Zero is its own negation. */
  lemma {:induction false} NegatedZero(n: nat)
    ensures Negated(Zeros(n)) == Zeros(n)
  {
    var m := Pow2(8 * n);
    EncodeZero(n);
    BEEncode(n, 0);
    assert BE(Zeros(n)) == 0;
    assert Negated(Zeros(n)) == Encode(n, m);
    DivModUnique(m, m, 1, 0);
    EncodeModulo(n, m);
  }

  /** The negation vectors of the unit tests. */
  lemma {:induction false} NegatedVectors()
    ensures Negated([0x00]) == [0x00]
    ensures Negated([0x00, 0x01]) == [0xFF, 0xFF]
    ensures Negated([0xFF, 0xFF]) == [0x00, 0x01]
    ensures Negated([0x00, 0x2A]) == [0xFF, 0xD6]
  {
    NegatedZero(1);
    assert Zeros(1) == [0x00];
    Pow2Widths();
    BE2(0x00, 0x01);
    BE2(0xFF, 0xFF);
    BE2(0x00, 0x2A);
    BE2(0xFF, 0xD6);
    BytesOfValue([0xFF, 0xFF], 0x1_0000 - 0x0001);
    BytesOfValue([0x00, 0x01], 0x1_0000 - 0xFFFF);
    BytesOfValue([0xFF, 0xD6], 0x1_0000 - 0x002A);
  }

  // The addition vectors of the unit tests; each holds in both operand orders.

  lemma {:induction false} SumVectorZero()
    ensures Sum([0x00, 0x00, 0x00, 0x00], [0x00, 0x00, 0x00, 0x00]) == [0x00, 0x00, 0x00, 0x00]
  {
    var z: seq<Byte> := [0x00, 0x00, 0x00, 0x00];
    assert z == Zeros(4);
    SumZeroLeft(z);
  }

  lemma {:induction false} SumVectorSmall()
    ensures Sum([0x00, 0x00, 0x00, 0x00], [0x00, 0x00, 0x00, 0x42]) == [0x00, 0x00, 0x00, 0x42]
    ensures Sum([0x00, 0x00, 0x00, 0x42], [0x00, 0x00, 0x00, 0x00]) == [0x00, 0x00, 0x00, 0x42]
  {
    var z: seq<Byte> := [0x00, 0x00, 0x00, 0x00];
    var b: seq<Byte> := [0x00, 0x00, 0x00, 0x42];
    assert z == Zeros(4);
    SumZeroLeft(b);
    SumCommutes(z, b);
  }

  lemma {:induction false} SumVectorWrap()
    ensures Sum([0xFF, 0xFF, 0xFF, 0xFF], [0x00, 0x00, 0x00, 0x01]) == [0x00, 0x00, 0x00, 0x00]
    ensures Sum([0x00, 0x00, 0x00, 0x01], [0xFF, 0xFF, 0xFF, 0xFF]) == [0x00, 0x00, 0x00, 0x00]
  {
    var a: seq<Byte> := [0xFF, 0xFF, 0xFF, 0xFF];
    var b: seq<Byte> := [0x00, 0x00, 0x00, 0x01];
    var c: seq<Byte> := [0x00, 0x00, 0x00, 0x00];
    assert Sum(a, b) == c by {
      assert BE(a) == 0xFFFF_FFFF by { BE4(0xFF, 0xFF, 0xFF, 0xFF); }
      assert BE(b) == 0x0000_0001 by { BE4(0x00, 0x00, 0x00, 0x01); }
      assert BE(c) == 0x0000_0000 by { BE4(0x00, 0x00, 0x00, 0x00); }
      assert (BE(a) + BE(b)) % Pow2(32) == BE(c) by {
        Pow2Widths();
        DivModUnique(0x1_0000_0000, 0x1_0000_0000, 1, 0);
      }
      SumOfValues(a, b, c);
    }
    SumCommutes(a, b);
  }

  lemma {:induction false} SumVectorMax()
    ensures Sum([0x00, 0x00, 0x00, 0x00], [0xFF, 0xFF, 0xFF, 0xFF]) == [0xFF, 0xFF, 0xFF, 0xFF]
    ensures Sum([0xFF, 0xFF, 0xFF, 0xFF], [0x00, 0x00, 0x00, 0x00]) == [0xFF, 0xFF, 0xFF, 0xFF]
  {
    var z: seq<Byte> := [0x00, 0x00, 0x00, 0x00];
    var m: seq<Byte> := [0xFF, 0xFF, 0xFF, 0xFF];
    assert z == Zeros(4);
    SumZeroLeft(m);
    SumCommutes(z, m);
  }

  lemma {:induction false} SumVectorMixed()
    ensures Sum([0x12, 0x34, 0x56, 0x78], [0x9A, 0xBC, 0xDE, 0xF0]) == [0xAC, 0xF1, 0x35, 0x68]
    ensures Sum([0x9A, 0xBC, 0xDE, 0xF0], [0x12, 0x34, 0x56, 0x78]) == [0xAC, 0xF1, 0x35, 0x68]
  {
    var a: seq<Byte> := [0x12, 0x34, 0x56, 0x78];
    var b: seq<Byte> := [0x9A, 0xBC, 0xDE, 0xF0];
    var c: seq<Byte> := [0xAC, 0xF1, 0x35, 0x68];
    assert Sum(a, b) == c by {
      assert BE(a) == 0x1234_5678 by { BE4(0x12, 0x34, 0x56, 0x78); }
      assert BE(b) == 0x9ABC_DEF0 by { BE4(0x9A, 0xBC, 0xDE, 0xF0); }
      assert BE(c) == 0xACF1_3568 by { BE4(0xAC, 0xF1, 0x35, 0x68); }
      assert (BE(a) + BE(b)) % Pow2(32) == BE(c) by {
        Pow2Widths();
        DivModUnique(0xACF1_3568, 0x1_0000_0000, 0, 0xACF1_3568);
      }
      SumOfValues(a, b, c);
    }
    SumCommutes(a, b);
  }

  /** A sum is settled by the values of its operands and of the result. */
  lemma {:induction false} SumOfValues(a: seq<Byte>, b: seq<Byte>, c: seq<Byte>)
    requires |a| == |b| == |c|
    requires BE(c) == (BE(a) + BE(b)) % Pow2(8 * |c|)
    ensures Sum(a, b) == c
  {
    var v := BE(a) + BE(b);
    var e := Encode(|a|, v);
    assert Sum(a, b) == e;
    BytesOfValue(c, v);
  }
}

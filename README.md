# Byte utilities of `pdsl_core`, modelled in Dafny

This project models `pdsl_core/src/byte_utils.rs`, a small library of fixed-width,
big-endian byte-buffer arithmetic. It has three parts:

- **Two's-complement arithmetic in place** (`twos_complement.dfy`).
  - `bytes_add_byte` adds one byte into a buffer, carrying toward the front, and reports the overflow.
  - `invert_bytes` flips every bit.
  - `negate_bytes` inverts and then adds one.
  - `bytes_add_bytes` adds two equal-length buffers modulo 2^(8·len).

  Each is a method on an `array<Byte>` with the source's loop. Its contract ties the array's new
  contents to a reference function:
  - `Sum` is the sum reduced to n bytes.
  - `Negated` is 2^(8n) − v reduced to n bytes.
  - `Inverted` flips the bits of every byte.

  The algebraic facts are then proved about those functions: commutativity, the identity, negation
  as an involution and as an additive inverse. Concrete lemmas restate the source's own test vectors.
- **The length-checked fixed-size view** (`slice_view.dfy`). `slice4_as_array4` and
  `slice8_as_array8` return `Some` exactly when the slice has the right length.
- **The big-endian primitive codec** (`primitive_codec.dfy`).
  - `bytes4_to_u32`, `u32_to_bytes4`, `bytes8_to_u64` and `u64_to_bytes8` are one generic routine
    over a width of `nBytes` bytes, with its two instances.
  - The machine operations `>>`, `<<`, `& 0xFF` and `|` are spelled out on `nat`.
  - The accumulation loop and the buffer-filling loop are proved against the big-endian value `BE`
    and its inverse `Encode`, from `big_endian.dfy`.

`big_endian.dfy` holds the shared vocabulary:
- `Byte` is the integers 0..255.
- `BE` is the value of a buffer, with index 0 the most significant byte.
- `Encode(n, v)` is the n-byte buffer holding v mod 2^(8n).
- It also has the lemmas that make the two inverse to each other.

## Model

| member | source | states |
|---|---|---|
| TwosComplement.OverflowingAdd | pdsl_core/src/byte_utils.rs:23 | `u8::overflowing_add`: the stored byte is (a + b) mod 256, and the flag is set exactly when a + b ≥ 256 |
| TwosComplement.NotFlipsBits | pdsl_core/src/byte_utils.rs:33 | `!b` on a byte, modelled as 255 − b, flips each of the eight bits |
| TwosComplement.BytesAddByte | pdsl_core/src/byte_utils.rs:16-28 | on a non-empty buffer, the new value is (old value + rhs) mod 2^(8n); the new bytes are the n-byte encoding of that sum; the result is true exactly when old value + rhs ≥ 2^(8n) |
| TwosComplement.AddKeepsPrefix | pdsl_core/src/byte_utils.rs:19-22 | the early exit keeps the front: when the sum already fits in the last n − k bytes, the first k bytes of the result are the old ones |
| TwosComplement.InvertBytes | pdsl_core/src/byte_utils.rs:31-35 | every byte becomes its bitwise complement, and the buffer's value v becomes 2^(8n) − 1 − v |
| TwosComplement.BEInverted | pdsl_core/src/byte_utils.rs:31-35 | flipping every bit of an n-byte buffer maps its value v to 2^(8n) − 1 − v |
| TwosComplement.NegateBytes | pdsl_core/src/byte_utils.rs:40-43 | on a non-empty buffer, invert then add one leaves the two's-complement negation: value (2^(8n) − v) mod 2^(8n), bytes `Negated(old)` |
| TwosComplement.BytesAddBytes | pdsl_core/src/byte_utils.rs:67-77 | for equal lengths, lhs becomes (lhs + rhs) mod 2^(8n), byte for byte `Sum(old lhs, rhs)`, and rhs is unchanged; the `debug_assert!` that both partial additions never overflow together is proved in the loop |
| TwosComplement.CarryAtMostOne | pdsl_core/src/byte_utils.rs:71-75 | with a carry of at most one, the two byte additions of a step never both overflow, so the next carry is 0 or 1 |
| TwosComplement.SumCommutes | pdsl_core/src/byte_utils.rs:163-167 | swapping the operands of the addition gives the same bytes |
| TwosComplement.SumZeroLeft | pdsl_core/src/byte_utils.rs:169-192 | adding the all-zero buffer leaves any buffer as it is |
| TwosComplement.SumOfValues | pdsl_core/src/byte_utils.rs:64-77 | the result of the addition is the buffer whose value is the operands' sum mod 2^(8n) |
| TwosComplement.NegatedInvolutive | pdsl_core/src/byte_utils.rs:37-43 | negating twice gives back the original buffer |
| TwosComplement.AddNegatedIsZero | pdsl_core/src/byte_utils.rs:37-43 | a buffer plus its negation is the all-zero buffer |
| TwosComplement.NegatedZero | pdsl_core/src/byte_utils.rs:127-128 | zero of any width is its own negation |
| TwosComplement.NegatedVectors | pdsl_core/src/byte_utils.rs:127-139 | negation test vectors: [00]→[00], [00,01]→[FF,FF], [FF,FF]→[00,01], [00,2A]→[FF,D6] |
| TwosComplement.SumVectorZero | pdsl_core/src/byte_utils.rs:169-174 | 0 + 0 == 0 on four bytes |
| TwosComplement.SumVectorSmall | pdsl_core/src/byte_utils.rs:175-180 | 0 + 0x42 == 0x42, in both operand orders |
| TwosComplement.SumVectorWrap | pdsl_core/src/byte_utils.rs:181-186 | u32::MAX + 1 wraps to 0, in both operand orders |
| TwosComplement.SumVectorMax | pdsl_core/src/byte_utils.rs:187-192 | 0 + u32::MAX == u32::MAX, in both operand orders |
| TwosComplement.SumVectorMixed | pdsl_core/src/byte_utils.rs:193-198 | 0x12345678 + 0x9ABCDEF0 == 0xACF13568, in both operand orders |
| SliceView.SliceAsArray | pdsl_core/src/byte_utils.rs:45-59 | `None` exactly when the slice's length is not N; otherwise `Some` of N elements equal to the slice's, in order |
| SliceView.Slice4AsArray4 | pdsl_core/src/byte_utils.rs:61 | the instance for N = 4: `None` iff the length is not 4, else the slice itself |
| SliceView.Slice8AsArray8 | pdsl_core/src/byte_utils.rs:62 | the instance for N = 8: `None` iff the length is not 8, else the slice itself |
| SliceView.SliceAsArrayVectors | pdsl_core/src/byte_utils.rs:143-149 | lengths 0, 5 and 3 give `None`; [1,2,3,4] gives `Some([1,2,3,4])` |
| PrimitiveCodec.BytesToPrim | pdsl_core/src/byte_utils.rs:87-95 | or-ing each byte shifted to `N_BITS − (i+1)·8` yields the big-endian value of the bytes; it is below 2^(8n) and encodes back to the same bytes |
| PrimitiveCodec.PrimToBytes | pdsl_core/src/byte_utils.rs:98-106 | byte i is `(val >> (N_BITS − (i+1)·8)) & 0xFF`; the buffer is the big-endian encoding of val, and its value is val |
| PrimitiveCodec.Bytes4ToU32 | pdsl_core/src/byte_utils.rs:110 | `bytes4_to_u32`: the big-endian value of four bytes, which encodes back to them |
| PrimitiveCodec.U32ToBytes4 | pdsl_core/src/byte_utils.rs:110 | `u32_to_bytes4`: the four-byte big-endian encoding, whose value is val |
| PrimitiveCodec.Bytes8ToU64 | pdsl_core/src/byte_utils.rs:111 | `bytes8_to_u64`: the big-endian value of eight bytes, which encodes back to them |
| PrimitiveCodec.U64ToBytes8 | pdsl_core/src/byte_utils.rs:111 | `u64_to_bytes8`: the eight-byte big-endian encoding, whose value is val |
| PrimitiveCodec.U32RoundTrip | pdsl_core/src/byte_utils.rs:204 | `bytes4_to_u32(&u32_to_bytes4(val)) == val` for every u32 |
| PrimitiveCodec.Bytes4RoundTrip | pdsl_core/src/byte_utils.rs:205 | `u32_to_bytes4(bytes4_to_u32(&bytes)) == bytes` for every four bytes |
| PrimitiveCodec.U64RoundTrip | pdsl_core/src/byte_utils.rs:229 | `bytes8_to_u64(&u64_to_bytes8(val)) == val` for every u64 |
| PrimitiveCodec.Bytes8RoundTrip | pdsl_core/src/byte_utils.rs:230 | `u64_to_bytes8(bytes8_to_u64(&bytes)) == bytes` for every eight bytes |
| PrimitiveCodec.DecodeEncode | pdsl_core/src/byte_utils.rs:87-106 | every value below 2^(8n) survives encoding then decoding |
| PrimitiveCodec.EncodeDecode | pdsl_core/src/byte_utils.rs:87-106 | every n-byte buffer survives decoding then encoding, and its value is below 2^(8n) |
| PrimitiveCodec.DecodeStep | pdsl_core/src/byte_utils.rs:91-93 | one iteration of the or-accumulation extends the decoded prefix by the next byte |
| PrimitiveCodec.OrDisjoint | pdsl_core/src/byte_utils.rs:92 | or-ing a value below 2^k into a multiple of 2^k adds it, which is why `|=` accumulates the bytes |
| PrimitiveCodec.ShlByte | pdsl_core/src/byte_utils.rs:92 | a byte shifted left inside the width loses no bits |
| PrimitiveCodec.ShrDiv | pdsl_core/src/byte_utils.rs:103 | `x >> k` is x divided by 2^k |
| BigEndian.EncodeAt | pdsl_core/src/byte_utils.rs:103 | byte i of an n-byte big-endian encoding is bits 8(n−1−i) to 8(n−i) of the value |
| PrimitiveCodec.U32Vectors | pdsl_core/src/byte_utils.rs:208-223 | `u32_to_bytes4` of 0, u32::MAX, 1 and 0x12345678 gives the listed bytes |
| PrimitiveCodec.U64VectorZero | pdsl_core/src/byte_utils.rs:233-240 | `u64_to_bytes8(0)` is eight zero bytes |
| PrimitiveCodec.U64VectorMax | pdsl_core/src/byte_utils.rs:241-248 | `u64_to_bytes8(u64::MAX)` is eight 0xFF bytes |
| PrimitiveCodec.U64VectorOne | pdsl_core/src/byte_utils.rs:249-256 | `u64_to_bytes8(1)` is seven zero bytes and then 0x01 |
| PrimitiveCodec.U64VectorUnique | pdsl_core/src/byte_utils.rs:257-264 | `u64_to_bytes8(0x123456789ABCDEF0)` is [12,34,56,78,9A,BC,DE,F0] |

## Left out

- The `unsafe` `transmute` in the slice view returns a reference to the same storage. The model returns the sequence of the slice's elements, which is all a caller can observe; zero-copy aliasing is not modelled.
- The macros (`macro_rules!`, `size_of`) are not expanded. The codec is one routine over a width of `nBytes` bytes, and the four named functions are its instances for 4 and 8 bytes.
- Panics are not modelled as behaviour. The `assert!` in `bytes_add_byte` and the `assert_eq!` in `bytes_add_bytes` become `requires` clauses. The `&[u8; N]` parameter of the decoders becomes `requires |bytes| == N`. The `debug_assert!` in `bytes_add_bytes` is an `assert` the proof discharges.
- TwosComplement.BytesAddBytes: requires `lhs != rhs`. In the source, Rust's borrow rules forbid passing the same slice as `&mut` and `&`, so aliased operands cannot occur.
- Bytes are the integers 0..255 rather than a machine type. `!b` is 255 − b, and `NotFlipsBits` proves that this flips each of the eight bits. The codec's `u32`/`u64` are subset types of `nat` below 2^32 and 2^64, and `<<` discards bits past the width explicitly.
- The test harness (`Vec` copies, `assert_eq!`) is not modelled. Its concrete vectors are lemmas on the reference functions `Sum`, `Negated` and `Encode`, which the methods' contracts are stated in. The round-trip checks are small methods calling the codec methods.
- The file does no I/O and uses no concurrency or floating point.

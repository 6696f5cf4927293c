/** Machine integers and the little-endian 32-bit words of the RCON wire format.
    Rust's `i32`, `u8` and the `as usize` cast are written out explicitly here,
    since Dafny's integers are unbounded. */
module Wire {

  const TWO_32: int := 0x1_0000_0000
  const TWO_64: int := 0x1_0000_0000_0000_0000

  type byte = b: int | 0 <= b < 256
  type int32 = x: int | -0x8000_0000 <= x < 0x8000_0000

  /** Rust's unsigned integer types, as far as the model stores them; `u8` is
      another name for `byte`, and `usize` is that of a 64-bit target. */
  type u8 = byte
  type u32 = x: int | 0 <= x < TWO_32
  type u64 = x: int | 0 <= x < TWO_64
  type usize = u64

  /** The unsigned 32-bit reading of an `i32` (two's complement). */
  function ToU32(x: int32): (u: nat)
    ensures u < TWO_32
    ensures x >= 0 ==> u == x
    ensures x < 0 ==> u == x + TWO_32
  {
    if x < 0 then x + TWO_32 else x
  }

  /** `i32::wrapping_add`: the mathematical sum brought back into the `i32` range. */
  function WrappingAdd(x: int32, y: int32): (z: int32)
    ensures (z - (x + y)) % TWO_32 == 0
  {
    var s := x + y;
    if s >= 0x8000_0000 then s - TWO_32
    else if s < -0x8000_0000 then s + TWO_32
    else s
  }

  /** `x as usize` for an `i32` on a 64-bit target: sign extension, so every
      negative value becomes a number of at least 2^64 - 2^31. */
  function AsUsize(x: int32): (u: nat)
    ensures u < TWO_64
    ensures x >= 0 ==> u == x
    ensures x < 0 ==> u >= TWO_64 - 0x8000_0000
  {
    if x < 0 then x + TWO_64 else x
  }

  /** `write_i32::<LittleEndian>`: the four bytes of `x`, least significant first. */
  function LeBytes(x: int32): (b: seq<byte>)
    ensures |b| == 4
    ensures ToU32(x) == b[0] as int + 256 * (b[1] as int + 256 * (b[2] as int + 256 * b[3] as int))
  {
    var u := ToU32(x);
    var q1 := u / 256;
    var q2 := q1 / 256;
    assert u == u % 256 + 256 * q1;
    assert q1 == q1 % 256 + 256 * q2;
    assert q2 == q2 % 256 + 256 * (q2 / 256);
    [u % 256, q1 % 256, q2 % 256, q2 / 256]
  }

  /** `read_i32::<LittleEndian>` / `i32::from_le_bytes`. */
  function LeInt32(b: seq<byte>): (x: int32)
    requires |b| == 4
    ensures x < 0 <==> b[3] >= 0x80
    ensures ToU32(x) == b[0] as int + 256 * (b[1] as int + 256 * (b[2] as int + 256 * b[3] as int))
  {
    var u: int := b[0] as int + 256 * (b[1] as int + 256 * (b[2] as int + 256 * b[3] as int));
    if u >= 0x8000_0000 then u - TWO_32 else u
  }

  /** Reading back a written word gives the value that was written. */
  lemma LeInt32OfLeBytes(x: int32)
    ensures LeInt32(LeBytes(x)) == x
  {
    var u := ToU32(x);
    var q1 := u / 256;
    var q2 := q1 / 256;
    assert u == u % 256 + 256 * q1;
    assert q1 == q1 % 256 + 256 * q2;
    assert q2 == q2 % 256 + 256 * (q2 / 256);
  }

  /** Every four bytes are the encoding of exactly one word. */
  lemma LeBytesOfLeInt32(b: seq<byte>)
    requires |b| == 4
    ensures LeBytes(LeInt32(b)) == b
  {
    var u: int := b[0] as int + 256 * (b[1] as int + 256 * (b[2] as int + 256 * b[3] as int));
    assert ToU32(LeInt32(b)) == u;
    var q1 := u / 256;
    var q2 := q1 / 256;
    assert u % 256 == b[0] && q1 == b[1] as int + 256 * (b[2] as int + 256 * b[3] as int);
    assert q1 % 256 == b[1] && q2 == b[2] as int + 256 * b[3] as int;
    assert q2 % 256 == b[2] && q2 / 256 == b[3];
  }

  /** The encoding is one-to-one. */
  lemma LeBytesInjective(x: int32, y: int32)
    requires LeBytes(x) == LeBytes(y)
    ensures x == y
  {
    LeInt32OfLeBytes(x);
    LeInt32OfLeBytes(y);
  }
}

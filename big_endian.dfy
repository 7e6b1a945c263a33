/**
 Bytes and big-endian 32-bit two's-complement integers, as the IDX header
 stores them (the `read_i32::<BigEndian>` reads of src/emnist_loader.rs).
 */
module BigEndian {

  /** An unsigned 8-bit value (Rust `u8`). */
  type Byte = b: int | 0 <= b < 0x100

  /** A signed 32-bit value (Rust `i32`). */
  type I32 = x: int | -0x8000_0000 <= x < 0x8000_0000

  const TWO_POW_32: int := 0x1_0000_0000

  predicate InI32(x: int) {
    -0x8000_0000 <= x < 0x8000_0000
  }

  /** The unsigned value of four bytes, most significant first. */
  function Unsigned(b: seq<Byte>): (u: nat)
    requires |b| == 4
    ensures u < TWO_POW_32
  {
    (b[0] as int) * 0x100_0000 + (b[1] as int) * 0x1_0000 + (b[2] as int) * 0x100 + b[3]
  }

  /** Four bytes read as a big-endian two's-complement integer. */
  function DecodeI32(b: seq<Byte>): (x: I32)
    requires |b| == 4
    ensures x < 0 <==> b[0] >= 0x80
    ensures x == Unsigned(b) || x == Unsigned(b) - TWO_POW_32
  {
    var u := Unsigned(b);
    if u < 0x8000_0000 then u else u - TWO_POW_32
  }

  /** The four big-endian bytes of x in two's complement. */
  function EncodeI32(x: I32): (b: seq<Byte>)
    ensures |b| == 4
    ensures b[0] >= 0x80 <==> x < 0
  {
    var u := if x < 0 then x + TWO_POW_32 else x;
    [u / 0x100_0000, u / 0x1_0000 % 0x100, u / 0x100 % 0x100, u % 0x100]
  }

  /** Splitting a 32-bit unsigned number into base-256 digits and joining them again is the identity. */
  lemma DigitsJoin(u: int)
    requires 0 <= u < TWO_POW_32
    ensures (u / 0x100_0000) * 0x100_0000 + (u / 0x1_0000 % 0x100) * 0x1_0000
            + (u / 0x100 % 0x100) * 0x100 + u % 0x100 == u
  {
    var d3, d2, d1, d0 := u / 0x100_0000, u / 0x1_0000 % 0x100, u / 0x100 % 0x100, u % 0x100;
    assert u / 0x100 == (u / 0x1_0000) * 0x100 + d1;
    assert u / 0x1_0000 == d3 * 0x100 + d2;
    assert u == (u / 0x100) * 0x100 + d0;
  }

  /** Encoding then decoding gives back the integer. */
  lemma DecodeEncodeI32(x: I32)
    ensures DecodeI32(EncodeI32(x)) == x
  {
    var u := if x < 0 then x + TWO_POW_32 else x;
    DigitsJoin(u);
    assert Unsigned(EncodeI32(x)) == u;
  }

  /** Euclidean division of q * m + r by a power of 256 m, for 0 <= r < m, gives back q and r. */
  lemma DivModDigit(q: int, r: int, m: int)
    requires m == 0x100 || m == 0x1_0000 || m == 0x100_0000
    requires 0 <= q && 0 <= r < m
    ensures (q * m + r) / m == q && (q * m + r) % m == r
  {
    if m == 0x100 {
      assert q * m + r == q * 0x100 + r;
    } else if m == 0x1_0000 {
      assert q * m + r == q * 0x1_0000 + r;
    } else {
      assert q * m + r == q * 0x100_0000 + r;
    }
  }

  /** Decoding then encoding gives back the four bytes. */
  lemma EncodeDecodeI32(b: seq<Byte>)
    requires |b| == 4
    ensures EncodeI32(DecodeI32(b)) == b
  {
    var u := Unsigned(b);
    var hi2 := (b[0] as int) * 0x100 + b[1];
    var hi3 := hi2 * 0x100 + b[2];
    assert u == hi3 * 0x100 + b[3];
    DivModDigit(hi3, b[3], 0x100);
    DivModDigit(hi2, b[2], 0x100);
    DivModDigit(b[0], b[1], 0x100);
    assert u == hi2 * 0x1_0000 + ((b[2] as int) * 0x100 + b[3]);
    DivModDigit(hi2, (b[2] as int) * 0x100 + b[3], 0x1_0000);
    assert u == (b[0] as int) * 0x100_0000 + (hi3 * 0x100 + b[3] - (b[0] as int) * 0x100_0000);
    DivModDigit(b[0], u - (b[0] as int) * 0x100_0000, 0x100_0000);
    var e := EncodeI32(DecodeI32(b));
    assert e[0] == b[0] && e[1] == b[1] && e[2] == b[2] && e[3] == b[3];
  }
}

/** Big-endian two's-complement 32-bit integers, as Rust's
    `i32::from_be_bytes` reads them and `i32::to_be_bytes` writes them. */
module BigEndian {

  type byte = b: int | 0 <= b < 0x100

  /** Rust's `i32`. */
  type i32 = x: int | -0x8000_0000 <= x < 0x8000_0000

  const TwoTo32: int := 0x1_0000_0000

  /** The four bytes read as an unsigned number, most significant first. */
  function Unsigned(b: seq<byte>): (u: nat)
    requires |b| == 4
    ensures u < TwoTo32
  {
    ((b[0] as int * 0x100 + b[1]) * 0x100 + b[2]) * 0x100 + b[3]
  }

  /** `i32::from_be_bytes`: the unsigned reading, wrapped into the signed
      range. */
  function FromBeBytes(b: seq<byte>): (x: i32)
    requires |b| == 4
  {
    var u := Unsigned(b);
    if u < 0x8000_0000 then u else u - TwoTo32
  }

  /** `i32::to_be_bytes`: the two's-complement bit pattern, most
      significant byte first. */
  function ToBeBytes(x: i32): (b: seq<byte>)
    ensures |b| == 4
  {
    var u := if x < 0 then x + TwoTo32 else x;
    [u / 0x100_0000, (u / 0x1_0000) % 0x100, (u / 0x100) % 0x100, u % 0x100]
  }

  /** The sign lives in the top bit of the first byte. */
  lemma SignBit(b: seq<byte>)
    requires |b| == 4
    ensures FromBeBytes(b) < 0 <==> b[0] >= 0x80
  {
  }

  /** Splitting a number below 2^32 into base-256 digits and reassembling
      them gives the number back. */
  lemma DigitsReassemble(u: int)
    requires 0 <= u < TwoTo32
    ensures ((u / 0x100_0000 * 0x100 + (u / 0x1_0000) % 0x100) * 0x100 + (u / 0x100) % 0x100) * 0x100 + u % 0x100 == u
  {
    var q1 := u / 0x100;
    var q2 := q1 / 0x100;
    var q3 := q2 / 0x100;
    assert u == q1 * 0x100 + u % 0x100;
    assert q1 == q2 * 0x100 + q1 % 0x100;
    assert q2 == q3 * 0x100 + q2 % 0x100;
    assert q2 == u / 0x1_0000;
    assert q3 == u / 0x100_0000;
  }

  /** Writing a value and reading it back yields the value. */
  lemma ReadWrite(x: i32)
    ensures FromBeBytes(ToBeBytes(x)) == x
  {
    var u := if x < 0 then x + TwoTo32 else x;
    DigitsReassemble(u);
  }

  /** Reading four bytes and writing the value back yields the bytes. */
  lemma WriteRead(b: seq<byte>)
    requires |b| == 4
    ensures ToBeBytes(FromBeBytes(b)) == b
  {
    var u := Unsigned(b);
    assert u / 0x100 == (b[0] as int * 0x100 + b[1]) * 0x100 + b[2];
    assert u % 0x100 == b[3];
    assert u / 0x1_0000 == b[0] as int * 0x100 + b[1];
    assert u / 0x100_0000 == b[0];
  }
}

/**
 * Integer types of the 32-bit little-endian target and the C conversions
 * the bootloader relies on: unsigned wrap-around and the byte order in
 * which multi-byte fields sit in a message buffer.
 */
module Machine {

  type byte = x: int | 0 <= x < 0x100
  type u16 = x: int | 0 <= x < 0x1_0000
  type u32 = x: int | 0 <= x < 0x1_0000_0000

  datatype Option<+T> = None | Some(value: T)

  datatype Result<+T, +E> = Ok(value: T) | Err(error: E)

  /** Conversion of a mathematical integer to `uint32_t`: C keeps it modulo 2^32. */
  function Wrap32(x: int): (r: u32)
    ensures 0 <= x < 0x1_0000_0000 ==> r == x
    ensures 0x1_0000_0000 <= x < 0x2_0000_0000 ==> r == x - 0x1_0000_0000
    ensures -0x1_0000_0000 <= x < 0 ==> r == x + 0x1_0000_0000
  {
    x % 0x1_0000_0000
  }

  /** Unsigned subtraction `a - b`, e.g. `tickcount - t0`: the elapsed count across a counter wrap. */
  function Sub32(a: u32, b: u32): (r: u32)
    ensures a >= b ==> r == a - b
    ensures a < b ==> r == 0x1_0000_0000 - b + a
  {
    Wrap32(a - b)
  }

  /** The two bytes of a 16-bit field, lowest first. */
  function LE16(v: u16): (b: seq<byte>)
    ensures |b| == 2
  {
    [v % 0x100, v / 0x100]
  }

  function FromLE16(b: seq<byte>): u16
    requires |b| == 2
  {
    b[0] as int + 0x100 * b[1] as int
  }

  /** The four bytes of a 32-bit word, lowest first. */
  function LE32(v: u32): (b: seq<byte>)
    ensures |b| == 4
  {
    var v1 := v / 0x100;
    var v2 := v1 / 0x100;
    [v % 0x100, v1 % 0x100, v2 % 0x100, v2 / 0x100]
  }

  function FromLE32(b: seq<byte>): u32
    requires |b| == 4
  {
    b[0] as int + 0x100 * (b[1] as int + 0x100 * (b[2] as int + 0x100 * b[3] as int))
  }

  lemma LE16RoundTrip(v: u16)
    ensures FromLE16(LE16(v)) == v
  {
  }

  lemma FromLE16RoundTrip(b: seq<byte>)
    requires |b| == 2
    ensures LE16(FromLE16(b)) == b
  {
  }

  lemma LE32RoundTrip(v: u32)
    ensures FromLE32(LE32(v)) == v
  {
  }

  lemma FromLE32RoundTrip(b: seq<byte>)
    requires |b| == 4
    ensures LE32(FromLE32(b)) == b
  {
    var w2 := b[2] as int + 0x100 * b[3] as int;
    var w1 := b[1] as int + 0x100 * w2;
    DivModByte(b[0], w1);
    DivModByte(b[1], w2);
    DivModByte(b[2], b[3]);
  }

  lemma DivModByte(lo: byte, hi: nat)
    ensures (lo + 0x100 * hi) / 0x100 == hi && (lo + 0x100 * hi) % 0x100 == lo
  {
  }

  /** A word reads 0xFFFFFFFF exactly when each of its four bytes is 0xFF. */
  lemma AllOnesWord(b: seq<byte>)
    requires |b| == 4
    ensures FromLE32(b) == 0xFFFF_FFFF <==> (forall j :: 0 <= j < 4 ==> b[j] == 0xFF)
  {
    if FromLE32(b) == 0xFFFF_FFFF {
      FromLE32RoundTrip(b);
    }
  }
}

/** Machine integers, byte-order helpers and the library's status codes,
    shared by the reader and the converter. */
module Common {

  /** Unsigned machine integers. */
  type u8 = x: int | 0 <= x < 0x100
  type u16 = x: int | 0 <= x < 0x1_0000
  type u32 = x: int | 0 <= x < 0x1_0000_0000

  const U16_MOD: int := 0x1_0000
  const U32_MOD: int := 0x1_0000_0000
  /** size_t is 64 bits wide on the platforms modelled. */
  const SIZE_MOD: int := 0x1_0000_0000_0000_0000

  /** The MOBI_RET codes that the modelled code returns. */
  datatype MobiRet =
    | Success
    | DataCorrupt
    | FileUnsupported

  datatype Option<T> = None | Some(value: T)

  /** A MOBI_RET together with the value produced when it is MOBI_SUCCESS. */
  datatype Result<T> = Ok(value: T) | Err(code: MobiRet)

  /** 2 to the power n. */
  function Pow2(n: nat): (r: nat)
    ensures r >= 1
  {
    if n == 0 then 1 else 2 * Pow2(n - 1)
  }

  lemma {:induction false} Pow2Add(a: nat, b: nat)
    ensures Pow2(a + b) == Pow2(a) * Pow2(b)
  {
    if a > 0 {
      Pow2Add(a - 1, b);
    }
  }

  /** Big-endian 16-bit value of two bytes. */
  function BE16(b: seq<u8>): u16
    requires |b| == 2
  {
    b[0] as int * 0x100 + b[1] as int
  }

  /** The big-endian value of a byte string, most significant byte first. */
  function BigEndian(b: seq<u8>): nat
  {
    if |b| == 0 then 0 else BigEndian(b[..|b| - 1]) * 0x100 + b[|b| - 1]
  }

  /** The value of four bytes, written out. */
  lemma BigEndianFour(b: seq<u8>)
    requires |b| == 4
    ensures BigEndian(b) == b[0] as int * 0x100_0000 + b[1] as int * 0x1_0000 + b[2] as int * 0x100 + b[3] as int
  {
    var b1, b2, b3 := b[..1], b[..2], b[..3];
    assert b1[..0] == [];
    assert BigEndian(b1) == b[0];
    assert b2[..1] == b1;
    assert BigEndian(b2) == b[0] as int * 0x100 + b[1];
    assert b3[..2] == b2;
    assert BigEndian(b3) == b[0] as int * 0x1_0000 + b[1] as int * 0x100 + b[2];
    assert b[..3] == b3;
  }

  /** Big-endian 32-bit value of four bytes. */
  function BE32(b: seq<u8>): u32
    requires |b| == 4
  {
    BigEndianFour(b);
    BigEndian(b)
  }

  /** Little-endian 32-bit value of four bytes. */
  function LE32(b: seq<u8>): u32
    requires |b| == 4
  {
    b[3] as int * 0x100_0000 + b[2] as int * 0x1_0000 + b[1] as int * 0x100 + b[0] as int
  }

  /** The two bytes of x, most significant first. */
  function BytesBE16(x: u16): (b: seq<u8>)
    ensures |b| == 2
  {
    [x / 0x100, x % 0x100]
  }

  /** The four bytes of x, most significant first. */
  function BytesBE32(x: u32): (b: seq<u8>)
    ensures |b| == 4
  {
    [x / 0x100_0000, (x / 0x1_0000) % 0x100, (x / 0x100) % 0x100, x % 0x100]
  }

  /** The four bytes of x, least significant first. */
  function BytesLE32(x: u32): (b: seq<u8>)
    ensures |b| == 4
  {
    [x % 0x100, (x / 0x100) % 0x100, (x / 0x1_0000) % 0x100, x / 0x100_0000]
  }

  lemma BE16RoundTrip(x: u16)
    ensures BE16(BytesBE16(x)) == x
  {
  }

  lemma BE16Encodes(b: seq<u8>)
    requires |b| == 2
    ensures BytesBE16(BE16(b)) == b
  {
  }

  lemma BE32RoundTrip(x: u32)
    ensures BE32(BytesBE32(x)) == x
  {
    BigEndianFour(BytesBE32(x));
    var a := x / 0x100;
    var c := a / 0x100;
    assert x == a * 0x100 + x % 0x100;
    assert a == c * 0x100 + a % 0x100;
    assert c == (c / 0x100) * 0x100 + c % 0x100;
    assert (x / 0x1_0000) == c;
    assert x / 0x100_0000 == c / 0x100;
  }

  lemma BE32Encodes(b: seq<u8>)
    requires |b| == 4
    ensures BytesBE32(BE32(b)) == b
  {
    BigEndianFour(b);
    var x := BE32(b);
    var hi := b[0] as int * 0x1_0000 + b[1] as int * 0x100 + b[2] as int;
    var top := b[0] as int * 0x100 + b[1] as int;
    DivModByte(x, hi, b[3]);
    DivModByte(hi, top, b[2]);
    DivModByte(top, b[0], b[1]);
  }

  /** Splitting off the low byte of q * 256 + r. */
  lemma DivModByte(x: int, q: int, r: int)
    requires x == q * 0x100 + r && 0 <= r < 0x100
    ensures x / 0x100 == q && x % 0x100 == r
  {
  }

  lemma LE32RoundTrip(x: u32)
    ensures LE32(BytesLE32(x)) == x
  {
    BE32RoundTrip(x);
    BigEndianFour(BytesBE32(x));
  }

  /** The bytes of a C string literal made of ASCII characters. */
  function Latin1(s: string): (b: seq<u8>)
    ensures |b| == |s|
  {
    seq(|s|, i requires 0 <= i < |s| => (s[i] as int % 0x100) as u8)
  }

  /** Whether bit number `bit` of `flags` is set (`flags & (1 << bit)`). */
  predicate BitSet(flags: nat, bit: nat)
  {
    if bit == 0 then flags % 2 == 1 else BitSet(flags / 2, bit - 1)
  }

  function Min(a: int, b: int): int
  {
    if a < b then a else b
  }

  function Max(a: int, b: int): int
  {
    if a < b then b else a
  }
}

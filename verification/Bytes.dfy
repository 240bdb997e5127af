/** Octets, fixed-width words and the little-endian layout shared by the HAL's buffers and files. */
module Bytes {

  type byte = x: int | 0 <= x < 256

  const TWO_32 := 0x1_0000_0000
  const TWO_31 := 0x8000_0000

  datatype Option<+T> = None | Some(value: T)

  /** The low 32 bits of an integer, as C's unsigned int keeps them. */
  function U32(x: int): (r: int)
    ensures 0 <= r < TWO_32
    ensures 0 <= x < TWO_32 ==> r == x
  {
    x % TWO_32
  }

  /** Two's-complement reading of the low 32 bits, as C's int keeps them. */
  function I32(x: int): (r: int)
    ensures -TWO_31 <= r < TWO_31
    ensures -TWO_31 <= x < TWO_31 ==> r == x
  {
    var u := x % TWO_32;
    if u < TWO_31 then u else u - TWO_32
  }

  /** The four bytes of a 32-bit word, least significant first. */
  function Le32(x: int): (s: seq<byte>)
    ensures |s| == 4
  {
    var u := x % TWO_32;
    [u % 0x100, (u / 0x100) % 0x100, (u / 0x1_0000) % 0x100, u / 0x100_0000]
  }

  function FromLe32(s: seq<byte>): (x: int)
    requires |s| == 4
    ensures 0 <= x < TWO_32
  {
    (s[0] as int) + 0x100 * (s[1] as int) + 0x1_0000 * (s[2] as int) + 0x100_0000 * (s[3] as int)
  }

  /** Reading back a stored word gives the word modulo 2^32; a C int comes back unchanged. */
  lemma Le32RoundTrip(x: int)
    ensures FromLe32(Le32(x)) == U32(x)
    ensures -TWO_31 <= x < TWO_31 ==> I32(FromLe32(Le32(x))) == x
  {
    BytesOfWord(x % TWO_32);
  }

  lemma BytesOfWord(u: int)
    requires 0 <= u < TWO_32
    ensures u == u % 0x100 + 0x100 * (u / 0x100 % 0x100) + 0x1_0000 * (u / 0x1_0000 % 0x100)
                 + 0x100_0000 * (u / 0x100_0000)
  {
    var v := u / 0x100;
    var w := v / 0x100;
    assert w == u / 0x1_0000 && w / 0x100 == u / 0x100_0000;
    assert u == u % 0x100 + 0x100 * v;
    assert v == v % 0x100 + 0x100 * w;
    assert w == w % 0x100 + 0x100 * (w / 0x100);
  }

  /** The stored bytes weigh 1, 256, 65536 and 16777216. */
  lemma Le32Weights(x: int)
    ensures var s := Le32(x);
            x % 0x1_0000_0000
            == (s[0] as int) + 256 * (s[1] as int) + 65536 * (s[2] as int) + 16777216 * (s[3] as int)
  {
    Le32RoundTrip(x);
  }
}

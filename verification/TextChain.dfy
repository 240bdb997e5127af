/**
 Operator and requestor names on their way to the framework: ASCII to UCS-2 with a byte order
 mark, to hexadecimal digits, and back through Java's hexStringToBytes and the UTF-16 decoder.
 */
module TextChain {
  import opened Bytes
  import opened MessageCodec

  /** A UTF-16 code unit, the element of a Java string. */
  type unit = x: int | 0 <= x < 0x1_0000

  // ----- ASCII to UCS-2 -----

  function Ucs2(s: seq<byte>): (r: seq<byte>)
    ensures |r| == 2 * |s|
  {
    seq(2 * |s|, i requires 0 <= i < 2 * |s| => if i % 2 == 0 then 0 else s[i / 2])
  }

  /**
   asc_str_to_usc2_str. The terminator goes to output[len + 1] and output[len + 2]; output[len]
   keeps what it held.
   */
  method AscStrToUcs2Str(output: array<byte>, input: seq<byte>) returns (len: nat)
    requires 0 in input && 2 * |CString(input)| + 5 <= output.Length
    modifies output
    ensures len == 2 + 2 * |CString(input)|
    ensures output[..len] == [0xfe, 0xff] + Ucs2(CString(input))
    ensures output[len] == old(output[len]) && output[len + 1] == output[len + 2] == 0
    ensures output[len + 3..] == old(output[len + 3..])
  {
    hide CString;
    len := 2;
    output[0] := 0xfe;
    output[1] := 0xff;
    var p := 0;
    ghost var s := CString(input);
    while input[p] != 0
      invariant p <= |s| && len == 2 + 2 * p
      invariant output[0] == 0xfe && output[1] == 0xff
      invariant forall i :: 2 <= i < len ==> output[i] == if i % 2 == 0 then 0 else s[(i - 2) / 2]
      invariant forall i :: len <= i < output.Length ==> output[i] == old(output[i])
      decreases |input| - p
    {
      output[len] := 0;
      len := len + 1;
      output[len] := input[p];
      len := len + 1;
      p := p + 1;
    }
    output[len + 1] := 0;
    output[len + 2] := 0;
  }

  // ----- hexadecimal -----

  function HexDigit(n: int): unit
    requires 0 <= n < 16
  {
    if n <= 9 then n + 48 else n - 10 + 65
  }

  function Hex(data: seq<byte>): (h: seq<unit>)
    ensures |h| == 2 * |data|
  {
    if data == [] then []
    else Hex(data[..|data| - 1]) + [HexDigit(data[|data| - 1] / 16), HexDigit(data[|data| - 1] % 16)]
  }

  lemma HexAppend(data: seq<byte>, b: byte)
    ensures Hex(data + [b]) == Hex(data) + [HexDigit(b / 16), HexDigit(b % 16)]
  {
    hide HexDigit;
    assert (data + [b])[..|data|] == data;
  }

  /** raw_data_to_hex_string: two upper-case digits a byte, and no terminator. */
  method RawDataToHexString(output: array<unit>, input: seq<byte>)
    requires 2 * |input| <= output.Length
    modifies output
    ensures output[..2 * |input|] == Hex(input)
    ensures output[2 * |input|..] == old(output[2 * |input|..])
  {
    hide Hex;
    var i := 0;
    while i < |input|
      invariant 0 <= i <= |input|
      invariant output[..2 * i] == Hex(input[..i])
      invariant output[2 * i..] == old(output[2 * i..])
    {
      HexAppend(input[..i], input[i]);
      assert input[..i + 1] == input[..i] + [input[i]];
      ghost var rest := output[2 * i..];
      var tmp := input[i] / 16;
      if 0 <= tmp <= 9 {
        output[i * 2] := tmp + 48;
      } else {
        output[i * 2] := tmp - 10 + 65;
      }
      tmp := input[i] % 16;
      if 0 <= tmp <= 9 {
        output[i * 2 + 1] := tmp + 48;
      } else {
        output[i * 2 + 1] := tmp - 10 + 65;
      }
      assert output[2 * i + 2..] == rest[2..];
      i := i + 1;
    }
    assert input[..i] == input;
  }

  predicate IsHex(c: unit) {
    48 <= c <= 57 || 65 <= c <= 70 || 97 <= c <= 102
  }

  /** hexCharToInt, which throws for anything but a digit of either case. */
  function HexCharToInt(c: unit): (r: Option<int>)
    ensures r.Some? <==> IsHex(c)
    ensures r.Some? ==> 0 <= r.value < 16
  {
    if 48 <= c <= 57 then Some(c - 48)
    else if 65 <= c <= 70 then Some(c - 65 + 10)
    else if 97 <= c <= 102 then Some(c - 97 + 10)
    else None
  }

  datatype Outcome = Null | Returned(data: seq<byte>) | Thrown

  predicate AllHex(s: seq<unit>) {
    forall i :: 0 <= i < |s| ==> IsHex(s[i])
  }

  function Unhex(s: seq<unit>): (data: seq<byte>)
    requires AllHex(s) && |s| % 2 == 0
    ensures |data| == |s| / 2
  {
    if s == [] then []
    else
      var n := |s| - 2;
      Unhex(s[..n]) + [HexCharToInt(s[n]).value * 16 + HexCharToInt(s[n + 1]).value]
  }

  /**
   hexStringToBytes. An odd last digit has no partner to read and a character that is no digit is
   refused; both throw, so it returns exactly for an even number of digits.
   */
  method HexStringToBytes(s: Option<seq<unit>>) returns (r: Outcome)
    ensures r.Null? <==> s.None?
    ensures r.Returned? <==> s.Some? && |s.value| % 2 == 0 && AllHex(s.value)
    ensures r.Returned? ==> r.data == Unhex(s.value)
  {
    if s.None? {
      return Null;
    }
    var text := s.value;
    var len := |text|;
    var ret := new byte[len / 2];
    var i := 0;
    while i < len
      invariant 0 <= i <= len && i % 2 == 0
      invariant AllHex(text[..i]) && ret[..i / 2] == Unhex(text[..i])
    {
      var high := HexCharToInt(text[i]);
      if high.None? {
        return Thrown;
      }
      if i + 1 >= len {
        return Thrown;
      }
      var low := HexCharToInt(text[i + 1]);
      if low.None? {
        return Thrown;
      }
      assert text[..i + 2][..i] == text[..i];
      ret[i / 2] := high.value * 16 + low.value;
      i := i + 2;
    }
    assert text[..i] == text;
    r := Returned(ret[..]);
  }

  lemma UnhexAppend(h: seq<unit>, b: byte)
    requires AllHex(h) && |h| % 2 == 0
    ensures var text := h + [HexDigit(b / 16), HexDigit(b % 16)];
            AllHex(text) && |text| % 2 == 0 && Unhex(text) == Unhex(h) + [b]
  {
    DigitRoundTrip(b / 16);
    DigitRoundTrip(b % 16);
    hide HexDigit, HexCharToInt, IsHex;
    var text := h + [HexDigit(b / 16), HexDigit(b % 16)];
    assert text[..|text| - 2] == h;
    assert text[|text| - 2] == HexDigit(b / 16) && text[|text| - 1] == HexDigit(b % 16);
  }

  lemma DigitRoundTrip(d: int)
    requires 0 <= d < 16
    ensures IsHex(HexDigit(d)) && HexCharToInt(HexDigit(d)) == Some(d)
  {
  }

  lemma UnhexNothing()
    ensures AllHex([]) && Unhex([]) == []
  {
  }

  /** hexStringToBytes undoes raw_data_to_hex_string on every byte sequence. */
  lemma {:induction false} UnhexHex(data: seq<byte>)
    ensures AllHex(Hex(data)) && |Hex(data)| % 2 == 0
    ensures Unhex(Hex(data)) == data
  {
    hide HexDigit, HexCharToInt, IsHex, Unhex, AllHex;
    if data == [] {
      UnhexNothing();
    } else {
      var init, b := data[..|data| - 1], data[|data| - 1];
      UnhexHex(init);
      UnhexAppend(Hex(init), b);
    }
  }

  function UpperDigit(c: unit): unit {
    if 97 <= c <= 102 then c - 32 else c
  }

  function Upper(s: seq<unit>): seq<unit> {
    seq(|s|, i requires 0 <= i < |s| => UpperDigit(s[i]))
  }

  lemma PairRoundTrip(high: unit, low: unit)
    requires IsHex(high) && IsHex(low)
    ensures HexDigit(PairValue(high, low) / 16) == UpperDigit(high)
    ensures HexDigit(PairValue(high, low) % 16) == UpperDigit(low)
  {
  }

  function PairValue(high: unit, low: unit): (b: byte)
    requires IsHex(high) && IsHex(low)
  {
    HexCharToInt(high).value * 16 + HexCharToInt(low).value
  }

  lemma UnhexPair(front: seq<unit>, high: unit, low: unit)
    requires AllHex(front) && |front| % 2 == 0 && IsHex(high) && IsHex(low)
    ensures AllHex(front + [high, low]) && |front + [high, low]| % 2 == 0
    ensures Unhex(front + [high, low]) == Unhex(front) + [PairValue(high, low)]
  {
    hide HexCharToInt, IsHex;
    var s := front + [high, low];
    assert s[..|s| - 2] == front && s[|s| - 2] == high && s[|s| - 1] == low;
  }

  /** Encoding what the last pair decodes to gives the pair in upper case. */
  lemma HexOfPair(front: seq<unit>, high: unit, low: unit)
    requires AllHex(front) && |front| % 2 == 0 && IsHex(high) && IsHex(low)
    ensures AllHex(front + [high, low]) && |front + [high, low]| % 2 == 0
    ensures Hex(Unhex(front + [high, low])) == Hex(Unhex(front)) + [UpperDigit(high), UpperDigit(low)]
  {
    hide HexDigit, HexCharToInt, UpperDigit, IsHex, Hex, Unhex, AllHex, PairValue;
    PairRoundTrip(high, low);
    UnhexPair(front, high, low);
    HexAppend(Unhex(front), PairValue(high, low));
  }

  /** And the other way round it is the identity up to the case of the digits. */
  lemma {:induction false} HexUnhex(s: seq<unit>)
    requires AllHex(s) && |s| % 2 == 0
    ensures Hex(Unhex(s)) == Upper(s)
  {
    hide Hex, Unhex, AllHex, UpperDigit;
    if s == [] {
      HexNothing();
    } else {
      var n := |s| - 2;
      assert s == s[..n] + [s[n], s[n + 1]];
      FrontIsHex(s);
      HexOfPair(s[..n], s[n], s[n + 1]);
      HexUnhex(s[..n]);
      assert Upper(s) == Upper(s[..n]) + [UpperDigit(s[n]), UpperDigit(s[n + 1])];
    }
  }

  lemma FrontIsHex(s: seq<unit>)
    requires AllHex(s) && |s| >= 2
    ensures AllHex(s[..|s| - 2]) && IsHex(s[|s| - 2]) && IsHex(s[|s| - 1])
  {
  }

  lemma HexNothing()
    ensures AllHex([]) && Hex(Unhex([])) == []
  {
  }

  const DIGITS := "0123456789ABCDEF"

  /** Byte i becomes the upper-case digits 2i, its high half, and 2i + 1, its low half. */
  lemma {:induction false} HexLayout(data: seq<byte>, i: nat)
    requires i < |data|
    ensures Hex(data)[2 * i] == DIGITS[data[i] / 16] as int && Hex(data)[2 * i + 1] == DIGITS[data[i] % 16] as int
    decreases |data|
  {
    hide HexDigit;
    DigitIs(data[i] / 16);
    DigitIs(data[i] % 16);
    var init := data[..|data| - 1];
    HexAppend(init, data[|data| - 1]);
    assert data == init + [data[|data| - 1]];
    if i < |init| { HexLayout(init, i); }
  }

  lemma DigitIs(d: int)
    requires 0 <= d < 16
    ensures HexDigit(d) == DIGITS[d] as int
  {
  }

  /** Character i becomes two bytes, the high one, zero, first. */
  lemma Ucs2Layout(s: seq<byte>, i: nat)
    requires i < |s|
    ensures Ucs2(s)[2 * i] == 0 && Ucs2(s)[2 * i + 1] == s[i]
  {
  }

  // ----- UTF-16 -----

  function Units(data: seq<byte>, bigEndian: bool): (u: seq<unit>)
    ensures |u| == |data| / 2
  {
    if |data| < 2 then []
    else [if bigEndian then 256 * (data[0] as int) + data[1] else 256 * (data[1] as int) + data[0]]
         + Units(data[2..], bigEndian)
  }

  /** Section 4.3 of RFC 2781: a byte order mark decides and is dropped; without one it is big-endian. */
  function Utf16Decode(data: seq<byte>): seq<unit> {
    if |data| >= 2 && data[..2] == [0xfe, 0xff] then Units(data[2..], true)
    else if |data| >= 2 && data[..2] == [0xff, 0xfe] then Units(data[2..], false)
    else Units(data, true)
  }

  lemma {:induction false} UnitsUcs2(s: seq<byte>)
    ensures |Units(Ucs2(s), true)| == |s|
    ensures forall i :: 0 <= i < |s| ==> Units(Ucs2(s), true)[i] == s[i]
  {
    if s != [] {
      UnitsUcs2(s[1..]);
      assert Ucs2(s)[2..] == Ucs2(s[1..]);
    }
  }

  /**
   The whole chain returns every NUL-free string, character by character: ASCII as promised, and
   bytes above 127 as the Latin-1 characters of the same number.
   */
  lemma ChainRoundTrip(s: seq<byte>)
    ensures var text := Hex([0xfe, 0xff] + Ucs2(s));
            && AllHex(text) && |text| % 2 == 0
            && |Utf16Decode(Unhex(text))| == |s|
            && forall i :: 0 <= i < |s| ==> Utf16Decode(Unhex(text))[i] == s[i]
  {
    var bom: seq<byte> := [0xfe, 0xff];
    UnhexHex(bom + Ucs2(s));
    UnitsUcs2(s);
    assert (bom + Ucs2(s))[..2] == bom && (bom + Ucs2(s))[2..] == Ucs2(s);
  }
}

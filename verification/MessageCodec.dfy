/** The buffers of HAL-to-mnld messages: buff_put_xxx and buff_get_xxx, on a little-endian machine. */
module MessageCodec {
  import opened Bytes

  /** A field as its getter returns it. A string is its characters, without the terminating NUL. */
  datatype Item =
    | IntItem(value: int)
    | StringItem(text: seq<byte>)
    | BinaryItem(data: seq<byte>)
    | StructItem(data: seq<byte>)

  /** Which getter reads a field; a struct's size is known to both sides. */
  datatype Shape = IntShape | StringShape | BinaryShape | StructShape(size: nat)

  /** What C can hold: a 32-bit int, a NUL-free string, lengths that fit an int. */
  predicate Proper(item: Item) {
    match item
    case IntItem(v) => -TWO_31 <= v < TWO_31
    case StringItem(s) => 0 !in s && |s| + 1 < TWO_31
    case BinaryItem(b) => |b| < TWO_31
    case StructItem(b) => true
  }

  function ShapeOf(item: Item): Shape {
    match item
    case IntItem(_) => IntShape
    case StringItem(_) => StringShape
    case BinaryItem(_) => BinaryShape
    case StructItem(b) => StructShape(|b|)
  }

  function Encode(item: Item): seq<byte> {
    match item
    case IntItem(v) => Le32(v)
    case StringItem(s) => Le32(|s| + 1) + s + [0]
    case BinaryItem(b) => Le32(|b|) + b
    case StructItem(b) => b
  }

  function EncodeAll(items: seq<Item>): seq<byte> {
    if items == [] then [] else Encode(items[0]) + EncodeAll(items[1..])
  }

  // ----- the putters -----

  /** `data` written over `buff` at `offset`. */
  function Splice(buff: seq<byte>, offset: nat, data: seq<byte>): (r: seq<byte>)
    requires offset + |data| <= |buff|
    ensures |r| == |buff|
  {
    buff[..offset] + data + buff[offset + |data|..]
  }

  lemma SpliceTwice(buff: seq<byte>, offset: nat, a: seq<byte>, b: seq<byte>)
    requires offset + |a| + |b| <= |buff|
    ensures Splice(Splice(buff, offset, a), offset + |a|, b) == Splice(buff, offset, a + b)
  {
  }

  /** memcpy into the buffer. */
  method Copy(data: seq<byte>, buff: array<byte>, offset: nat)
    requires offset + |data| <= buff.Length
    modifies buff
    ensures buff[..] == Splice(old(buff[..]), offset, data)
  {
    var i := 0;
    while i < |data|
      invariant 0 <= i <= |data|
      invariant buff[..] == Splice(old(buff[..]), offset, data[..i])
    {
      buff[offset + i] := data[i];
      i := i + 1;
    }
    assert data[..i] == data;
  }

  method PutInt(input: int, buff: array<byte>, offset: nat) returns (next: nat)
    requires offset + 4 <= buff.Length
    modifies buff
    ensures buff[..] == Splice(old(buff[..]), offset, Le32(input)) && next == offset + 4
  {
    Copy(Le32(input), buff, offset);
    next := offset + 4;
  }

  /** The string is a C string in memory: its characters up to the first NUL are put. */
  method PutString(str: seq<byte>, buff: array<byte>, offset: nat) returns (next: nat)
    requires 0 in str
    requires offset + |Encode(StringItem(CString(str)))| <= buff.Length
    modifies buff
    ensures buff[..] == Splice(old(buff[..]), offset, Encode(StringItem(CString(str))))
    ensures next == offset + |Encode(StringItem(CString(str)))|
  {
    var len := StrLen(str);
    len := len + 1;
    CStringEnds(str);
    assert Encode(StringItem(CString(str))) == Le32(len) + str[..len];
    next := PutInt(len, buff, offset);
    Copy(str[..len], buff, next);
    SpliceTwice(old(buff[..]), offset, Le32(len), str[..len]);
    next := next + len;
  }

  method PutBinary(input: seq<byte>, buff: array<byte>, offset: nat) returns (next: nat)
    requires offset + |Encode(BinaryItem(input))| <= buff.Length
    modifies buff
    ensures buff[..] == Splice(old(buff[..]), offset, Encode(BinaryItem(input)))
    ensures next == offset + |Encode(BinaryItem(input))|
  {
    next := PutInt(|input|, buff, offset);
    Copy(input, buff, next);
    SpliceTwice(old(buff[..]), offset, Le32(|input|), input);
    next := next + |input|;
  }

  method PutStruct(input: seq<byte>, buff: array<byte>, offset: nat) returns (next: nat)
    requires offset + |Encode(StructItem(input))| <= buff.Length
    modifies buff
    ensures buff[..] == Splice(old(buff[..]), offset, Encode(StructItem(input)))
    ensures next == offset + |Encode(StructItem(input))|
  {
    Copy(input, buff, offset);
    next := offset + |input|;
  }

  // ----- C strings -----

  function CString(memory: seq<byte>): (s: seq<byte>)
    ensures |s| <= |memory| && 0 !in s
    ensures 0 in memory ==> |s| < |memory| && memory[|s|] == 0
    ensures s == memory[..|s|]
  {
    if memory == [] || memory[0] == 0 then [] else [memory[0]] + CString(memory[1..])
  }

  method StrLen(memory: seq<byte>) returns (n: nat)
    requires 0 in memory
    ensures n == |CString(memory)|
  {
    n := 0;
    while memory[n] != 0
      invariant n <= |CString(memory)|
      decreases |memory| - n
    {
      n := n + 1;
    }
  }

  lemma CStringEnds(memory: seq<byte>)
    requires 0 in memory
    ensures memory[..|CString(memory)| + 1] == CString(memory) + [0]
  {
  }

  lemma {:induction false} CStringOf(s: seq<byte>, rest: seq<byte>)
    requires 0 !in s
    ensures CString(s + [0] + rest) == s
  {
    if s != [] {
      CStringOf(s[1..], rest);
      assert (s + [0] + rest)[1..] == s[1..] + [0] + rest;
    }
  }

  // ----- the getters -----

  /** The length word of a string or binary at `offset`. */
  function LengthAt(buff: seq<byte>, offset: nat): int
    requires offset + 4 <= |buff|
  {
    I32(FromLe32(buff[offset..offset + 4]))
  }

  /** What a getter returns and how far it moves; nothing if it would leave the buffer. */
  function Read(shape: Shape, buff: seq<byte>, offset: nat): (r: Option<(Item, nat)>)
    ensures r.Some? ==> offset <= r.value.1 <= |buff|
  {
    match shape
    case IntShape =>
      if offset + 4 > |buff| then None else Some((IntItem(LengthAt(buff, offset)), offset + 4))
    case StringShape =>
      if offset + 4 > |buff| || LengthAt(buff, offset) < 0 || offset + 4 + LengthAt(buff, offset) > |buff| then None
      else
        var next := offset + 4 + LengthAt(buff, offset);
        Some((StringItem(CString(buff[offset + 4..next])), next))
    case BinaryShape =>
      if offset + 4 > |buff| || LengthAt(buff, offset) < 0 || offset + 4 + LengthAt(buff, offset) > |buff| then None
      else
        var next := offset + 4 + LengthAt(buff, offset);
        Some((BinaryItem(buff[offset + 4..next]), next))
    case StructShape(size) =>
      if offset + size > |buff| then None else Some((StructItem(buff[offset..offset + size]), offset + size))
  }

  method GetInt(buff: array<byte>, offset: nat) returns (ret: int, next: nat)
    requires Read(IntShape, buff[..], offset).Some?
    ensures Read(IntShape, buff[..], offset) == Some((IntItem(ret), next))
  {
    assert buff[..][offset..offset + 4] == buff[offset..offset + 4];
    ret := I32(FromLe32(buff[offset..offset + 4]));
    next := offset + 4;
  }

  /** The bytes land at the start of `str`; what follows them there is left alone. */
  method GetString(str: array<byte>, buff: array<byte>, offset: nat) returns (len: nat, next: nat)
    requires str != buff && Read(StringShape, buff[..], offset).Some?
    requires LengthAt(buff[..], offset) <= str.Length
    modifies str
    ensures len <= str.Length && str[len..] == old(str[len..])
    ensures Read(StringShape, buff[..], offset) == Some((StringItem(CString(str[..len])), next))
  {
    hide CString, I32, FromLe32;
    len, next := GetInt(buff, offset);
    Copy(buff[next..next + len], str, 0);
    assert str[..len] == buff[..][next..next + len];
    next := next + len;
  }

  method GetBinary(output: array<byte>, buff: array<byte>, offset: nat) returns (len: nat, next: nat)
    requires output != buff && Read(BinaryShape, buff[..], offset).Some?
    requires LengthAt(buff[..], offset) <= output.Length
    modifies output
    ensures len <= output.Length && output[len..] == old(output[len..])
    ensures Read(BinaryShape, buff[..], offset) == Some((BinaryItem(output[..len]), next))
  {
    hide I32, FromLe32;
    len, next := GetInt(buff, offset);
    Copy(buff[next..next + len], output, 0);
    assert output[..len] == buff[..][next..next + len];
    next := next + len;
  }

  method GetStruct(output: array<byte>, size: nat, buff: array<byte>, offset: nat) returns (next: nat)
    requires output != buff && Read(StructShape(size), buff[..], offset).Some? && size <= output.Length
    modifies output
    ensures output[size..] == old(output[size..])
    ensures Read(StructShape(size), buff[..], offset) == Some((StructItem(output[..size]), next))
  {
    Copy(buff[offset..offset + size], output, 0);
    assert output[..size] == buff[..][offset..offset + size];
    next := offset + size;
  }

  // ----- round trip -----

  /** The putters applied one after the other. */
  function WriteAll(buff: seq<byte>, offset: nat, items: seq<Item>): (r: seq<byte>)
    requires offset + |EncodeAll(items)| <= |buff|
    ensures |r| == |buff|
    decreases items
  {
    if items == [] then buff
    else WriteAll(Splice(buff, offset, Encode(items[0])), offset + |Encode(items[0])|, items[1..])
  }

  /** The getters applied one after the other. */
  function ReadAll(shapes: seq<Shape>, buff: seq<byte>, offset: nat): Option<(seq<Item>, nat)>
    decreases shapes
  {
    if shapes == [] then Some(([], offset))
    else match Read(shapes[0], buff, offset) {
      case None => None
      case Some((item, next)) =>
        match ReadAll(shapes[1..], buff, next) {
          case None => None
          case Some((items, end)) => Some(([item] + items, end))
        }
    }
  }

  function Shapes(items: seq<Item>): seq<Shape> {
    seq(|items|, i requires 0 <= i < |items| => ShapeOf(items[i]))
  }

  /** A message changes exactly its own stretch of the buffer. */
  lemma {:induction false} WriteAllSplices(buff: seq<byte>, offset: nat, items: seq<Item>)
    requires offset + |EncodeAll(items)| <= |buff|
    ensures WriteAll(buff, offset, items) == Splice(buff, offset, EncodeAll(items))
    decreases items
  {
    if items != [] {
      var first := Encode(items[0]);
      WriteAllSplices(Splice(buff, offset, first), offset + |first|, items[1..]);
      SpliceTwice(buff, offset, first, EncodeAll(items[1..]));
    }
  }

  lemma Within(buff: seq<byte>, offset: nat, e: seq<byte>, i: nat, j: nat)
    requires offset + |e| <= |buff| && buff[offset..offset + |e|] == e && i <= j <= |e|
    ensures buff[offset + i..offset + j] == e[i..j]
  {
    var whole := buff[offset..offset + |e|];
    assert forall k :: i <= k < j ==> buff[offset + k] == whole[k];
  }

  /** A length word followed by that many bytes. */
  lemma ReadCounted(data: seq<byte>, buff: seq<byte>, offset: nat)
    requires |data| < TWO_31
    requires var e := Le32(|data|) + data;
             offset + |e| <= |buff| && buff[offset..offset + |e|] == e
    ensures LengthAt(buff, offset) == |data|
    ensures buff[offset + 4..offset + 4 + |data|] == data
  {
    var e := Le32(|data|) + data;
    Le32RoundTrip(|data|);
    Within(buff, offset, e, 0, 4);
    Within(buff, offset, e, 4, |e|);
    assert e[0..4] == Le32(|data|) && e[4..] == data;
  }

  lemma ReadString(s: seq<byte>, buff: seq<byte>, offset: nat)
    requires 0 !in s && |s| + 1 < TWO_31
    requires var e := Encode(StringItem(s));
             offset + |e| <= |buff| && buff[offset..offset + |e|] == e
    ensures Read(StringShape, buff, offset) == Some((StringItem(s), offset + |s| + 5))
  {
    hide Le32, FromLe32, CString;
    var data := s + [0];
    assert Encode(StringItem(s)) == Le32(|data|) + data;
    ReadCounted(data, buff, offset);
    CStringOf(s, []);
    assert data + [] == data;
    assert LengthAt(buff, offset) == |data|;
  }

  lemma ReadEncoded(item: Item, buff: seq<byte>, offset: nat)
    requires Proper(item) && offset + |Encode(item)| <= |buff|
    requires buff[offset..offset + |Encode(item)|] == Encode(item)
    ensures Read(ShapeOf(item), buff, offset) == Some((item, offset + |Encode(item)|))
  {
    hide Le32, FromLe32, CString, I32;
    match item
    case IntItem(v) =>
      Le32RoundTrip(v);
    case StringItem(s) =>
      ReadString(s, buff, offset);
    case BinaryItem(b) =>
      ReadCounted(b, buff, offset);
    case StructItem(b) =>
  }

  lemma {:induction false} ReadAllEncoded(items: seq<Item>, buff: seq<byte>, offset: nat)
    requires forall i :: 0 <= i < |items| ==> Proper(items[i])
    requires offset + |EncodeAll(items)| <= |buff|
    requires buff[offset..offset + |EncodeAll(items)|] == EncodeAll(items)
    ensures ReadAll(Shapes(items), buff, offset) == Some((items, offset + |EncodeAll(items)|))
    decreases items
  {
    hide Read, Encode, Proper, ShapeOf;
    if items != [] {
      var first, rest := Encode(items[0]), EncodeAll(items[1..]);
      Within(buff, offset, first + rest, 0, |first|);
      Within(buff, offset, first + rest, |first|, |first + rest|);
      ReadEncoded(items[0], buff, offset);
      ReadAllEncoded(items[1..], buff, offset + |first|);
      assert Shapes(items)[1..] == Shapes(items[1..]);
      assert [items[0]] + items[1..] == items;
    }
  }

  /**
   Any list of fields that fits, put at any offset of any buffer: the matching getters return the
   same fields and stop where the putters stopped, and the rest of the buffer is as it was.
   */
  lemma RoundTrip(buff: seq<byte>, offset: nat, items: seq<Item>)
    requires forall i :: 0 <= i < |items| ==> Proper(items[i])
    requires offset + |EncodeAll(items)| <= |buff|
    ensures var end := offset + |EncodeAll(items)|;
            var sent := WriteAll(buff, offset, items);
            && ReadAll(Shapes(items), sent, offset) == Some((items, end))
            && sent[..offset] == buff[..offset] && sent[end..] == buff[end..]
  {
    WriteAllSplices(buff, offset, items);
    ReadAllEncoded(items, WriteAll(buff, offset, items), offset);
  }

  // ----- the layout in bytes -----

  /** The value of four bytes, least significant first. */
  function Weight(s: seq<byte>): int
    requires |s| >= 4
  {
    (s[0] as int) + 256 * (s[1] as int) + 65536 * (s[2] as int) + 16777216 * (s[3] as int)
  }

  /**
   An int takes four bytes, least significant first. A string and a binary are preceded by such a
   word with the number of bytes that follow: the characters and a NUL, or the bytes. A struct is its
   bytes alone.
   */
  lemma Layout(item: Item)
    requires Proper(item)
    ensures var e := Encode(item);
            match item
            case IntItem(v) => |e| == 4 && Weight(e) == v % 0x1_0000_0000
            case StringItem(s) => |e| == 4 + |s| + 1 && Weight(e) == |s| + 1 && e[4..4 + |s|] == s && e[4 + |s|] == 0
            case BinaryItem(b) => |e| == 4 + |b| && Weight(e) == |b| && e[4..] == b
            case StructItem(b) => e == b
  {
    hide Le32;
    match item
    case IntItem(v) => Le32Weights(v);
    case StringItem(s) => Le32Weights(|s| + 1);
    case BinaryItem(b) => Le32Weights(|b|);
    case StructItem(b) =>
  }
}

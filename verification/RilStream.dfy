/**
 Reading RIL messages from a socket that hands back as many bytes per read as it likes.

 Frames is the reference: it cuts a byte stream into messages without any notion of reads. The
 receiver is proved to agree with it whatever the sizes of the reads are.
 */
module RilStream {
  import opened Bytes

  // ----- the reference -----

  /** A message length as it is sent, most significant byte first. */
  function Be32(n: nat): (s: seq<byte>)
    requires n < TWO_31
    ensures |s| == 4
  {
    [n / 0x100_0000, n / 0x1_0000 % 0x100, n / 0x100 % 0x100, n % 0x100]
  }

  /** The length word as Java's signed int. */
  function LengthOf(header: seq<byte>): int
    requires |header| == 4
  {
    I32(0x100_0000 * (header[0] as int) + 0x1_0000 * (header[1] as int)
        + 0x100 * (header[2] as int) + (header[3] as int))
  }

  function Frame(message: seq<byte>): seq<byte>
    requires |message| < TWO_31
  {
    Be32(|message|) + message
  }

  /** How reading one message ends: with a message, at the end of the stream, or with an exception. */
  datatype Cut = Message(body: seq<byte>, rest: seq<byte>) | EndOfStream | Refused(unread: seq<byte>)

  /** The first message of a stream, for a buffer of `capacity` bytes. */
  function CutOne(data: seq<byte>, capacity: nat): (c: Cut)
    ensures c.Message? ==> |c.rest| < |data|
  {
    if |data| < 4 then EndOfStream
    else
      var len := LengthOf(data[..4]);
      if len < 0 || len > capacity then Refused(data[4..])
      else if |data| < 4 + len then EndOfStream
      else Message(data[4..4 + len], data[4 + len..])
  }

  datatype Ending = Eos | Exception

  function Frames(data: seq<byte>, capacity: nat): (seq<seq<byte>>, Ending)
    decreases |data|
  {
    match CutOne(data, capacity)
    case EndOfStream => ([], Eos)
    case Refused(_) => ([], Exception)
    case Message(body, rest) => var (more, end) := Frames(rest, capacity); ([body] + more, end)
  }

  // ----- the socket -----

  class InputStream {
    var data: seq<byte>    // what will still arrive
    var sizes: seq<nat>    // how many bytes the coming reads are willing to hand back

    constructor (data: seq<byte>, sizes: seq<nat>)
      ensures this.data == data && this.sizes == sizes
    {
      this.data, this.sizes := data, sizes;
    }

    /**
     read(buffer, offset, len): blocks for at least one byte, hands back 1 to len bytes, -1 at the
     end of the stream, and 0 when none are asked for.
     */
    method Read(buffer: array<byte>, offset: nat, len: nat) returns (count: int)
      requires offset + len <= buffer.Length
      modifies this, buffer
      ensures count == -1 <==> len > 0 && old(data) == []
      ensures count == -1 ==> data == [] && buffer[..] == old(buffer[..])
      ensures count != -1 ==> 0 <= count <= len && (len > 0 ==> count > 0) && count <= |old(data)|
      ensures count != -1 ==> data == old(data)[count..]
      ensures count != -1 ==> buffer[..offset] == old(buffer[..offset])
      ensures count != -1 ==> buffer[offset..offset + count] == old(data)[..count]
    {
      if len == 0 {
        return 0;
      }
      if data == [] {
        return -1;
      }
      var want := if sizes == [] || sizes[0] == 0 then 1 else sizes[0];
      sizes := if sizes == [] then [] else sizes[1..];
      var n := if want < len then want else len;
      n := if n < |data| then n else |data|;
      var arrived := data;
      var i := 0;
      while i < n
        invariant 0 <= i <= n && data == arrived
        invariant buffer[..offset] == old(buffer[..offset])
        invariant buffer[offset..offset + i] == arrived[..i]
      {
        buffer[offset + i] := arrived[i];
        i := i + 1;
      }
      data := data[n..];
      count := n;
    }

    /** The do-while loop that fills buffer[0..want]; false when the stream ends first. */
    method Fill(buffer: array<byte>, want: nat) returns (filled: bool)
      requires want <= buffer.Length
      modifies this, buffer
      ensures filled <==> want <= |old(data)|
      ensures filled ==> buffer[..want] == old(data)[..want] && data == old(data)[want..]
      ensures !filled ==> data == []
    {
      var offset, remaining := 0, want;
      var countRead := Read(buffer, offset, remaining);
      if countRead < 0 {
        return false;
      }
      offset := offset + countRead;
      remaining := remaining - countRead;
      while remaining > 0
        invariant 0 <= remaining && 0 <= offset && offset + remaining == want
        invariant offset <= |old(data)| && data == old(data)[offset..]
        invariant buffer[..offset] == old(data)[..offset]
      {
        countRead := Read(buffer, offset, remaining);
        if countRead < 0 {
          return false;
        }
        assert buffer[..offset + countRead] == buffer[..offset] + buffer[offset..offset + countRead];
        assert old(data)[..offset + countRead] == old(data)[..offset] + old(data)[offset..][..countRead];
        offset := offset + countRead;
        remaining := remaining - countRead;
      }
      filled := true;
    }
  }

  datatype Answer = Length(n: nat) | MinusOne | Thrown

  /**
   readRilMessage. A length the buffer cannot take, or a negative one, makes the socket's read
   throw.
   */
  method ReadRilMessage(input: InputStream, buffer: array<byte>) returns (r: Answer)
    requires buffer.Length >= 4
    modifies input, buffer
    ensures match CutOne(old(input.data), buffer.Length)
            case EndOfStream => r == MinusOne && input.data == []
            case Refused(unread) => r == Thrown && input.data == unread
            case Message(body, rest) => r == Length(|body|) && buffer[..|body|] == body && input.data == rest
  {
    var filled := input.Fill(buffer, 4);
    if !filled {
      return MinusOne;
    }
    assert buffer[..4] == old(input.data)[..4];
    var messageLength := I32(0x100_0000 * (buffer[0] as int) + 0x1_0000 * (buffer[1] as int)
                             + 0x100 * (buffer[2] as int) + (buffer[3] as int));
    assert messageLength == LengthOf(buffer[..4]);
    if messageLength < 0 || messageLength > buffer.Length {
      return Thrown;
    }
    filled := input.Fill(buffer, messageLength);
    if !filled {
      return MinusOne;
    }
    assert old(input.data)[4..][..messageLength] == old(input.data)[4..4 + messageLength];
    assert old(input.data)[4..][messageLength..] == old(input.data)[4 + messageLength..];
    r := Length(messageLength);
  }

  /**
   The receiver's inner loop: one message after the other until the stream ends or a read throws.
   What is received does not depend on the sizes of the reads, and the loop ends because every
   message uses up bytes.
   */
  method Receive(input: InputStream, buffer: array<byte>) returns (received: seq<seq<byte>>, end: Ending)
    requires buffer.Length >= 4
    modifies input, buffer
    ensures (received, end) == Frames(old(input.data), buffer.Length)
  {
    received := [];
    ghost var whole := Frames(input.data, buffer.Length);
    assert received + whole.0 == whole.0;
    while true
      invariant var (more, last) := Frames(input.data, buffer.Length); whole == (received + more, last)
      decreases |input.data|
    {
      ghost var was := received;
      var length := ReadRilMessage(input, buffer);
      match length
      case MinusOne =>
        assert received + [] == received;
        return received, Eos;
      case Thrown =>
        assert received + [] == received;
        return received, Exception;
      case Length(n) =>
        received := received + [buffer[..n]];
        assert forall more: seq<seq<byte>> :: was + ([buffer[..n]] + more) == received + more;
    }
  }

  // ----- what the reference delivers -----

  function FrameAll(messages: seq<seq<byte>>): seq<byte>
    requires forall m :: m in messages ==> |m| < TWO_31
  {
    if messages == [] then [] else Frame(messages[0]) + FrameAll(messages[1..])
  }

  lemma LengthOfBe32(n: nat)
    requires n < TWO_31
    ensures LengthOf(Be32(n)) == n
  {
    assert n == n % 0x100 + 0x100 * (n / 0x100);
    assert n / 0x100 == n / 0x100 % 0x100 + 0x100 * (n / 0x1_0000);
    assert n / 0x1_0000 == n / 0x1_0000 % 0x100 + 0x100 * (n / 0x100_0000);
  }

  lemma CutFrame(message: seq<byte>, rest: seq<byte>, capacity: nat)
    requires |message| <= capacity && |message| < TWO_31
    ensures CutOne(Frame(message) + rest, capacity) == Message(message, rest)
  {
    LengthOfBe32(|message|);
    hide Be32, LengthOf;
    var data := Frame(message) + rest;
    assert data[..4] == Be32(|message|);
    assert data[4..4 + |message|] == message && data[4 + |message|..] == rest;
  }

  /** The stream breaks off inside a message: its header or its body is not complete. */
  predicate Incomplete(tail: seq<byte>, capacity: nat) {
    CutOne(tail, capacity).EndOfStream?
  }

  /** Complete messages come out as they went in and in order; an unfinished one is never delivered. */
  lemma {:induction false} FramesOfMessages(messages: seq<seq<byte>>, tail: seq<byte>, capacity: nat)
    requires forall m :: m in messages ==> |m| <= capacity && |m| < TWO_31
    requires Incomplete(tail, capacity)
    ensures Frames(FrameAll(messages) + tail, capacity) == (messages, Eos)
    decreases messages
  {
    if messages == [] {
      assert FrameAll(messages) + tail == tail;
    } else {
      var rest := FrameAll(messages[1..]) + tail;
      assert FrameAll(messages) + tail == Frame(messages[0]) + rest;
      CutFrame(messages[0], rest, capacity);
      FramesOfMessages(messages[1..], tail, capacity);
      assert [messages[0]] + messages[1..] == messages;
    }
  }

  lemma Be32OfLength(header: seq<byte>)
    requires |header| == 4 && LengthOf(header) >= 0
    ensures Be32(LengthOf(header)) == header
  {
    var n := LengthOf(header);
    var n1 := 0x1_0000 * (header[0] as int) + 0x100 * (header[1] as int) + header[2];
    var n2 := 0x100 * (header[0] as int) + header[1];
    assert n == 0x100 * n1 + header[3];
    assert n1 == 0x100 * n2 + header[2];
    assert n / 0x100 == n1 && n % 0x100 == header[3];
    assert n / 0x1_0000 == n1 / 0x100 == n2;
    assert n / 0x100_0000 == n2 / 0x100 == header[0];
  }

  /** Conversely, what is received was all sent: the stream begins with exactly those messages. */
  lemma {:induction false} FramesAreThere(data: seq<byte>, capacity: nat)
    requires capacity < TWO_31
    ensures var (messages, end) := Frames(data, capacity);
            && (forall m :: m in messages ==> |m| <= capacity)
            && FrameAll(messages) <= data
            && (end == Eos <==> Incomplete(data[|FrameAll(messages)|..], capacity))
            && !CutOne(data[|FrameAll(messages)|..], capacity).Message?
    decreases |data|
  {
    match CutOne(data, capacity)
    case Message(body, rest) =>
      FramesAreThere(rest, capacity);
      CutIsFrame(data, capacity);
      hide Be32, LengthOf, CutOne;
      var more := Frames(rest, capacity).0;
      assert Frames(data, capacity).0 == [body] + more;
      assert ([body] + more)[1..] == more;
      assert data == Frame(body) + rest;
      assert data[|Frame(body) + FrameAll(more)|..] == rest[|FrameAll(more)|..];
    case _ =>
      assert data[0..] == data;
  }

  lemma CutIsFrame(data: seq<byte>, capacity: nat)
    requires capacity < TWO_31 && CutOne(data, capacity).Message?
    ensures var c := CutOne(data, capacity);
            |c.body| <= capacity && data == Frame(c.body) + c.rest
  {
    Be32OfLength(data[..4]);
    hide Be32, LengthOf;
    var c := CutOne(data, capacity);
    assert data == data[..4] + c.body + c.rest;
  }

  /** A message on the wire: its length in four bytes, most significant first, then the message. */
  lemma FrameLayout(message: seq<byte>)
    requires |message| < TWO_31
    ensures var f := Frame(message);
            && |f| == 4 + |message| && f[4..] == message
            && 16777216 * (f[0] as int) + 65536 * (f[1] as int) + 256 * (f[2] as int) + (f[3] as int) == |message|
  {
    LengthOfBe32(|message|);
  }
}

/**
  Length-prefixed message files: each message is preceded by its size in four bytes, in network
  byte order (most significant byte first, Appendix B of RFC 791).
 */
module Framing {
  import opened Wrappers
  import opened Numbers

  newtype byte = x: int | 0 <= x < 256

  type Payload = seq<byte>

  const HEADER: nat := 4

  /** The size as `htonl` lays it out. */
  function SizeBytes(size: nat): (r: seq<byte>)
    requires size < TWO_32
    ensures |r| == HEADER
  {
    var q1 := size / 0x100;
    var q2 := q1 / 0x100;
    var q3 := q2 / 0x100;
    [q3 as byte, (q2 % 0x100) as byte, (q1 % 0x100) as byte, (size % 0x100) as byte]
  }

  /** The size as `ntohl` reads it. */
  function SizeOf(header: seq<byte>): (r: nat)
    requires |header| == HEADER
    ensures r < TWO_32
  {
    ((header[0] as nat * 0x100 + header[1] as nat) * 0x100 + header[2] as nat) * 0x100 + header[3] as nat
  }

  /** What one `WriteMessage` appends; the size is cast to 32 bits. */
  function Frame(payload: Payload): seq<byte> {
    SizeBytes(AsUint32(|payload|)) + payload
  }

  function Frames(payloads: seq<Payload>): seq<byte> {
    if payloads == [] then [] else Frames(payloads[..|payloads| - 1]) + Frame(payloads[|payloads| - 1])
  }

  /** The size cast to a signed `int`. */
  function AsInt32(size: nat): int
    requires size < TWO_32
  {
    if size <= INT_MAX then size else size - TWO_32
  }

  /** What one read takes from the bytes that are left, and what it leaves. */
  datatype Reading = Reading(payload: Payload, rest: seq<byte>)

  /**
    The size limits the message, except that a negative limit, like one past the end, is no limit.
   */
  function ReadOne(data: seq<byte>): (r: Reading)
    requires |data| >= HEADER
    ensures |r.rest| < |data|
  {
    var limit := AsInt32(SizeOf(data[..HEADER]));
    var body := data[HEADER..];
    if 0 <= limit <= |body| then Reading(body[..limit], body[limit..]) else Reading(body, [])
  }

  /** Reading message after message to the end of the bytes; None when a size is cut short. */
  function ReadAll(data: seq<byte>): Option<seq<Payload>>
    decreases |data|
  {
    if data == [] then Some([])
    else if |data| < HEADER then None
    else
      match ReadAll(ReadOne(data).rest)
      case None => None
      case Some(more) => Some([ReadOne(data).payload] + more)
  }

  class MessageWriter {
    var output: seq<byte>

    constructor ()
      ensures output == []
    {
      output := [];
    }

    method WriteMessage(payload: Payload) returns (size: nat)
      modifies this
      ensures output == old(output) + Frame(payload)
      ensures |payload| < TWO_32 ==> size == |payload|
    {
      size := AsUint32(|payload|);
      output := output + SizeBytes(size);
      output := output + payload;
    }
  }

  /** One coded stream gives at most 2^31 - 1 bytes in all. */
  function Visible(data: seq<byte>): seq<byte> {
    if |data| <= INT_MAX then data else data[..INT_MAX]
  }

  /** What one reader makes of a stream, reading to the end of what it sees. */
  function ReadThrough(data: seq<byte>): Option<seq<Payload>> {
    ReadAll(Visible(data))
  }

  class MessageReader {
    const data: seq<byte>
    var position: nat

    ghost predicate Valid()
      reads this
    {
      position <= |data| <= INT_MAX
    }

    constructor (input: seq<byte>)
      ensures Valid() && data == Visible(input) && position == 0
    {
      data, position := Visible(input), 0;
    }

    /** Reads the message at the current position; the source demands that its size is there. */
    method ReadMessage() returns (payload: Payload)
      requires Valid() && position + HEADER <= |data|
      modifies this
      ensures Valid()
      ensures Reading(payload, data[position..]) == ReadOne(old(data[position..]))
    {
      ghost var left := data[position..];
      var size := SizeOf(data[position..position + HEADER]);
      assert left[..HEADER] == data[position..position + HEADER];
      position := position + HEADER;
      assert left[HEADER..] == data[position..];
      var limit := AsInt32(size);
      var end := if 0 <= limit <= |data| - position then position + limit else |data|;
      payload := data[position..end];
      position := end;
    }
  }

  /** Every payload is one that protobuf serialises: it has less than 2^31 bytes. */
  ghost predicate Small(payloads: seq<Payload>) {
    forall i :: 0 <= i < |payloads| ==> |payloads[i]| <= INT_MAX
  }

  /** Host to network byte order and back is the identity on 32-bit sizes, */
  lemma SizeRoundTrip(size: nat)
    requires size < TWO_32
    ensures SizeOf(SizeBytes(size)) == size
  {}

  /** and so is the way back. */
  lemma HeaderRoundTrip(header: seq<byte>)
    requires |header| == HEADER
    ensures SizeBytes(SizeOf(header)) == header
  {
    var a, b, c, d := header[0] as nat, header[1] as nat, header[2] as nat, header[3] as nat;
    assert ((a * 0x100 + b) * 0x100 + c) == SizeOf(header) / 0x100;
    assert a * 0x100 + b == SizeOf(header) / 0x100 / 0x100;
  }

  /** Four bytes for the size, the most significant one first, and then the payload. */
  lemma FrameMeans(payload: Payload)
    requires |payload| < 4294967296
    ensures var n := |payload|;
            Frame(payload) == [(n / 16777216) as byte, (n / 65536 % 256) as byte,
                               (n / 256 % 256) as byte, (n % 256) as byte] + payload
  {
  }

  /** What one read makes of four bytes and what is behind them. */
  lemma ReadOneMeans(a: byte, b: byte, c: byte, d: byte, body: seq<byte>)
    ensures var n := a as nat * 16777216 + b as nat * 65536 + c as nat * 256 + d as nat;
            ReadOne([a, b, c, d] + body)
            == if n <= 2147483647 && n <= |body| then Reading(body[..n], body[n..]) else Reading(body, [])
  {
    var data := [a, b, c, d] + body;
    assert data[..4] == [a, b, c, d] && data[4..] == body;
  }

  /** One reader sees the first 2147483647 bytes of a stream. */
  lemma VisibleMeans(data: seq<byte>)
    ensures Visible(data) <= data && |Visible(data)| == if |data| <= 2147483647 then |data| else 2147483647
  {}

  /** A frame of less than 2^31 bytes is read whole, and nothing after it is. */
  lemma FrameRead(payload: Payload, rest: seq<byte>)
    requires |payload| <= INT_MAX
    ensures ReadOne(Frame(payload) + rest) == Reading(payload, rest)
  {
    var s := Frame(payload) + rest;
    assert s[..HEADER] == SizeBytes(|payload|);
    assert s[HEADER..] == payload + rest;
    SizeRoundTrip(|payload|);
  }

  lemma {:induction false} FramesAppend(a: seq<Payload>, b: seq<Payload>)
    ensures Frames(a + b) == Frames(a) + Frames(b)
  {
    if b == [] {
      assert a + b == a;
    } else {
      var init, last := b[..|b| - 1], b[|b| - 1];
      assert (a + b)[..|a + b| - 1] == a + init;
      FramesAppend(a, init);
      Assoc(Frames(a), Frames(init), Frame(last));
    }
  }

  lemma FirstRead(payload: Payload, data: seq<byte>)
    requires |payload| <= INT_MAX && ReadAll(data).Some?
    ensures ReadAll(Frame(payload) + data) == Some([payload] + ReadAll(data).value)
  {
    FrameRead(payload, data);
  }

  lemma {:induction false} FramesRead(payloads: seq<Payload>, data: seq<byte>)
    requires Small(payloads) && ReadAll(data).Some?
    ensures ReadAll(Frames(payloads) + data) == Some(payloads + ReadAll(data).value)
  {
    if payloads == [] {
      assert [] + data == data;
      assert [] + ReadAll(data).value == ReadAll(data).value;
    } else {
      var init, last := payloads[..|payloads| - 1], payloads[|payloads| - 1];
      var t, more := Frame(last) + data, ReadAll(data).value;
      assert Frames(payloads) + data == Frames(init) + t by {
        Assoc(Frames(init), Frame(last), data);
      }
      assert payloads + more == init + ([last] + more) by {
        assert init + [last] == payloads;
        Assoc(init, [last], more);
      }
      FirstRead(last, data);
      FramesRead(init, t);
    }
  }

  /** Framing round trip: reading the frames of any list returns the list and consumes every byte. */
  lemma FramingRoundTrip(payloads: seq<Payload>)
    requires Small(payloads)
    ensures ReadAll(Frames(payloads)) == Some(payloads)
  {
    FramesRead(payloads, []);
    assert Frames(payloads) + [] == Frames(payloads);
    assert payloads + [] == payloads;
  }

  /** Reading accounts for every byte. */
  lemma {:induction false} BytesRead(data: seq<byte>)
    requires ReadAll(data).Some?
    ensures |Frames(ReadAll(data).value)| == |data|
    decreases |data|
  {
    if data != [] {
      var one := ReadOne(data);
      BytesRead(one.rest);
      FramesAppend([one.payload], ReadAll(one.rest).value);
      FrameAlone(one.payload);
    }
  }

  lemma FrameAlone(payload: Payload)
    ensures Frames([payload]) == Frame(payload)
  {
    assert [payload][..0] == [];
    assert [] + Frame(payload) == Frame(payload);
  }

  /** One reader gets all the messages of a stream exactly if it has less than 2^31 bytes. */
  lemma {:induction false} OneReaderExactly(data: seq<byte>)
    requires ReadAll(data).Some?
    ensures ReadThrough(data) == ReadAll(data) <==> |data| <= INT_MAX
  {
    BytesRead(data);
    if ReadThrough(data).Some? {
      BytesRead(Visible(data));
    }
  }

  /** So one reader undoes the writer exactly on lists whose frames have less than 2^31 bytes in all. */
  lemma OneReaderRoundTrip(payloads: seq<Payload>)
    ensures ReadThrough(Frames(payloads)) == Some(payloads) <==> |Frames(payloads)| <= INT_MAX
  {
    if |Frames(payloads)| <= INT_MAX {
      SmallTogether(payloads);
      FramingRoundTrip(payloads);
    } else if ReadThrough(Frames(payloads)) == Some(payloads) {
      BytesRead(Visible(Frames(payloads)));
    }
  }

  lemma {:induction false} SmallTogether(payloads: seq<Payload>)
    ensures forall i :: 0 <= i < |payloads| ==> |payloads[i]| <= |Frames(payloads)|
  {
    if payloads != [] {
      var init := payloads[..|payloads| - 1];
      SmallTogether(init);
      assert forall i :: 0 <= i < |init| ==> init[i] == payloads[i];
    }
  }

  /** Two different lists never share an encoding. */
  lemma FramingIsInjective(a: seq<Payload>, b: seq<Payload>)
    requires Small(a) && Small(b) && Frames(a) == Frames(b)
    ensures a == b
  {
    FramingRoundTrip(a);
    FramingRoundTrip(b);
  }

  // ---- Streams of messages of one type ----

  /** The messages, serialised. */
  function Encoded<T>(encode: T -> Payload, messages: seq<T>): seq<Payload> {
    if messages == [] then []
    else Encoded(encode, messages[..|messages| - 1]) + [encode(messages[|messages| - 1])]
  }

  /** The bytes of a stream. */
  function Stream<T>(encode: T -> Payload, messages: seq<T>): seq<byte> {
    Frames(Encoded(encode, messages))
  }

  function Decoded<T>(decode: Payload -> T, payloads: seq<Payload>): seq<T> {
    if payloads == [] then []
    else Decoded(decode, payloads[..|payloads| - 1]) + [decode(payloads[|payloads| - 1])]
  }

  /** What a client makes of a stream, reading to its end. */
  function ReadStream<T>(decode: Payload -> T, data: seq<byte>): Option<seq<T>> {
    match ReadAll(data)
    case None => None
    case Some(payloads) => Some(Decoded(decode, payloads))
  }

  /** Parsing undoes serialising on these messages, and each has less than 2^31 bytes. */
  ghost predicate Readable<T>(encode: T -> Payload, decode: Payload -> T, messages: seq<T>) {
    forall i :: 0 <= i < |messages| ==> decode(encode(messages[i])) == messages[i] && |encode(messages[i])| <= INT_MAX
  }

  lemma StreamStep<T>(encode: T -> Payload, messages: seq<T>, message: T)
    ensures Stream(encode, messages + [message]) == Stream(encode, messages) + Frame(encode(message))
  {
    assert (messages + [message])[..|messages|] == messages;
    var init := Encoded(encode, messages);
    assert (init + [encode(message)])[..|init|] == init;
  }

  lemma {:induction false} StreamAppend<T>(encode: T -> Payload, a: seq<T>, b: seq<T>)
    ensures Stream(encode, a + b) == Stream(encode, a) + Stream(encode, b)
  {
    if b == [] {
      assert a + b == a;
    } else {
      var init, last := b[..|b| - 1], b[|b| - 1];
      assert a + b == (a + init) + [last];
      assert b == init + [last];
      StreamStep(encode, a + init, last);
      StreamStep(encode, init, last);
      StreamAppend(encode, a, init);
      Assoc(Stream(encode, a), Stream(encode, init), Frame(encode(last)));
    }
  }

  lemma {:induction false} EncodedSmall<T>(encode: T -> Payload, decode: Payload -> T, messages: seq<T>)
    requires Readable(encode, decode, messages)
    ensures Small(Encoded(encode, messages)) && Decoded(decode, Encoded(encode, messages)) == messages
  {
    if messages != [] {
      var init, last := messages[..|messages| - 1], messages[|messages| - 1];
      assert forall i :: 0 <= i < |init| ==> init[i] == messages[i];
      EncodedSmall(encode, decode, init);
      var payloads := Encoded(encode, init);
      assert (payloads + [encode(last)])[..|payloads|] == payloads;
      assert init + [last] == messages;
    }
  }

  /** A stream of messages gives the messages back. */
  lemma StreamReadBack<T>(encode: T -> Payload, decode: Payload -> T, messages: seq<T>)
    requires Readable(encode, decode, messages)
    ensures ReadStream(decode, Stream(encode, messages)) == Some(messages)
  {
    EncodedSmall(encode, decode, messages);
    FramingRoundTrip(Encoded(encode, messages));
  }
}

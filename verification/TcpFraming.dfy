/** Control-message frames on the TCP stream: encoding, decoding and reassembly. */
module TcpFraming {
  import opened Bytes
  import opened FancyCodec

  const MAX_PAYLOAD_SIZE: nat := 8 * 1024 * 1024
  const HEADER_SIZE: nat := 6

  // -- Big-endian header fields -----------------------------------------------------

  function PutU16(n: U16): (s: seq<Byte>)
    ensures |s| == 2
  {
    [n / 0x100, n % 0x100]
  }

  function GetU16(s: seq<Byte>): (n: U16)
    requires |s| == 2
  {
    var high: int, low: int := s[0], s[1];
    high * 0x100 + low
  }

  function PutU32(n: nat): (s: seq<Byte>)
    requires n < 0x1_0000_0000
    ensures |s| == 4
  {
    PutU16(n / 0x1_0000) + PutU16(n % 0x1_0000)
  }

  function GetU32(s: seq<Byte>): (n: nat)
    requires |s| == 4
  {
    GetU16(s[..2]) * 0x1_0000 + GetU16(s[2..])
  }

  lemma U32RoundTrip(n: nat)
    requires n < 0x1_0000_0000
    ensures GetU32(PutU32(n)) == n
  {
    assert PutU32(n)[..2] == PutU16(n / 0x1_0000) && PutU32(n)[2..] == PutU16(n % 0x1_0000);
  }

  // -- One frame ---------------------------------------------------------------------------

  /** The frame of a message; a length over 32 bits is truncated by the cast. */
  function EncodeFrame(w: Wire, m: Message): (frame: seq<Byte>)
  {
    var payload := w.serialize(m);
    PutU16(TypeId(m)) + PutU32(|payload| % 0x1_0000_0000) + payload
  }

  /** The result of one decode and what is left in the buffer. */
  datatype Decoded = NeedMore | Frame(msg: Message, rest: seq<Byte>) | Failed(rest: seq<Byte>)

  function DecodeFrame(w: Wire, buf: seq<Byte>): (d: Decoded)
    ensures d.Frame? ==> |d.rest| + HEADER_SIZE <= |buf|
  {
    if |buf| < HEADER_SIZE then NeedMore
    else
      var id, len := GetU16(buf[..2]), GetU32(buf[2..6]);
      if len > MAX_PAYLOAD_SIZE then Failed(buf)
      else if |buf| < HEADER_SIZE + len then NeedMore
      else
        var rest := buf[HEADER_SIZE + len..];
        match w.deserialize(id, buf[HEADER_SIZE..HEADER_SIZE + len])
        case Some(m) => Frame(m, rest)
        case None => Failed(rest)
  }

  lemma FrameFields(w: Wire, m: Message, tail: seq<Byte>)
    ensures var buf, n := EncodeFrame(w, m) + tail, |w.serialize(m)|;
            && |EncodeFrame(w, m)| == 6 + n
            && GetU16(buf[..2]) == TypeId(m) && GetU32(buf[2..6]) == n % 0x1_0000_0000
            && buf[6..6 + n] == w.serialize(m) && buf[6 + n..] == tail
  {
    var buf, n := EncodeFrame(w, m) + tail, |w.serialize(m)|;
    U32RoundTrip(n % 0x1_0000_0000);
    assert buf[..2] == PutU16(TypeId(m)) && buf[2..6] == PutU32(n % 0x1_0000_0000);
  }

  /** The layout on the wire: the type id and the payload's length, both big endian, in 2
      and 4 bytes, and then the payload. */
  lemma FrameLayout(w: Wire, m: Message)
    ensures var f, n := EncodeFrame(w, m), |w.serialize(m)|;
            && |f| == 6 + n
            && BigEndian(f[..2]) == TypeId(m) && BigEndian(f[2..6]) == n % 0x1_0000_0000 && f[6..] == w.serialize(m)
  {
    FrameFields(w, m, []);
    var f := EncodeFrame(w, m);
    assert f + [] == f;
    TwoBytes(f[..2]);
    TwoBytes(f[2..6][..2]);
    TwoBytes(f[2..6][2..]);
    FourBytes(f[2..6]);
  }

  lemma TwoBytes(s: seq<Byte>)
    requires |s| == 2
    ensures GetU16(s) == BigEndian(s)
  {
    assert s[..1] == [s[0]];
    OneByteValue(s[0]);
  }

  lemma OneByteValue(x: Byte)
    ensures BigEndian([x]) == x
  {
    assert [x][..0] == [] && BigEndian([]) == 0;
  }

  lemma FourBytes(s: seq<Byte>)
    requires |s| == 4
    ensures BigEndian(s) == 0x1_0000 * BigEndian(s[..2]) + BigEndian(s[2..])
  {
    assert s[..3][..2] == s[..2] && s[2..][..1] == [s[2]];
    assert BigEndian(s[..3]) == 256 * BigEndian(s[..2]) + s[2];
    assert BigEndian(s[2..]) == 256 * BigEndian([s[2]]) + s[3];
    OneByteValue(s[2]);
  }

  /** A frame of any length decodes back, leaving exactly what follows it, if and only if
      its payload is at most 8 MiB. */
  lemma FrameRoundTripIff(w: Wire, m: Message, tail: seq<Byte>)
    requires Faithful(w) && WellFormed(m)
    ensures DecodeFrame(w, EncodeFrame(w, m) + tail) == Frame(m, tail) <==> |w.serialize(m)| <= 0x80_0000
  {
    hide GetU16, GetU32, EncodeFrame;
    FrameFields(w, m, tail);
    var buf, n := EncodeFrame(w, m) + tail, |w.serialize(m)|;
    if n <= MAX_PAYLOAD_SIZE {
      assert n % 0x1_0000_0000 == n;
    } else {
      var len := GetU32(buf[2..6]);
      assert len <= MAX_PAYLOAD_SIZE ==> len < n && |buf[6 + len..]| > |tail|;
    }
  }

  /** Any bytes: fewer than six wait; a length over 8 MiB fails at once and consumes nothing;
      otherwise the whole frame is waited for, and consumed whether or not its payload
      deserializes. */
  lemma DecodesByHeader(w: Wire, buf: seq<Byte>)
    ensures |buf| < 6 ==> DecodeFrame(w, buf) == NeedMore
    ensures |buf| >= 6 ==>
              var id, len := BigEndian(buf[..2]), BigEndian(buf[2..6]);
              if len > 0x80_0000 then DecodeFrame(w, buf) == Failed(buf)
              else if |buf| < 6 + len then DecodeFrame(w, buf) == NeedMore
              else
                var got := w.deserialize(GetU16(buf[..2]), buf[6..6 + len]);
                && GetU16(buf[..2]) == id
                && DecodeFrame(w, buf) ==
                   if got.Some? then Frame(got.value, buf[6 + len..]) else Failed(buf[6 + len..])
  {
    hide BigEndian, GetU16;
    if |buf| >= 6 {
      TwoBytes(buf[..2]);
      TwoBytes(buf[2..6][..2]);
      TwoBytes(buf[2..6][2..]);
      FourBytes(buf[2..6]);
    }
  }

  /** Every proper prefix of a frame asks for more. */
  lemma PrefixNeedsMore(w: Wire, m: Message, k: nat)
    requires |w.serialize(m)| <= MAX_PAYLOAD_SIZE && k < |EncodeFrame(w, m)|
    ensures DecodeFrame(w, EncodeFrame(w, m)[..k]) == NeedMore
  {
    FrameFields(w, m, []);
    var whole := EncodeFrame(w, m) + [];
    assert whole == EncodeFrame(w, m);
    if k >= 6 { assert whole[..k][2..6] == whole[2..6]; }
  }

  /** Later bytes do not change a decision already made. */
  lemma DecodeExtends(w: Wire, buf: seq<Byte>, more: seq<Byte>)
    ensures match DecodeFrame(w, buf)
            case NeedMore => true
            case Frame(m, rest) => DecodeFrame(w, buf + more) == Frame(m, rest + more)
            case Failed(rest) => DecodeFrame(w, buf + more) == Failed(rest + more)
  {
    if |buf| >= 6 {
      var all, len := buf + more, GetU32(buf[2..6]);
      assert all[..2] == buf[..2] && all[2..6] == buf[2..6];
      if |buf| >= 6 + len {
        assert all[6..6 + len] == buf[6..6 + len] && all[6 + len..] == buf[6 + len..] + more;
      }
    }
  }

  // -- The whole stream ------------------------------------------------------------------

  /** Messages of a byte stream in order, what is left, and whether it ended in an error. */
  datatype Parsed = Parsed(msgs: seq<Message>, rest: seq<Byte>, failed: bool)

  function Parse(w: Wire, bytes: seq<Byte>): (p: Parsed)
    decreases |bytes|
  {
    match DecodeFrame(w, bytes)
    case NeedMore => Parsed([], bytes, false)
    case Failed(rest) => Parsed([], rest, true)
    case Frame(m, rest) => var p := Parse(w, rest); p.(msgs := [m] + p.msgs)
  }

  lemma ParseStep(w: Wire, bytes: seq<Byte>)
    ensures var d := DecodeFrame(w, bytes);
            && (d.NeedMore? ==> Parse(w, bytes) == Parsed([], bytes, false))
            && (d.Failed? ==> Parse(w, bytes) == Parsed([], d.rest, true))
            && (d.Frame? ==>
                  && |d.rest| < |bytes|
                  && var p := Parse(w, d.rest); Parse(w, bytes) == Parsed([d.msg] + p.msgs, p.rest, p.failed))
  {
  }

  /** No read, or an empty one, means that the peer has closed. */
  predicate Closed(chunks: seq<seq<Byte>>) { chunks == [] || chunks[0] == [] }

  /** The bytes of all reads up to the first empty one. */
  function Delivered(chunks: seq<seq<Byte>>): (bytes: seq<Byte>) {
    if Closed(chunks) then [] else chunks[0] + Delivered(chunks[1..])
  }

  function Joined(chunks: seq<seq<Byte>>): (bytes: seq<Byte>) {
    if chunks == [] then [] else chunks[0] + Joined(chunks[1..])
  }

  /** Reads are taken one after the other up to an empty one, and what is behind it never. */
  lemma {:induction false} DeliveredUpToEmpty(chunks: seq<seq<Byte>>, after: seq<seq<Byte>>)
    requires forall i :: 0 <= i < |chunks| ==> chunks[i] != []
    ensures Delivered(chunks) == Joined(chunks) == Delivered(chunks + [[]] + after)
  {
    if chunks != [] {
      DeliveredUpToEmpty(chunks[1..], after);
      assert (chunks + [[]] + after)[1..] == chunks[1..] + [[]] + after;
    }
  }

  function Frames(w: Wire, ms: seq<Message>): (bytes: seq<Byte>) {
    if ms == [] then [] else EncodeFrame(w, ms[0]) + Frames(w, ms[1..])
  }

  ghost predicate Sendable(w: Wire, ms: seq<Message>) {
    forall i :: 0 <= i < |ms| ==> WellFormed(ms[i]) && |w.serialize(ms[i])| <= MAX_PAYLOAD_SIZE
  }

  lemma {:induction false} ParseFrames(w: Wire, ms: seq<Message>, tail: seq<Byte>)
    requires Faithful(w) && Sendable(w, ms) && DecodeFrame(w, tail) == NeedMore
    ensures Parse(w, Frames(w, ms) + tail) == Parsed(ms, tail, false)
    decreases |ms|
  {
    if ms == [] {
      assert Frames(w, ms) + tail == tail;
    } else {
      var rest := Frames(w, ms[1..]) + tail;
      FrameRoundTripIff(w, ms[0], rest);
      assert Frames(w, ms) + tail == EncodeFrame(w, ms[0]) + rest;
      ParseFrames(w, ms[1..], tail);
    }
  }

  /** The reading half of a connection. `incoming` is what the peer will still
      deliver, one element per read; an empty
      read, or none, means that the peer has closed. */
  class TcpReader {
    const w: Wire
    var readBuf: seq<Byte>
    var incoming: seq<seq<Byte>>

    ghost function Pending(): (bytes: seq<Byte>)
      reads this
    {
      readBuf + Delivered(incoming)
    }

    constructor (w: Wire, incoming: seq<seq<Byte>>)
      ensures this.w == w && readBuf == [] && this.incoming == incoming
    {
      this.w, this.incoming, readBuf := w, incoming, [];
    }

    /** Waits for the next message; no message means an error or a closed connection. */
    method Recv() returns (msg: Option<Message>, failed: bool)
      modifies this
      ensures match DecodeFrame(w, old(Pending()))
              case NeedMore => msg == None && !failed && Closed(incoming) && readBuf == old(Pending())
              case Failed(rest) => msg == None && failed && Pending() == rest
              case Frame(m, rest) => msg == Some(m) && !failed && Pending() == rest
    {
      hide DecodeFrame;
      while true
        invariant Pending() == old(Pending())
        decreases |incoming|
      {
        DecodeExtends(w, readBuf, Delivered(incoming));
        match DecodeFrame(w, readBuf) {
          case Frame(m, rest) =>
            readBuf := rest;
            return Some(m), false;
          case Failed(rest) =>
            readBuf := rest;
            return None, true;
          case NeedMore =>
            if Closed(incoming) {
              assert readBuf + [] == readBuf;
              return None, false;
            }
            assert readBuf + Delivered(incoming) == (readBuf + incoming[0]) + Delivered(incoming[1..]);
            readBuf, incoming := readBuf + incoming[0], incoming[1..];
        }
      }
    }

    /** The reader task: receive until an error or the end of the stream. However
        the bytes were cut, the result is that of parsing them in one piece. */
    method ReadAll() returns (msgs: seq<Message>, failed: bool)
      modifies this
      ensures Parse(w, old(Pending())) == Parsed(msgs, Pending(), failed)
      ensures !failed ==> Closed(incoming)
    {
      hide DecodeFrame, Parse;
      msgs, failed := [], false;
      while true
        invariant var p := Parse(w, Pending());
                  Parse(w, old(Pending())) == Parsed(msgs + p.msgs, p.rest, p.failed)
        decreases |Pending()|
      {
        ParseStep(w, Pending());
        var msg;
        msg, failed := Recv();
        if msg.None? {
          assert !failed ==> readBuf + [] == readBuf;
          return;
        }
        msgs := msgs + [msg.value];
      }
    }
  }

  /** However the frames of a list of messages, followed by an unfinished frame,
      are cut into reads, the receive loop returns exactly that list in order and
      keeps exactly the unfinished part. */
  method Reassemble(w: Wire, ms: seq<Message>, tail: seq<Byte>, chunks: seq<seq<Byte>>)
    returns (msgs: seq<Message>, kept: seq<Byte>, failed: bool)
    requires Faithful(w) && Sendable(w, ms) && DecodeFrame(w, tail) == NeedMore
    requires Delivered(chunks) == Frames(w, ms) + tail
    ensures msgs == ms && kept == tail && !failed
  {
    var reader := new TcpReader(w, chunks);
    assert reader.Pending() == Frames(w, ms) + tail;
    ParseFrames(w, ms, tail);
    msgs, failed := reader.ReadAll();
    kept := reader.readBuf;
  }
}

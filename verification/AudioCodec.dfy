/** The Mumble varint, the legacy audio packet, and the tunnel's choice of format. */
module AudioCodec {
  import opened Bytes

  const U64: nat := 0x1_0000_0000_0000_0000
  const U32: nat := 0x1_0000_0000

  // -- Varints ------------------------------------------------------------------------

  datatype Varint = Varint(value: nat, consumed: nat)

  /** How many bytes follow a first byte, and how many of its values carry payload. */
  function Shape(first: Byte): (s: Option<(nat, nat)>)
  {
    if first < 0x80 then Some((0, 0x80))
    else if first < 0xC0 then Some((1, 0x40))
    else if first < 0xE0 then Some((2, 0x20))
    else if first < 0xF0 then Some((3, 0x10))
    else if first == 0xF0 then Some((4, 1))
    else if first == 0xF4 then Some((8, 1))
    else None
  }

  function Read(buf: seq<Byte>): (r: Option<Varint>)
    ensures r.Some? ==> 0 < r.value.consumed <= |buf|
  {
    if buf == [] then None
    else
      match Shape(buf[0])
      case None => None
      case Some((more, carried)) =>
        if |buf| < 1 + more then None
        else
          var high: nat := buf[0] % carried;
          Some(Varint(high * Pow2(8 * more) + BigEndian(buf[1..1 + more]), 1 + more))
  }

  /** The bytes `write` appends for a 64-bit value. */
  function Written(val: nat): (s: seq<Byte>)
    requires val < U64
    ensures s != []
  {
    if val < 0x80 then [val]
    else if val < 0x4000 then [0x80 + val / 0x100] + ToBigEndian(val, 1)
    else if val < 0x20_0000 then [0xC0 + val / 0x1_0000] + ToBigEndian(val, 2)
    else if val < 0x1000_0000 then [0xE0 + val / 0x100_0000] + ToBigEndian(val, 3)
    else if val < U32 then [0xF0] + ToBigEndian(val, 4)
    else [0xF4] + ToBigEndian(val, 8)
  }

  method Write(buf: seq<Byte>, val: nat) returns (r: seq<Byte>)
    requires val < U64
    ensures r == buf + Written(val)
  {
    if val < 0x80 {
      r := buf + [val];
    } else if val < 0x4000 {
      r := buf + [0x80 + val / 0x100];
      r := Append(r, val, 1);
    } else if val < 0x20_0000 {
      r := buf + [0xC0 + val / 0x1_0000];
      r := Append(r, val, 2);
    } else if val < 0x1000_0000 {
      r := buf + [0xE0 + val / 0x100_0000];
      r := Append(r, val, 3);
    } else if val < U32 {
      r := buf + [0xF0];
      r := Append(r, val, 4);
    } else {
      r := buf + [0xF4];
      r := Append(r, val, 8);
    }
  }

  /** Push the low `k` bytes of a value, most significant first. */
  method Append(buf: seq<Byte>, val: nat, k: nat) returns (r: seq<Byte>)
    ensures r == buf + ToBigEndian(val, k)
  {
    r := buf;
    var shift := k;
    while shift > 0
      invariant 0 <= shift <= k
      invariant r == buf + ToBigEndian(Shifted(val, shift), k - shift)
    {
      shift := shift - 1;
      r := r + [Shifted(val, shift) % 256];
    }
  }

  /** A value without its low `shift` bytes. */
  function Shifted(val: nat, shift: nat): (r: nat) {
    if shift == 0 then val else Shifted(val, shift - 1) / 256
  }

  lemma DivideTwice(n: nat, a: nat, b: nat)
    requires a > 0 && b > 0
    ensures a * b > 0 && n / a / b == n / (a * b)
  {
    var q, r := n / a, n % a;
    Regroup(n, a, b, q, r, q / b, q % b);
    QuotientIs(n, a * b, q / b, a * (q % b) + r);
  }

  lemma Regroup(n: nat, a: nat, b: nat, q: nat, r: nat, q': nat, r': nat)
    requires n == a * q + r && q == b * q' + r' && r < a && r' < b
    ensures n == (a * b) * q' + (a * r' + r) && a * r' + r < a * b
  {
    Distribute(a, b, q', r');
    MulMonotone(a, r' + 1, b);
  }

  lemma Distribute(a: nat, b: nat, q: nat, r: nat)
    ensures a * (b * q + r) == (a * b) * q + a * r
  {
    assert a * (b * q) == (a * b) * q;
  }

  // -- Varints read back ------------------------------------------------------------------

  lemma Powers()
    ensures Pow2(0) == 1 && Pow2(8) == 0x100 && Pow2(16) == 0x1_0000 && Pow2(24) == 0x100_0000
    ensures Pow2(32) == U32 && Pow2(64) == U64
  {
    Pow2Of8();
    Pow2Add(8, 8);
    Pow2Add(8, 16);
    Pow2Add(16, 16);
    Pow2Add(32, 32);
  }

  /** A written first byte followed by the low bytes of the value reads back. */
  lemma ReadsBack(first: Byte, val: nat, more: nat, carried: nat, p: nat, tail: seq<Byte>)
    requires Shape(first) == Some((more, carried)) && p == Pow2(8 * more)
    requires val == (first % carried) * p + val % p
    ensures Read([first] + ToBigEndian(val, more) + tail) == Some(Varint(val, 1 + more))
  {
    hide Pow2, BigEndian, ToBigEndian, Shape;
    LowBytes(val, more);
    var buf := [first] + ToBigEndian(val, more) + tail;
    assert buf[1..1 + more] == ToBigEndian(val, more);
  }

  lemma LowBytes(val: nat, k: nat)
    ensures BigEndian(ToBigEndian(val, k)) == val % Pow2(8 * k)
    decreases k
  {
    if k > 0 {
      LowBytes(val / 256, k - 1);
      assert ToBigEndian(val, k)[..k - 1] == ToBigEndian(val / 256, k - 1);
      Pow2Add(8, 8 * (k - 1));
      Pow2Of8();
      RemainderSplit(val, Pow2(8 * (k - 1)));
    }
  }

  lemma RemainderSplit(n: nat, m: nat)
    requires m > 0
    ensures 256 * (n / 256 % m) + n % 256 == n % (256 * m)
  {
    DivideTwice(n, 256, m);
    var q := n / 256 / m;
    assert n / 256 == m * q + n / 256 % m;
    assert 256 * (m * q) == (256 * m) * q;
    assert n == (256 * m) * q + n % (256 * m);
  }

  /** Reading inverts writing, for every 64-bit value and whatever follows. */
  lemma ReadWritten(val: nat, tail: seq<Byte>)
    requires val < U64
    ensures Read(Written(val) + tail) == Some(Varint(val, |Written(val)|))
  {
    hide Pow2, BigEndian, ToBigEndian, Read;
    Powers();
    if val < 0x80 {
      assert Written(val) == [val] + ToBigEndian(val, 0);
      ReadsBack(val, val, 0, 0x80, 1, tail);
    } else if val < 0x4000 {
      FirstByte(0x80, val / 0x100, 0x40);
      ReadsBack(0x80 + val / 0x100, val, 1, 0x40, 0x100, tail);
    } else if val < 0x20_0000 {
      FirstByte(0xC0, val / 0x1_0000, 0x20);
      ReadsBack(0xC0 + val / 0x1_0000, val, 2, 0x20, 0x1_0000, tail);
    } else if val < 0x1000_0000 {
      FirstByte(0xE0, val / 0x100_0000, 0x10);
      ReadsBack(0xE0 + val / 0x100_0000, val, 3, 0x10, 0x100_0000, tail);
    } else {
      ReadLong(val, tail);
    }
  }

  lemma FirstByte(prefix: nat, high: nat, carried: nat)
    requires (prefix, carried) in {(0x80, 0x40), (0xC0, 0x20), (0xE0, 0x10)} && high < carried
    ensures Shape(prefix + high).Some? && Shape(prefix + high).value.1 == carried
    ensures (prefix + high) % carried == high
  {
  }

  lemma ReadLong(val: nat, tail: seq<Byte>)
    requires 0x1000_0000 <= val < U64
    ensures Read(Written(val) + tail) == Some(Varint(val, |Written(val)|))
  {
    hide Pow2, BigEndian, ToBigEndian, Read;
    Powers();
    if val < U32 {
      ReadsBack(0xF0, val, 4, 1, U32, tail);
    } else {
      ReadsBack(0xF4, val, 8, 1, U64, tail);
    }
  }

  /** No encoding is a prefix of another one's. */
  lemma PrefixFree(u: nat, v: nat)
    requires u < U64 && v < U64 && Written(u) <= Written(v)
    ensures u == v
  {
    hide Read, Written;
    var tail := Written(v)[|Written(u)|..];
    ReadWritten(u, tail);
    ReadWritten(v, []);
    assert Written(u) + tail == Written(v) == Written(v) + [];
  }

  /** No accepted encoding of a value is shorter than the written one. */
  lemma WrittenIsShortest(buf: seq<Byte>)
    requires Read(buf).Some?
    ensures Read(buf).value.value < U64
    ensures |Written(Read(buf).value.value)| <= Read(buf).value.consumed
  {
    hide Pow2, BigEndian, ToBigEndian;
    var more := Shape(buf[0]).value.0;
    Powers();
    BigEndianBound(buf[1..1 + more]);
  }

  /** What is read from any bytes: the same six forms, none if bytes are missing, and none
      for the remaining first bytes. */
  lemma ReadForms(buf: seq<Byte>)
    ensures buf == [] ==> Read(buf) == None
    ensures buf != [] ==>
              var b, n := buf[0], |buf|;
              if b < 0x80 then Read(buf) == Some(Varint(b, 1))
              else if b < 0xC0 then
                Read(buf) == if n < 2 then None else Some(Varint((b - 0x80) * 0x100 + buf[1], 2))
              else if b < 0xE0 then
                Read(buf) == if n < 3 then None else Some(Varint((b - 0xC0) * 0x1_0000 + BigEndian(buf[1..3]), 3))
              else if b < 0xF0 then
                Read(buf) == if n < 4 then None else Some(Varint((b - 0xE0) * 0x100_0000 + BigEndian(buf[1..4]), 4))
              else if b == 0xF0 then Read(buf) == if n < 5 then None else Some(Varint(BigEndian(buf[1..5]), 5))
              else if b == 0xF4 then Read(buf) == if n < 9 then None else Some(Varint(BigEndian(buf[1..9]), 9))
              else Read(buf) == None
  {
    hide BigEndian, Pow2;
    Powers();
    NoBytes();
    if buf != [] { assert buf[1..1] == []; }
    if |buf| >= 2 { OneByteValue(buf[1..2]); }
  }

  lemma NoBytes()
    ensures BigEndian([]) == 0 && Pow2(0) == 1
  {
  }

  lemma OneByteValue(s: seq<Byte>)
    requires |s| == 1
    ensures BigEndian(s) == s[0]
  {
    assert s[..0] == [];
  }

  /** The six forms, byte by byte. */
  lemma VarintForms(v: nat)
    requires v < U64
    ensures v < 0x80 ==> Written(v) == [v]
    ensures 0x80 <= v < 0x4000 ==> Written(v) == [0x80 + v / 0x100, v % 0x100]
    ensures 0x4000 <= v < 0x20_0000 ==> Written(v) == [0xC0 + v / 0x1_0000, v / 0x100 % 0x100, v % 0x100]
    ensures 0x20_0000 <= v < 0x1000_0000 ==>
              Written(v) == [0xE0 + v / 0x100_0000, v / 0x1_0000 % 0x100, v / 0x100 % 0x100, v % 0x100]
    ensures 0x1000_0000 <= v < 0x1_0000_0000 ==>
              Written(v) == [0xF0, v / 0x100_0000, v / 0x1_0000 % 0x100, v / 0x100 % 0x100, v % 0x100]
    ensures v >= 0x1_0000_0000 ==>
              |Written(v)| == 9 && Written(v)[0] == 0xF4 && BigEndian(Written(v)[1..]) == v
  {
    hide ToBigEndian, BigEndian;
    OneByte(v);
    TwoBytes(v);
    ThreeBytes(v);
    FourBytes(v);
    if v >= 0x1_0000_0000 {
      Powers();
      BigEndianValue(v, 8);
      assert Written(v)[1..] == ToBigEndian(v, 8);
    }
  }

  lemma OneByte(v: nat)
    ensures ToBigEndian(v, 1) == [v % 0x100]
  {
    assert ToBigEndian(v / 256, 0) == [];
  }

  lemma MoreBytes(v: nat, k: nat)
    ensures ToBigEndian(v, k + 1) == ToBigEndian(v / 0x100, k) + [v % 0x100]
  {
  }

  lemma TwoBytes(v: nat)
    ensures ToBigEndian(v, 2) == [v / 0x100 % 0x100, v % 0x100]
  {
    MoreBytes(v, 1);
    OneByte(v / 0x100);
  }

  lemma ThreeBytes(v: nat)
    ensures ToBigEndian(v, 3) == [v / 0x1_0000 % 0x100, v / 0x100 % 0x100, v % 0x100]
  {
    hide ToBigEndian;
    MoreBytes(v, 2);
    TwoBytes(v / 0x100);
    DivideTwice(v, 0x100, 0x100);
  }

  lemma FourBytes(v: nat)
    ensures ToBigEndian(v, 4) == [v / 0x100_0000 % 0x100, v / 0x1_0000 % 0x100, v / 0x100 % 0x100, v % 0x100]
  {
    hide ToBigEndian;
    MoreBytes(v, 3);
    ThreeBytes(v / 0x100);
    DivideTwice(v, 0x100, 0x100);
    DivideTwice(v, 0x100, 0x1_0000);
  }

  lemma {:induction false} BigEndianValue(v: nat, k: nat)
    requires v < Pow2(8 * k)
    ensures BigEndian(ToBigEndian(v, k)) == v
  {
    if k > 0 {
      Pow2Add(8, 8 * (k - 1));
      Pow2Of8();
      BigEndianValue(v / 256, k - 1);
      assert ToBigEndian(v, k)[..k - 1] == ToBigEndian(v / 256, k - 1);
    }
  }

  // -- Legacy audio packets ---------------------------------------------------------------------

  /** The bits of a 32-bit float; zero stands for 0.0. */
  type F32 = x: int | 0 <= x < 0x1_0000_0000

  /** An audio message; the target is the header's, if it has one. */
  datatype Audio = Audio(
    target: Option<nat>, session: nat, frame: nat, opus: seq<Byte>, terminator: bool,
    positional: seq<F32>, volume: F32)

  const OPUS: nat := 4

  function Target(a: Audio): (t: nat)
    ensures t < 32
  {
    match a.target case Some(t) => t % 32 case None => 0
  }

  function LegacyPacket(a: Audio): (data: seq<Byte>)
    requires a.frame < U64
    ensures data != []
  {
    [OPUS * 32 + Target(a)] + Written(a.frame)
    + Written(|a.opus| % 0x2000 + (if a.terminator then 0x2000 else 0)) + a.opus
  }

  function LegacyAudio(data: seq<Byte>): (r: Option<Audio>)
  {
    if data == [] || data[0] / 32 != OPUS then None
    else
      var afterHeader := data[1..];
      var session := Read(afterHeader);
      if session.None? then None
      else
        var afterSession := afterHeader[session.value.consumed..];
        var sequence := Read(afterSession);
        if sequence.None? then None
        else
          var afterSequence := afterSession[sequence.value.consumed..];
          var lenTerm := Read(afterSequence);
          if lenTerm.None? then None
          else
            var body := afterSequence[lenTerm.value.consumed..];
            var len := lenTerm.value.value % 0x2000;
            if len > |body| then None
            else Some(Audio(Some(data[0] % 32), session.value.value % U32, sequence.value.value,
                            body[..len], lenTerm.value.value / 0x2000 % 2 == 1, [], 0))
  }

  method LegacyEncode(a: Audio) returns (buf: seq<Byte>)
    requires a.frame < U64
    ensures buf == LegacyPacket(a)
  {
    buf := [OPUS * 32 + Target(a)];
    buf := Write(buf, a.frame);
    var lenTerm := |a.opus| % 0x2000;
    if a.terminator {
      lenTerm := lenTerm + 0x2000;
    }
    buf := Write(buf, lenTerm);
    buf := buf + a.opus;
  }

  /** The source's walk with a position; every index and slice is in range on any input. */
  method LegacyDecode(data: seq<Byte>) returns (r: Option<Audio>)
    ensures r == LegacyAudio(data)
  {
    hide Read;
    if data == [] {
      return None;
    }
    if data[0] / 32 != OPUS {
      return None;
    }
    var pos := 1;
    var session := Read(data[pos..]);
    if session.None? {
      return None;
    }
    pos := pos + session.value.consumed;
    assert data[1..][session.value.consumed..] == data[pos..];
    var sequence := Read(data[pos..]);
    if sequence.None? {
      return None;
    }
    ghost var before := pos;
    pos := pos + sequence.value.consumed;
    assert data[before..][sequence.value.consumed..] == data[pos..];
    var lenTerm := Read(data[pos..]);
    if lenTerm.None? {
      return None;
    }
    before := pos;
    pos := pos + lenTerm.value.consumed;
    assert data[before..][lenTerm.value.consumed..] == data[pos..];
    var len := lenTerm.value.value % 0x2000;
    if pos + len > |data| {
      return None;
    }
    assert data[pos..][..len] == data[pos..pos + len];
    r := Some(Audio(Some(data[0] % 32), session.value.value % U32, sequence.value.value,
                    data[pos..pos + len], lenTerm.value.value / 0x2000 % 2 == 1, [], 0));
  }

  /** What the server does on the way: insert the sender's session behind the header. */
  function ServerInserts(data: seq<Byte>, session: nat): (r: seq<Byte>)
    requires data != [] && session < U64
  {
    data[..1] + Written(session) + data[1..]
  }

  /** Encode, relay, decode: target modulo 32, frame number and terminator come back
      exactly, and of the payload the first length-modulo-0x2000 bytes; so the
      payload survives if and only if it is under 0x2000 bytes. Positional data and the
      volume adjustment have no place in the format and come back as defaults. */
  lemma LegacyRoundTrip(a: Audio, session: nat)
    requires a.frame < U64 && session < U32
    ensures LegacyAudio(ServerInserts(LegacyPacket(a), session)) ==
            Some(Audio(Some(Target(a)), session, a.frame, a.opus[..|a.opus| % 0x2000], a.terminator, [], 0))
    ensures a.opus[..|a.opus| % 0x2000] == a.opus <==> |a.opus| < 0x2000
  {
    hide Read, Written, LegacyAudio;
    var lenTerm := |a.opus| % 0x2000 + (if a.terminator then 0x2000 else 0);
    assert ServerInserts(LegacyPacket(a), session) ==
           [OPUS * 32 + Target(a)] + (Written(session) + (Written(a.frame) + (Written(lenTerm) + a.opus)));
    LegacyFields(Target(a), session, a.frame, lenTerm, a.opus);
  }

  /** What is read from any packet of that layout: 32 bits of the session, the low 13 bits of
      the length, bit 13 as the terminator; a length beyond the data is refused. */
  lemma LegacyFields(target: nat, session: nat, frame: nat, lenTerm: nat, body: seq<Byte>)
    requires target < 32 && session < U64 && frame < U64 && lenTerm < U64
    ensures LegacyAudio([0x80 + target] + (Written(session) + (Written(frame) + (Written(lenTerm) + body)))) ==
            if lenTerm % 0x2000 > |body| then None
            else Some(Audio(Some(target), session % 0x1_0000_0000, frame, body[..lenTerm % 0x2000],
                            lenTerm % 0x4000 >= 0x2000, [], 0))
  {
    hide Read, Written;
    var three := Written(lenTerm) + body;
    var two := Written(frame) + three;
    var one := Written(session) + two;
    var data := [0x80 + target] + one;
    assert data[1..] == one;
    ReadWritten(session, two);
    assert one[|Written(session)|..] == two;
    ReadWritten(frame, three);
    assert two[|Written(frame)|..] == three;
    ReadWritten(lenTerm, body);
    assert three[|Written(lenTerm)|..] == body;
  }

  // -- The tunnel's two formats ------------------------------------------------------------------------

  /** The protobuf body of an audio message, taken as given. */
  datatype Proto = Proto(encode: Audio -> seq<Byte>, decode: seq<Byte> -> Option<Audio>)

  /** The body of this message comes back as sent. */
  predicate Carries(p: Proto, a: Audio) { p.decode(p.encode(a)) == Some(a) }

  function TunnelPacket(p: Proto, a: Audio, protobuf: bool): (data: seq<Byte>)
    requires a.frame < U64
    ensures data != []
  {
    if protobuf then [Target(a)] + p.encode(a.(target := None)) else LegacyPacket(a)
  }

  function TunnelAudio(p: Proto, data: seq<Byte>): (r: Option<Audio>)
  {
    if data == [] then None
    else if data[0] / 32 == 0 then
      match p.decode(data[1..])
      case None => None
      case Some(a) => Some(if a.target.None? then a.(target := Some(data[0] % 32)) else a)
    else if data[0] / 32 == OPUS then LegacyAudio(data)
    else None
  }

  lemma LegacyHeader(a: Audio, session: nat)
    requires a.frame < U64 && session < U32
    ensures ServerInserts(LegacyPacket(a), session)[..1] == [0x80 + Target(a)]
  {
    hide Written;
  }

  /** The layout on the wire: Opus in the top three bits and the target below, the frame
      number, the length with the terminator in bit 13, and the Opus bytes. */
  lemma LegacyLayout(a: Audio)
    requires a.frame < U64
    ensures LegacyPacket(a)[0] == 0x80 + (if a.target.Some? then a.target.value % 32 else 0)
    ensures var length := |a.opus| % 0x2000 + (if a.terminator then 0x2000 else 0);
            LegacyPacket(a)[1..] == Written(a.frame) + Written(length) + a.opus
  {
    hide Written;
  }

  /** The dispatch on the first byte, for any data: below 0x20 the rest is protobuf and the
      byte is the target unless the body has one; 0x80 to 0x9F is a legacy packet; anything
      else is refused. */
  lemma TunnelDispatch(p: Proto, data: seq<Byte>)
    ensures data == [] || 0x20 <= data[0] < 0x80 || data[0] >= 0xA0 ==> TunnelAudio(p, data) == None
    ensures data != [] && 0x80 <= data[0] < 0xA0 ==> TunnelAudio(p, data) == LegacyAudio(data)
    ensures data != [] && data[0] < 0x20 ==>
              var got := p.decode(data[1..]);
              TunnelAudio(p, data) ==
              if got.Some? && got.value.target.None? then Some(got.value.(target := Some(data[0]))) else got
  {
    hide LegacyAudio;
  }

  /** Whichever format the server version selected, the peer's dispatch on the header byte
      finds it. The protobuf form brings the target back modulo 32 and, when its body does,
      everything else as sent; the legacy form brings back what it can hold. */
  lemma TunnelRoundTrip(p: Proto, a: Audio, session: nat)
    requires a.frame < U64 && session < U32
    ensures Carries(p, a.(target := None)) ==>
              TunnelAudio(p, TunnelPacket(p, a, true)) == Some(a.(target := Some(Target(a))))
    ensures TunnelAudio(p, ServerInserts(TunnelPacket(p, a, false), session)) ==
            Some(a.(target := Some(Target(a)), session := session, opus := a.opus[..|a.opus| % 0x2000],
                    positional := [], volume := 0))
  {
    hide LegacyAudio, LegacyPacket;
    var data := TunnelPacket(p, a, true);
    assert data[1..] == p.encode(a.(target := None));
    LegacyRoundTrip(a, session);
    LegacyHeader(a, session);
  }
}

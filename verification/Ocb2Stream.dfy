/** Whole packets: what is sent under a nonce, and what the receiver makes of it. */
module Ocb2Stream {
  import opened Bytes
  import opened Ocb2Block
  import opened Ocb2Mode
  import Formula = Ocb2Formula
  import opened Ocb2Receiver

  function NonceBlock(nonce: nat): (b: Block) {
    ToLittleEndian(nonce, 16)
  }

  /** Header byte, truncated tag, ciphertext. */
  function SentPacket(c: Cipher, nonce: nat, plain: seq<Byte>): (data: seq<Byte>)
    ensures |data| == 4 + |plain| && data[0] == Low(nonce)
  {
    var s := Seal(c, NonceBlock(nonce), plain);
    [Low(nonce)] + s.tag[..3] + s.text
  }

  predicate Authentic(c: Cipher, nonce: nat, data: seq<Byte>)
    requires |data| >= 4
  {
    Open(c, NonceBlock(nonce), data[4..]).tag[..3] == data[1..4]
  }

  datatype Received = Received(link: Link, plain: Option<seq<Byte>>)

  /** The tag verdict, under the one nonce the packet would be opened with. */
  predicate Verdict(c: Cipher, s: Link, data: seq<Byte>)
    requires s.Valid() && |data| >= 4
  {
    var candidate := Candidate(s.nonce, data[0]);
    candidate.Some? && Authentic(c, candidate.value, data)
  }

  /** What `decrypt` does to an initialised link. */
  function Receive(c: Cipher, s: Link, data: seq<Byte>): (r: Received)
    requires s.Valid()
    ensures r.link.Valid()
    ensures r.plain.None? ==> r.link == s
  {
    if |data| < 4 then Received(s, None)
    else
      var verdict := Verdict(c, s, data);
      var accepted := Accepts(s, data[0], verdict);
      Received(Step(s, Packet(data[0], verdict)),
               if accepted.None? then None
               else Some(Open(c, NonceBlock(accepted.value), data[4..]).text))
  }

  /** A packet sent under a nonce is authentic under it and opens to its plaintext. */
  lemma SentOpens(c: Cipher, nonce: nat, plain: seq<Byte>)
    requires IsPermutation(c)
    ensures var data := SentPacket(c, nonce, plain);
            Authentic(c, nonce, data) && Open(c, NonceBlock(nonce), data[4..]).text == plain
  {
    var s := Seal(c, NonceBlock(nonce), plain);
    OpenUndoesSeal(c, NonceBlock(nonce), plain);
    assert SentPacket(c, nonce, plain)[4..] == s.text;
    assert SentPacket(c, nonce, plain)[1..4] == s.tag[..3];
  }

  /** Any packet sent under a nonce in the receiver's window is delivered
      exactly when the history does not already hold its byte pair. */
  lemma DeliveredIff(c: Cipher, s: Link, nonce: nat, plain: seq<Byte>)
    requires IsPermutation(c) && s.Valid()
    requires Candidate(s.nonce, Low(nonce)) == Some(nonce)
    ensures var r := Receive(c, s, SentPacket(c, nonce, plain));
            r.plain == (if s.history[Low(nonce)] != High(nonce) then Some(plain) else None)
    ensures Accepts(s, Low(nonce), true) == (if s.history[Low(nonce)] != High(nonce) then Some(nonce) else None)
    ensures Receive(c, s, SentPacket(c, nonce, plain)).link == Step(s, Packet(Low(nonce), true))
  {
    hide Open, Seal;
    SentOpens(c, nonce, plain);
  }

  /** Whatever bytes arrive: a text is delivered if and only if the datagram is exactly the
      packet of that text sealed under the one nonce in the window with its header byte,
      and the history does not hold the nonce's byte pair. */
  lemma DeliversOnlySealed(c: Cipher, s: Link, data: seq<Byte>, plain: seq<Byte>)
    requires IsPermutation(c) && s.Valid()
    ensures Receive(c, s, data).plain == Some(plain) <==>
            && data != [] && Candidate(s.nonce, data[0]).Some?
            && var n := Candidate(s.nonce, data[0]).value;
            data == SentPacket(c, n, plain) && s.history[data[0]] != High(n)
  {
    hide Open, Seal, Classify;
    if |data| >= 4 && Candidate(s.nonce, data[0]).Some? {
      var n := Candidate(s.nonce, data[0]).value;
      CandidateRange(s.nonce, data[0]);
      SealUndoesOpen(c, NonceBlock(n), data[4..]);
      assert data == [data[0]] + data[1..4] + data[4..];
      if data == SentPacket(c, n, plain) { SentOpens(c, n, plain); }
    }
  }

  /** The packet on the wire: byte 0 of the nonce, three bytes of the tag, and the
      ciphertext, which are those of the mode's closed form under the nonce's 16 bytes. */
  lemma PacketLayout(c: Cipher, nonce: nat, plain: seq<Byte>) returns (tag: Block)
    requires nonce < NONCES
    ensures var data, block := SentPacket(c, nonce, plain), NonceBlock(nonce);
            && LittleEndian(block) == nonce && data[0] == block[0] && data[1..4] == tag[..3]
            && Formula.IsOcb2(c, block, plain, Processed(data[4..], tag))
  {
    hide Seal, Formula.IsOcb2;
    NoncesIsPow2();
    ToLittleEndianValue(nonce, 16);
    Formula.SealIsOcb2(c, NonceBlock(nonce), plain);
    tag := Seal(c, NonceBlock(nonce), plain).tag;
  }

  // -- Streams ---------------------------------------------------------------

  function ReceiveAll(c: Cipher, s: Link, packets: seq<seq<Byte>>): (r: seq<Option<seq<Byte>>>)
    requires s.Valid()
    ensures |r| == |packets|
    decreases |packets|
  {
    if packets == [] then []
    else [Receive(c, s, packets[0]).plain] + ReceiveAll(c, Receive(c, s, packets[0]).link, packets[1..])
  }

  /** The sender's packets after `i` earlier ones from nonce `start`. */
  function SentStream(c: Cipher, start: nat, i: nat, plains: seq<seq<Byte>>): (r: seq<seq<Byte>>)
    ensures |r| == |plains|
    decreases |plains|
  {
    if plains == [] then []
    else [SentPacket(c, Sent(start, i + 1), plains[0])] + SentStream(c, start, i + 1, plains[1..])
  }

  ghost predicate AllDelivered(got: seq<Option<seq<Byte>>>, plains: seq<seq<Byte>>) {
    |got| == |plains| && forall k :: 0 <= k < |plains| ==> got[k] == Some(plains[k])
  }

  /** Packet `i + 1` of an in-order stream. */
  lemma InOrderPacket(c: Cipher, s: Link, start: nat, i: nat, plain: seq<Byte>)
    requires IsPermutation(c) && Streaming(s, start, i)
    requires FillCollides(start) ==> i + 1 < FirstCarry(start)
    ensures var r := Receive(c, s, SentPacket(c, Sent(start, i + 1), plain));
            r.plain == Some(plain) && Streaming(r.link, start, i + 1)
  {
    hide Open, Seal, Step, Accepts, Receive, SentPacket;
    InOrderStep(s, start, i);
    NextBytes(s, start, i);
    NextPacket(s);
    SentBytes(start + i + 1);
    DeliveredIff(c, s, Sent(start, i + 1), plain);
  }

  lemma {:induction false} InOrderDelivers(c: Cipher, s: Link, start: nat, i: nat, plains: seq<seq<Byte>>)
    requires IsPermutation(c) && Streaming(s, start, i)
    requires FillCollides(start) ==> i + |plains| < FirstCarry(start)
    ensures AllDelivered(ReceiveAll(c, s, SentStream(c, start, i, plains)), plains)
    decreases |plains|
  {
    hide Receive, SentPacket;
    if plains != [] {
      InOrderPacket(c, s, start, i, plains[0]);
      var t := Receive(c, s, SentPacket(c, Sent(start, i + 1), plains[0])).link;
      InOrderDelivers(c, t, start, i + 1, plains[1..]);
      assert SentStream(c, start, i, plains)[1..] == SentStream(c, start, i + 1, plains[1..]);
    }
  }

  lemma CarryPacketLost(c: Cipher, s: Link, start: nat, plain: seq<Byte>)
    requires IsPermutation(c) && FillCollides(start) && Streaming(s, start, FirstCarry(start) - 1)
    ensures Receive(c, s, SentPacket(c, Sent(start, FirstCarry(start)), plain)).plain == None
  {
    hide Receive, SentPacket;
    var i := FirstCarry(start);
    CarryRefused(s, start);
    NextBytes(s, start, i - 1);
    NextPacket(s);
    SentBytes(start + i);
    DeliveredIff(c, s, Sent(start, i), plain);
  }

  lemma {:induction false} CarryIsLost(c: Cipher, s: Link, start: nat, i: nat, plains: seq<seq<Byte>>)
    requires IsPermutation(c) && Streaming(s, start, i)
    requires FillCollides(start) && i < FirstCarry(start) <= i + |plains|
    ensures ReceiveAll(c, s, SentStream(c, start, i, plains))[FirstCarry(start) - i - 1] == None
    decreases |plains|
  {
    hide Receive, SentPacket, Sent;
    var first := SentPacket(c, Sent(start, i + 1), plains[0]);
    if i + 1 == FirstCarry(start) {
      CarryPacketLost(c, s, start, plains[0]);
    } else {
      InOrderPacket(c, s, start, i, plains[0]);
      CarryIsLost(c, Receive(c, s, first).link, start, i + 1, plains[1..]);
      assert SentStream(c, start, i, plains)[1..] == SentStream(c, start, i + 1, plains[1..]);
    }
  }

  lemma KeyedStreams(start: nat, stats: Stats)
    requires start < NONCES
    ensures Streaming(Keyed(start, stats), start, 0)
  {
  }

  /** A lossless in-order stream of any length, from any shared starting nonce,
      is delivered whole if and only if byte 1 of that nonce is neither 0x7F nor
      0xFF, or the stream ends before the first carry. */
  lemma InOrderStreamIff(c: Cipher, start: nat, stats: Stats, plains: seq<seq<Byte>>)
    requires IsPermutation(c) && start < NONCES
    ensures AllDelivered(ReceiveAll(c, Keyed(start, stats), SentStream(c, start, 0, plains)), plains) <==>
            !FillCollides(start) || |plains| < FirstCarry(start)
  {
    KeyedStreams(start, stats);
    if !FillCollides(start) || |plains| < FirstCarry(start) {
      InOrderDelivers(c, Keyed(start, stats), start, 0, plains);
    } else {
      CarryIsLost(c, Keyed(start, stats), start, 0, plains);
    }
  }

  // -- Arbitrary packets -------------------------------------------------------

  /** The state machine's view of a list of datagrams: short ones are dropped unseen. */
  function AsEvents(c: Cipher, s: Link, packets: seq<seq<Byte>>): (es: seq<Event>)
    requires s.Valid()
    ensures Events(es) && forall i :: 0 <= i < |es| ==> es[i].Packet?
    decreases |packets|
  {
    if packets == [] then []
    else
      var data := packets[0];
      var rest := AsEvents(c, Receive(c, s, data).link, packets[1..]);
      if |data| < 4 then rest else [Packet(data[0], Verdict(c, s, data))] + rest
  }

  /** The nonces under which the datagrams that were delivered were opened. */
  function OpenedUnder(c: Cipher, s: Link, packets: seq<seq<Byte>>): (r: seq<nat>)
    requires s.Valid()
    decreases |packets|
  {
    if packets == [] then []
    else
      var data := packets[0];
      var rest := OpenedUnder(c, Receive(c, s, data).link, packets[1..]);
      if Receive(c, s, data).plain.None? then rest
      else
        assert Candidate(s.nonce, data[0]).Some?;
        [Candidate(s.nonce, data[0]).value] + rest
  }

  lemma {:induction false} OpenedAreAccepted(c: Cipher, s: Link, packets: seq<seq<Byte>>)
    requires s.Valid()
    ensures OpenedUnder(c, s, packets) == AcceptedNonces(s, AsEvents(c, s, packets))
    decreases |packets|
  {
    hide Open, Step;
    if packets != [] {
      var es := AsEvents(c, s, packets);
      OpenedAreAccepted(c, Receive(c, s, packets[0]).link, packets[1..]);
      if |packets[0]| >= 4 { assert es[1..] == AsEvents(c, Receive(c, s, packets[0]).link, packets[1..]); }
    }
  }

  lemma {:induction false} AcceptedInRange(s: Link, es: seq<Event>, i: nat)
    requires s.Valid() && Events(es) && i < |AcceptedNonces(s, es)|
    ensures AcceptedNonces(s, es)[i] < NONCES
    decreases |es|
  {
    hide Candidate, Step;
    var c := AcceptedBy(s, es[0]);
    if c.Some? && i == 0 {
      CandidateRange(s.nonce, es[0].iv);
    } else {
      AcceptedInRange(Step(s, es[0]), es[1..], if c.Some? then i - 1 else i);
    }
  }

  lemma NonceBlockInjective(m: nat, n: nat)
    requires m < NONCES && n < NONCES && NonceBlock(m) == NonceBlock(n)
    ensures m == n
  {
    NoncesIsPow2();
    ToLittleEndianValue(m, 16);
    ToLittleEndianValue(n, 16);
  }

  /** Whatever datagrams arrive, no 16-byte nonce opens two of them, as long as the
      128-bit counter does not wrap. */
  lemma NoNonceOpensTwice(c: Cipher, s: Link, packets: seq<seq<Byte>>)
    requires s.Valid()
    ensures EpochsAdvance(s, AsEvents(c, s, packets)) ==>
              var ns := OpenedUnder(c, s, packets);
              forall i, j :: 0 <= i < j < |ns| ==> NonceBlock(ns[i]) != NonceBlock(ns[j])
  {
    hide NonceBlock, AsEvents, OpenedUnder, AcceptedNonces, EpochsAdvance;
    var es, ns := AsEvents(c, s, packets), OpenedUnder(c, s, packets);
    if EpochsAdvance(s, es) {
      OpenedAreAccepted(c, s, packets);
      NoReplay(s, es);
      forall i, j | 0 <= i < j < |ns| ensures NonceBlock(ns[i]) != NonceBlock(ns[j]) {
        AcceptedInRange(s, es, i);
        AcceptedInRange(s, es, j);
        if NonceBlock(ns[i]) == NonceBlock(ns[j]) { NonceBlockInjective(ns[i], ns[j]); }
      }
    }
  }

  lemma {:induction false} NoMoreEventsThanPackets(c: Cipher, s: Link, packets: seq<seq<Byte>>)
    requires s.Valid()
    ensures |AsEvents(c, s, packets)| <= |packets|
    decreases |packets|
  {
    hide Receive, Verdict;
    if packets != [] { NoMoreEventsThanPackets(c, Receive(c, s, packets[0]).link, packets[1..]); }
  }

  /** That is so for every list of datagrams too short to reach the largest nonce. */
  lemma NoNonceOpensTwiceBelow(c: Cipher, s: Link, packets: seq<seq<Byte>>)
    requires s.Valid() && s.nonce + 30 * |packets| < NONCES
    ensures var ns := OpenedUnder(c, s, packets);
            forall i, j :: 0 <= i < j < |ns| ==> NonceBlock(ns[i]) != NonceBlock(ns[j])
  {
    hide NonceBlock, OpenedUnder, EpochsAdvance;
    NoMoreEventsThanPackets(c, s, packets);
    FewPacketsAdvance(s, AsEvents(c, s, packets));
    NoNonceOpensTwice(c, s, packets);
  }
}

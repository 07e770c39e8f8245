/** The UDP reader task: decryption failures, resync requests and nonce updates. */
module UdpReader {
  import opened Bytes
  import opened Ocb2Mode
  import opened Ocb2Receiver
  import opened Ocb2Stream
  import Crypt = Ocb2CryptState

  const RESYNC_FAILURE_THRESHOLD: nat := 50
  /** Five seconds, in milliseconds. */
  const RESYNC_REQUEST_COOLDOWN: int := 5000
  const U32_MAX: nat := 0xFFFF_FFFF

  datatype Outbound = HasRoom | Full | Closed

  /** What wakes one iteration of the loop. */
  datatype Input =
    | NonceMessage(nonce: seq<Byte>)
    | NonceChannelClosed
    | Datagram(data: seq<Byte>)
    | SocketClosed
    | ConnectionReset
    | SocketError

  /** An iteration's input with the environment's answers: the clock, the state of
      the outbound channel, and whether the work queue still takes messages. */
  datatype Tick = Tick(input: Input, now: int, outbound: Outbound, queueOpen: bool)

  datatype Reader = Reader(link: Link, failures: nat, lastRequest: int, running: bool)

  /** What an iteration did, as an observer sees it. */
  datatype Outcome = Idle | Applied | Delivered | Failed | Requested | Stopped

  // -- One iteration -----------------------------------------------------------

  function Decrypts(c: Cipher, s: Link, input: Input): (b: bool)
    requires s.Valid()
  {
    input.Datagram? && Receive(c, s, input.data).plain.Some?
  }

  function WithNonce(s: Link, nonce: seq<Byte>): (r: Link)
    requires s.Valid()
    ensures r.Valid()
  {
    if |nonce| == 16 then Crypt.NonceBytes(nonce); Step(s, Resync(LittleEndian(nonce))) else s
  }

  function Saturated(n: nat): (r: nat) { if n >= U32_MAX then U32_MAX else n + 1 }

  function OutcomeOf(c: Cipher, r: Reader, t: Tick): (o: Outcome)
    requires r.link.Valid()
  {
    match t.input
    case NonceMessage(_) => Applied
    case ConnectionReset => Idle
    case Datagram(data) =>
      if Decrypts(c, r.link, t.input) then Delivered
      else if Saturated(r.failures) >= RESYNC_FAILURE_THRESHOLD
              && t.now - r.lastRequest >= RESYNC_REQUEST_COOLDOWN then
        match t.outbound case HasRoom => Requested case Full => Failed case Closed => Stopped
      else Failed
    case _ => Stopped
  }

  function Iterated(c: Cipher, r: Reader, t: Tick): (n: Reader)
    requires r.link.Valid()
    ensures n.link.Valid()
  {
    match OutcomeOf(c, r, t)
    case Applied => r.(link := WithNonce(r.link, t.input.nonce), failures := 0)
    case Delivered => Reader(Receive(c, r.link, t.input.data).link, 0, r.lastRequest, t.queueOpen)
    case Failed => r.(failures := Saturated(r.failures))
    case Requested => r.(failures := 0, lastRequest := t.now)
    case Idle => r
    case Stopped =>
      if t.input.Datagram? then r.(failures := Saturated(r.failures), running := false)
      else r.(running := false)
  }

  // -- Runs ----------------------------------------------------------------------

  function Outcomes(c: Cipher, r: Reader, ts: seq<Tick>): (os: seq<Outcome>)
    requires r.link.Valid()
    ensures |os| <= |ts|
    decreases |ts|
  {
    if ts == [] || !r.running then []
    else [OutcomeOf(c, r, ts[0])] + Outcomes(c, Iterated(c, r, ts[0]), ts[1..])
  }

  function Final(c: Cipher, r: Reader, ts: seq<Tick>): (n: Reader)
    requires r.link.Valid()
    ensures n.link.Valid()
    decreases |ts|
  {
    if ts == [] || !r.running then r else Final(c, Iterated(c, r, ts[0]), ts[1..])
  }

  /** The task started at time `t0`; subtracting the cooldown may not be representable. */
  predicate Started(r: Reader, t0: int) {
    r.running && r.failures == 0 && (r.lastRequest == t0 - RESYNC_REQUEST_COOLDOWN || r.lastRequest == t0)
  }

  predicate Monotone(ts: seq<Tick>) {
    forall i, j :: 0 <= i <= j < |ts| ==> ts[i].now <= ts[j].now
  }

  // -- Requests are spaced and earned -------------------------------------------------

  lemma {:induction false} RequestsWait(c: Cipher, r: Reader, ts: seq<Tick>, j: nat)
    requires r.link.Valid() && Monotone(ts)
    requires j < |Outcomes(c, r, ts)| && Outcomes(c, r, ts)[j] == Requested
    ensures ts[j].now - r.lastRequest >= 5000
    decreases |ts|
  {
    if j > 0 {
      var n := Iterated(c, r, ts[0]);
      RequestsWait(c, n, ts[1..], j - 1);
      if n.lastRequest != r.lastRequest {
        assert n.lastRequest == ts[0].now && ts[0].now - r.lastRequest >= RESYNC_REQUEST_COOLDOWN;
      }
    }
  }

  /** In every interleaving of datagrams and nonce messages, two resync requests
      are at least the cooldown of five seconds apart. */
  lemma {:induction false} RequestsSpaced(c: Cipher, r: Reader, ts: seq<Tick>, i: nat, j: nat)
    requires r.link.Valid() && Monotone(ts)
    requires i < j < |Outcomes(c, r, ts)|
    requires Outcomes(c, r, ts)[i] == Outcomes(c, r, ts)[j] == Requested
    ensures ts[j].now - ts[i].now >= 5000
    decreases |ts|
  {
    var n := Iterated(c, r, ts[0]);
    if i == 0 {
      RequestsWait(c, n, ts[1..], j - 1);
    } else {
      RequestsSpaced(c, n, ts[1..], i - 1, j - 1);
    }
  }

  /** Decrypt failures at the end of a history, back to the last delivery,
      applied nonce or sent request. */
  function FailureStreak(os: seq<Outcome>): (n: nat)
  {
    if os == [] then 0
    else
      var earlier := FailureStreak(os[..|os| - 1]);
      match os[|os| - 1]
      case Failed => earlier + 1
      case Idle => earlier
      case _ => 0
  }

  lemma {:induction false} FailuresAreTheStreak(c: Cipher, r: Reader, ts: seq<Tick>, before: seq<Outcome>, k: nat)
    requires r.link.Valid() && r.running && k < |Outcomes(c, r, ts)|
    requires r.failures == Min(FailureStreak(before), U32_MAX)
    ensures var now := Final(c, r, ts[..k]);
            && now.running && now.failures == Min(FailureStreak(before + Outcomes(c, r, ts)[..k]), U32_MAX)
            && Outcomes(c, r, ts)[k] == OutcomeOf(c, now, ts[k])
    decreases |ts|
  {
    var os := Outcomes(c, r, ts);
    if k == 0 {
      assert before + os[..0] == before;
    } else {
      var n, o := Iterated(c, r, ts[0]), os[0];
      var after := before + [o];
      assert after[..|after| - 1] == before;
      FailuresAreTheStreak(c, n, ts[1..], after, k - 1);
      assert after + os[1..][..k - 1] == before + os[..k];
      assert ts[..k][1..] == ts[1..][..k - 1];
    }
  }

  /** A request is sent exactly when a datagram fails to decrypt as the fiftieth or
      later failure since the last delivery, applied nonce or request, the cooldown
      has passed, and the outbound channel has room. */
  lemma RequestIff(c: Cipher, r: Reader, ts: seq<Tick>, t0: int, k: nat)
    requires r.link.Valid() && Started(r, t0) && k < |Outcomes(c, r, ts)|
    ensures var now := Final(c, r, ts[..k]);
            Outcomes(c, r, ts)[k] == Requested <==>
            && ts[k].input.Datagram? && !Decrypts(c, now.link, ts[k].input)
            && FailureStreak(Outcomes(c, r, ts)[..k]) + 1 >= 50
            && ts[k].now - now.lastRequest >= 5000
            && ts[k].outbound == HasRoom
  {
    FailuresAreTheStreak(c, r, ts, [], k);
    assert [] + Outcomes(c, r, ts)[..k] == Outcomes(c, r, ts)[..k];
  }

  /** What the other inputs do: a connection reset changes nothing, a closed socket or
      channel and any other socket error stop the task, and a failed decryption never
      touches the link. */
  lemma OtherInputs(c: Cipher, r: Reader, t: Tick)
    requires r.link.Valid() && r.running
    ensures t.input.ConnectionReset? ==> Iterated(c, r, t) == r
    ensures t.input.SocketClosed? || t.input.NonceChannelClosed? || t.input.SocketError? ==>
              Iterated(c, r, t) == r.(running := false)
    ensures t.input.Datagram? && !Decrypts(c, r.link, t.input) ==> Iterated(c, r, t).link == r.link
    ensures t.input.Datagram? && Decrypts(c, r.link, t.input) ==>
              Iterated(c, r, t).running == t.queueOpen && Iterated(c, r, t).failures == 0
    ensures t.input.NonceMessage? ==> Iterated(c, r, t).running && Iterated(c, r, t).failures == 0
  {
    hide Receive, Step;
  }

  // -- A resync repairs the link ---------------------------------------------------------

  /** Once the server's current nonce is applied, its next packet in the window is
      delivered, unless the history, which the resync does not clear, already holds
      the packet's byte pair. */
  lemma ResyncRepairs(c: Cipher, r: Reader, t: Tick, u: Tick, nonce: nat, plain: seq<Byte>)
    requires IsPermutation(c) && r.link.Valid() && r.running && nonce < NONCES
    requires t.input.NonceMessage? && |t.input.nonce| == 16
    requires var current := LittleEndian(t.input.nonce);
             || nonce == (current + 1) % NONCES
             || (Epoch(nonce) == Epoch(current) && 2 <= nonce - current <= 29)
    ensures var n := Iterated(c, r, t);
            var packet := SentPacket(c, nonce, plain);
            var next := u.(input := Datagram(packet));
            && (OutcomeOf(c, n, next) == Delivered <==> r.link.history[Low(nonce)] != High(nonce))
            && (OutcomeOf(c, n, next) == Delivered ==>
                  Receive(c, n.link, packet).plain == Some(plain) && Iterated(c, n, next).failures == 0)
  {
    hide SentPacket, Receive, Low, High, Epoch, Candidate;
    var n := Iterated(c, r, t);
    Crypt.NonceBytes(t.input.nonce);
    CandidateWindow(n.link.nonce, Low(nonce), nonce);
    DeliveredIff(c, n.link, nonce, plain);
  }

  // -- The loop itself ----------------------------------------------------------------------

  class Task {
    const crypt: Crypt.Ocb2CryptState
    var consecutiveFailures: nat
    var lastResyncRequest: int

    ghost predicate Valid()
      reads this, crypt
    {
      crypt.Valid() && crypt.initialized
    }

    ghost function State(running: bool): (r: Reader)
      reads this, crypt, crypt.decryptIv, crypt.decryptHistory
      requires Valid()
      ensures r.link.Valid()
    {
      Reader(crypt.Receiver(), consecutiveFailures, lastResyncRequest, running)
    }

    constructor (crypt: Crypt.Ocb2CryptState, now: int, subtractable: bool)
      requires crypt.Valid() && crypt.initialized
      ensures this.crypt == crypt && Valid() && Started(State(true), now)
    {
      this.crypt := crypt;
      consecutiveFailures := 0;
      lastResyncRequest := if subtractable then now - RESYNC_REQUEST_COOLDOWN else now;
    }

    method Iterate(t: Tick) returns (running: bool, requested: bool)
      requires Valid()
      modifies this, crypt`stats, crypt.decryptIv, crypt.decryptHistory
      ensures Valid() && crypt.cipher == old(crypt.cipher)
      ensures State(running) == Iterated(crypt.cipher, old(State(true)), t)
      ensures requested <==> OutcomeOf(crypt.cipher, old(State(true)), t) == Requested
    {
      hide Receive, Step;
      running, requested := true, false;
      match t.input {
        case NonceMessage(nonce) =>
          crypt.SetDecryptIv(nonce);
          consecutiveFailures := 0;
        case ConnectionReset =>
        case Datagram(data) =>
          var r := crypt.Decrypt(data);
          if r.Ok? {
            consecutiveFailures := 0;
            running := t.queueOpen;
          } else {
            consecutiveFailures := Saturated(consecutiveFailures);
            if consecutiveFailures >= RESYNC_FAILURE_THRESHOLD
              && t.now - lastResyncRequest >= RESYNC_REQUEST_COOLDOWN
            {
              match t.outbound {
                case HasRoom =>
                  requested := true;
                  lastResyncRequest := t.now;
                  consecutiveFailures := 0;
                case Full =>
                case Closed => running := false;
              }
            }
          }
        case _ => running := false;
      }
    }

    /** Runs until the inputs end or an iteration breaks the loop; returns the times
        at which a resync request was sent. */
    method Loop(ts: seq<Tick>) returns (running: bool, sent: seq<int>)
      requires Valid()
      modifies this, crypt`stats, crypt.decryptIv, crypt.decryptHistory
      ensures Valid()
      ensures State(running) == Final(old(crypt.cipher), old(State(true)), ts)
      ensures sent == RequestTimes(Outcomes(old(crypt.cipher), old(State(true)), ts), ts)
    {
      hide Iterated, OutcomeOf, Final, Outcomes, RequestTimes;
      ghost var c, r := crypt.cipher, State(true);
      running, sent := true, [];
      var i := 0;
      while running && i < |ts|
        invariant 0 <= i <= |ts| && Valid() && crypt.cipher == c
        invariant Final(c, State(running), ts[i..]) == Final(c, r, ts)
        invariant sent + TimesOf(c, State(running), ts[i..]) == TimesOf(c, r, ts)
      {
        RunUnfolds(c, State(true), ts[i..]);
        assert ts[i..][1..] == ts[i + 1..];
        var requested;
        running, requested := Iterate(ts[i]);
        if requested {
          sent := sent + [ts[i].now];
        }
        i := i + 1;
      }
      RunEnds(c, State(running), ts[i..]);
    }
  }

  /** The times of the requests a run sends. */
  function TimesOf(c: Cipher, r: Reader, ts: seq<Tick>): (times: seq<int>)
    requires r.link.Valid()
  {
    RequestTimes(Outcomes(c, r, ts), ts)
  }

  lemma RunUnfolds(c: Cipher, r: Reader, ts: seq<Tick>)
    requires r.link.Valid() && r.running && ts != []
    ensures var n := Iterated(c, r, ts[0]);
            && Final(c, r, ts) == Final(c, n, ts[1..])
            && TimesOf(c, r, ts) ==
               (if OutcomeOf(c, r, ts[0]) == Requested then [ts[0].now] else []) + TimesOf(c, n, ts[1..])
  {
    hide Iterated, OutcomeOf;
    assert Outcomes(c, r, ts)[1..] == Outcomes(c, Iterated(c, r, ts[0]), ts[1..]);
  }

  lemma RunEnds(c: Cipher, r: Reader, ts: seq<Tick>)
    requires r.link.Valid() && (!r.running || ts == [])
    ensures Final(c, r, ts) == r && TimesOf(c, r, ts) == []
  {
  }

  function RequestTimes(os: seq<Outcome>, ts: seq<Tick>): (times: seq<int>)
    requires |os| <= |ts|
  {
    if os == [] then []
    else (if os[0] == Requested then [ts[0].now] else []) + RequestTimes(os[1..], ts[1..])
  }
}

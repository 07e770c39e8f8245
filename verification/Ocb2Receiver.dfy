/** The receiving side's nonce reconstruction as a state machine over nonces
    read as little-endian integers. */
module Ocb2Receiver {
  import opened Bytes

  /** 2^128, the number of 16-byte nonces. */
  const NONCES: nat := 0x1_0000_0000_0000_0000_0000_0000_0000_0000

  lemma NoncesIsPow2()
    ensures Pow2(8 * 16) == NONCES
  {
    hide Pow2;
    Pow2Of8();
    Pow2Add(8, 8);
    Pow2Add(16, 16);
    Pow2Add(32, 32);
    Pow2Add(64, 64);
  }

  /** Byte 0 and byte 1 of a nonce, and everything above byte 0. */
  function Low(n: nat): (b: Byte) { n % 256 }

  function High(n: nat): (b: Byte) { n / 256 % 256 }

  function Epoch(n: nat): (e: nat) { n / 256 }

  datatype Stats = Stats(good: nat, late: nat, lost: nat, resync: nat)

  datatype Link = Link(nonce: nat, history: seq<Byte>, stats: Stats)
  {
    predicate Valid() { nonce < NONCES && |history| == 256 }
  }

  const NO_STATS := Stats(0, 0, 0, 0)

  /** The link right after `set_key`: the history holds the complement of byte 1. */
  function Keyed(nonce: nat, stats: Stats): (s: Link)
    requires nonce < NONCES
    ensures s.Valid() && s.nonce == nonce
  {
    Link(nonce, seq(256, i => 255 - High(nonce)), stats)
  }

  // -- One packet ---------------------------------------------------------

  datatype Arrival = InSequence | Late | Skipped(missed: nat) | OutOfRange

  function Classify(current: Byte, iv: Byte): (a: Arrival)
  {
    if (current + 1) % 256 == iv then InSequence
    else
      var raw: int := iv - current;
      var diff := if raw > 128 then raw - 256 else if raw < -128 then raw + 256 else raw;
      if iv < current && diff > -30 && diff < 0 then Late
      else if iv > current && diff > 0 && diff < 30 then Skipped(iv - current - 1)
      else OutOfRange
  }

  /** The nonce a packet with header byte `iv` is opened under. */
  function Candidate(nonce: nat, iv: Byte): (c: Option<nat>)
  {
    match Classify(Low(nonce), iv)
    case InSequence => Some((nonce + 1) % NONCES)
    case OutOfRange => None
    case _ => Some(nonce - Low(nonce) + iv)
  }

  /** The nonce accepted, if the packet is in range, not seen, and authentic. */
  function Accepts(s: Link, iv: Byte, authentic: bool): (c: Option<nat>)
    requires s.Valid()
  {
    match Candidate(s.nonce, iv)
    case None => None
    case Some(c) => if s.history[iv] != High(c) && authentic then Some(c) else None
  }

  function Counted(st: Stats, arrival: Arrival): (r: Stats)
  {
    var late := if arrival == Late then 1 else 0;
    var lost: int := match arrival case Late => -1 case Skipped(m) => m case _ => 0;
    var bumped := st.(good := st.good + 1, late := st.late + late);
    var magnitude: nat := if lost < 0 then -lost else lost;
    if lost > 0 then bumped.(lost := bumped.lost + lost)
    else if bumped.late > magnitude then bumped.(late := bumped.late - magnitude)
    else bumped
  }

  datatype Event = Packet(iv: Byte, authentic: bool) | Resync(nonce: nat)

  function Step(s: Link, e: Event): (r: Link)
    requires s.Valid()
    requires e.Resync? ==> e.nonce < NONCES
    ensures r.Valid()
  {
    match e
    case Resync(n) => s.(nonce := n)
    case Packet(iv, authentic) =>
      match Accepts(s, iv, authentic)
      case None => s
      case Some(c) =>
        var arrival := Classify(Low(s.nonce), iv);
        CandidateRange(s.nonce, iv);
        Link(if arrival == Late then s.nonce else c, s.history[iv := High(c)], Counted(s.stats, arrival))
  }

  /** Replacing byte 0 stays in the epoch. */
  lemma WithLow(nonce: nat, iv: Byte)
    requires nonce < NONCES
    ensures 0 <= nonce - Low(nonce) + iv < NONCES
    ensures Low(nonce - Low(nonce) + iv) == iv && Epoch(nonce - Low(nonce) + iv) == Epoch(nonce)
  {
    QuotientIs(nonce - Low(nonce) + iv, 256, Epoch(nonce), iv);
  }

  lemma SameEpoch(c: nat, nonce: nat)
    requires Epoch(c) == Epoch(nonce)
    ensures c - nonce == Low(c) - Low(nonce)
  {
  }

  lemma NextNonce(nonce: nat)
    requires nonce < NONCES
    ensures var c := (nonce + 1) % NONCES;
            && c < NONCES && Low(c) == (Low(nonce) + 1) % 256
            && (Low(nonce) < 255 ==> c == nonce + 1 && Epoch(c) == Epoch(nonce))
  {
    if nonce + 1 < NONCES { assert (nonce + 1) % NONCES == nonce + 1; }
  }

  lemma CandidateRange(nonce: nat, iv: Byte)
    requires nonce < NONCES
    ensures var c := Candidate(nonce, iv); c.Some? ==> c.value < NONCES && Low(c.value) == iv
  {
    hide Low, Epoch;
    NextNonce(nonce);
    WithLow(nonce, iv);
  }

  /** The source's wrap-around arithmetic, said outright: the candidate is the
      current nonce plus one with full carry, or a nonce of the same epoch at
      distance -29..-1 or 2..29; nothing else is in range. */
  lemma CandidateWindow(nonce: nat, iv: Byte, c: nat)
    requires nonce < NONCES
    ensures Candidate(nonce, iv) == Some(c) <==>
            && Low(c) == iv
            && c < NONCES
            && (|| c == (nonce + 1) % NONCES
                || (Epoch(c) == Epoch(nonce) && (-29 <= c - nonce <= -1 || 2 <= c - nonce <= 29)))
  {
    hide Low, Epoch;
    NextNonce(nonce);
    WithLow(nonce, iv);
    if Epoch(c) == Epoch(nonce) { SameEpoch(c, nonce); }
  }

  // -- Runs -----------------------------------------------------------------

  predicate Events(es: seq<Event>) {
    forall i :: 0 <= i < |es| && es[i].Resync? ==> es[i].nonce < NONCES
  }

  function Run(s: Link, es: seq<Event>): (r: Link)
    requires s.Valid() && Events(es)
    ensures r.Valid()
    decreases |es|
  {
    if es == [] then s else Run(Step(s, es[0]), es[1..])
  }

  function AcceptedBy(s: Link, e: Event): (c: Option<nat>)
    requires s.Valid()
  {
    if e.Packet? then Accepts(s, e.iv, e.authentic) else None
  }

  /** The nonces accepted along a run, in order. */
  function AcceptedNonces(s: Link, es: seq<Event>): (r: seq<nat>)
    requires s.Valid() && Events(es)
    decreases |es|
  {
    if es == [] then []
    else
      var rest := AcceptedNonces(Step(s, es[0]), es[1..]);
      if AcceptedBy(s, es[0]).Some? then [AcceptedBy(s, es[0]).value] + rest else rest
  }

  /** No event of the run takes the nonce back to an earlier epoch. */
  predicate EpochsAdvance(s: Link, es: seq<Event>)
    requires s.Valid() && Events(es)
    decreases |es|
  {
    es == [] ||
    (Epoch(s.nonce) <= Epoch(Step(s, es[0]).nonce) && EpochsAdvance(Step(s, es[0]), es[1..]))
  }

  /** A packet takes the epoch back only by wrapping the 128-bit counter. */
  lemma OnlyWrapGoesBack(s: Link, iv: Byte, authentic: bool)
    requires s.Valid()
    ensures Epoch(Step(s, Packet(iv, authentic)).nonce) < Epoch(s.nonce) ==> s.nonce == NONCES - 1
  {
    if Accepts(s, iv, authentic).Some? {
      CandidateWindow(s.nonce, iv, Accepts(s, iv, authentic).value);
    }
  }

  // -- No nonce is accepted twice -----------------------------------------------

  /** Every nonce of `seen` that is still in the current epoch is in the history. */
  ghost predicate Remembers(s: Link, seen: set<nat>)
    requires s.Valid()
  {
    forall m :: m in seen ==>
      && Epoch(m) <= Epoch(s.nonce)
      && (Epoch(m) == Epoch(s.nonce) ==> s.history[Low(m)] == High(m))
  }

  lemma SplitNonce(m: nat, n: nat)
    requires Epoch(m) == Epoch(n) && Low(m) == Low(n)
    ensures m == n
  {
  }

  lemma StepRemembers(s: Link, e: Event, seen: set<nat>)
    requires s.Valid() && Remembers(s, seen)
    requires e.Resync? ==> e.nonce < NONCES
    requires Epoch(s.nonce) <= Epoch(Step(s, e).nonce)
    ensures AcceptedBy(s, e).Some? ==>
              AcceptedBy(s, e).value !in seen && Remembers(Step(s, e), seen + {AcceptedBy(s, e).value})
    ensures AcceptedBy(s, e).None? ==> Remembers(Step(s, e), seen)
  {
    if AcceptedBy(s, e).Some? {
      var c := AcceptedBy(s, e).value;
      var t := Step(s, e);
      CandidateWindow(s.nonce, e.iv, c);
      assert Epoch(s.nonce) <= Epoch(c) && Epoch(t.nonce) == Epoch(c);
      assert c !in seen;
      forall m | m in seen + {c}
        ensures Epoch(m) <= Epoch(t.nonce)
        ensures Epoch(m) == Epoch(t.nonce) ==> t.history[Low(m)] == High(m)
      {
        if m != c && Epoch(m) == Epoch(c) && Low(m) == e.iv { SplitNonce(m, c); }
      }
    }
  }

  ghost predicate Distinct(s: seq<nat>) {
    forall i, j :: 0 <= i < j < |s| ==> s[i] != s[j]
  }

  lemma {:induction false} NoReplayAfter(s: Link, es: seq<Event>, seen: set<nat>)
    requires s.Valid() && Events(es) && EpochsAdvance(s, es) && Remembers(s, seen)
    ensures Distinct(AcceptedNonces(s, es))
    ensures forall i :: 0 <= i < |AcceptedNonces(s, es)| ==> AcceptedNonces(s, es)[i] !in seen
    decreases |es|
  {
    if es != [] {
      var e := es[0];
      StepRemembers(s, e, seen);
      var c := AcceptedBy(s, e);
      NoReplayAfter(Step(s, e), es[1..], if c.Some? then seen + {c.value} else seen);
    }
  }

  /** In every run of packets with arbitrary contents and tag verdicts, and of
      nonce resyncs, that never returns to an earlier epoch, no nonce is
      accepted twice. */
  lemma NoReplay(s: Link, es: seq<Event>)
    requires s.Valid() && Events(es) && EpochsAdvance(s, es)
    ensures Distinct(AcceptedNonces(s, es))
  {
    NoReplayAfter(s, es, {});
  }

  /** A packet advances the nonce by at most 29, unless it wraps it. */
  lemma PacketAdvance(s: Link, e: Event)
    requires s.Valid() && e.Packet? && s.nonce + 1 < NONCES
    ensures s.nonce <= Step(s, e).nonce <= s.nonce + 29
  {
    if Accepts(s, e.iv, e.authentic).Some? {
      CandidateWindow(s.nonce, e.iv, Accepts(s, e.iv, e.authentic).value);
    }
  }

  /** So packets too few to reach the largest nonce never go back to an earlier epoch. */
  lemma {:induction false} FewPacketsAdvance(s: Link, es: seq<Event>)
    requires s.Valid() && (forall i :: 0 <= i < |es| ==> es[i].Packet?) && s.nonce + 30 * |es| < NONCES
    ensures EpochsAdvance(s, es)
    decreases |es|
  {
    if es != [] {
      hide Step;
      PacketAdvance(s, es[0]);
      FewPacketsAdvance(Step(s, es[0]), es[1..]);
    }
  }

  /** Resync to just before `n`, then an authentic packet with `n`'s byte 0. */
  function Visit(n: nat): (es: seq<Event>)
    requires n < NONCES
    ensures Events(es)
  {
    [Resync((n + NONCES - 1) % NONCES), Packet(Low(n), true)]
  }

  /** Another nonce with the same byte 0 and a different byte 1. */
  function Neighbour(n: nat): (m: nat)
    requires n < NONCES
    ensures m < NONCES && Low(m) == Low(n) && High(m) != High(n)
  {
    var m := if n + 256 < NONCES then n + 256 else n - 256;
    QuotientIs(m, 256, if n < m then Epoch(n) + 1 else Epoch(n) - 1, Low(n));
    m
  }

  lemma PreviousNonce(n: nat)
    requires n < NONCES
    ensures var p := (n + NONCES - 1) % NONCES; p < NONCES && (p + 1) % NONCES == n
  {
    if n > 0 { assert n + NONCES - 1 == NONCES + (n - 1); }
  }

  /** Returning to an earlier epoch does break it, from every state and for every nonce:
      the history keeps only one mark for each byte 0, so going back and forth between two
      epochs accepts the same nonce again. */
  lemma BackwardResyncForgets(s: Link, n: nat)
    requires s.Valid() && n < NONCES
    ensures var m := Neighbour(n);
            var es := Visit(m) + (Visit(n) + (Visit(m) + Visit(n)));
            Events(es) && AcceptedNonces(s, es) == (if s.history[Low(n)] != High(m) then [m] else []) + [n, m, n]
  {
    hide AcceptedNonces, Neighbour, Visit;
    var m := Neighbour(n);
    var s1 := VisitAccepts(s, m, Visit(n) + (Visit(m) + Visit(n)));
    var s2 := VisitAccepts(s1, n, Visit(m) + Visit(n));
    var s3 := VisitAccepts(s2, m, Visit(n));
    var s4 := VisitAccepts(s3, n, []);
    assert Visit(n) + [] == Visit(n) && AcceptedNonces(s4, []) == [] by { NothingAccepted(s4); }
  }

  lemma NothingAccepted(s: Link)
    requires s.Valid()
    ensures AcceptedNonces(s, []) == []
  {
  }

  lemma VisitAccepts(s: Link, n: nat, rest: seq<Event>) returns (t: Link)
    requires s.Valid() && n < NONCES && Events(rest)
    ensures t.Valid() && t.history == s.history[Low(n) := High(n)]
    ensures AcceptedNonces(s, Visit(n) + rest) ==
            (if s.history[Low(n)] != High(n) then [n] else []) + AcceptedNonces(t, rest)
  {
    hide Classify, Candidate, Low, High;
    var r, p := Resync((n + NONCES - 1) % NONCES), Packet(Low(n), true);
    PreviousNonce(n);
    CandidateWindow(r.nonce, p.iv, n);
    t := Step(Step(s, r), p);
    var es := Visit(n) + rest;
    assert es[1..][1..] == rest && es[1..][0] == p;
    assert AcceptedNonces(s, es) == AcceptedNonces(Step(s, r), es[1..]);
  }

  // -- Exactly which packets the history refuses -----------------------------------------

  /** The last nonce of a list with a given byte 0. */
  function LastWithLow(ns: seq<nat>, b: Byte): (n: Option<nat>)
    ensures n.Some? ==> n.value in ns && Low(n.value) == b
  {
    if ns == [] then None
    else
      var rest := LastWithLow(ns[1..], b);
      if rest.Some? then rest else if Low(ns[0]) == b then Some(ns[0]) else None
  }

  /** Along any run, resyncs included, each history entry is the mark of the nonce last
      accepted with that byte 0, or what it was at the start. */
  lemma {:induction false} HistoryIsLastMark(s: Link, es: seq<Event>, b: Byte)
    requires s.Valid() && Events(es)
    ensures var last := LastWithLow(AcceptedNonces(s, es), b);
            Run(s, es).history[b] == if last.Some? then High(last.value) else s.history[b]
    decreases |es|
  {
    if es != [] {
      hide Classify, Counted, High;
      var e := es[0];
      HistoryIsLastMark(Step(s, e), es[1..], b);
      if AcceptedBy(s, e).Some? {
        var c := AcceptedBy(s, e).value;
        CandidateRange(s.nonce, e.iv);
        assert ([c] + AcceptedNonces(Step(s, e), es[1..]))[1..] == AcceptedNonces(Step(s, e), es[1..]);
      }
    }
  }

  /** After any run, an authentic packet whose nonce is in the window is accepted if and
      only if the nonce last accepted with the same byte 0 differs from it in byte 1,
      or, when there is none, the initial entry does. */
  lemma AcceptedIff(s: Link, es: seq<Event>, iv: Byte, n: nat)
    requires s.Valid() && Events(es) && Candidate(Run(s, es).nonce, iv) == Some(n)
    ensures var last := LastWithLow(AcceptedNonces(s, es), iv);
            Accepts(Run(s, es), iv, true) == Some(n) <==>
            (if last.Some? then High(last.value) != High(n) else s.history[iv] != High(n))
  {
    HistoryIsLastMark(s, es, iv);
  }

  lemma {:induction false} EpochsBounded(s: Link, es: seq<Event>, i: nat)
    requires s.Valid() && Events(es) && EpochsAdvance(s, es) && i < |AcceptedNonces(s, es)|
    ensures Epoch(AcceptedNonces(s, es)[i]) <= Epoch(Run(s, es).nonce)
    decreases |es|
  {
    hide Classify, Counted;
    var e := es[0];
    var c := AcceptedBy(s, e);
    if c.Some? && i == 0 {
      CandidateWindow(s.nonce, e.iv, c.value);
      NonceEpochAdvances(Step(s, e), es[1..]);
    } else {
      EpochsBounded(Step(s, e), es[1..], if c.Some? then i - 1 else i);
    }
  }

  lemma {:induction false} NonceEpochAdvances(s: Link, es: seq<Event>)
    requires s.Valid() && Events(es) && EpochsAdvance(s, es)
    ensures Epoch(s.nonce) <= Epoch(Run(s, es).nonce)
    decreases |es|
  {
    if es != [] { NonceEpochAdvances(Step(s, es[0]), es[1..]); }
  }

  /** So a genuine packet not seen before is taken for a replay only by the initial fill,
      or when the last nonce accepted with its byte 0 lies at least 65536 back, that is,
      when 255 packets in a row with that byte 0 were missed. */
  lemma FalseReplayNeedsLongLoss(s: Link, es: seq<Event>, iv: Byte, n: nat)
    requires s.Valid() && Events(es) && EpochsAdvance(s, es)
    requires Candidate(Run(s, es).nonce, iv) == Some(n) && Run(s, es).nonce + 1 < NONCES
    requires n !in AcceptedNonces(s, es) && Accepts(Run(s, es), iv, true) == None
    ensures var last := LastWithLow(AcceptedNonces(s, es), iv);
            if last.Some? then n >= last.value + 65536 else s.history[iv] == High(n)
  {
    hide Classify, Counted;
    AcceptedIff(s, es, iv, n);
    var ns := AcceptedNonces(s, es);
    var last := LastWithLow(ns, iv);
    if last.Some? {
      var i :| 0 <= i < |ns| && ns[i] == last.value;
      EpochsBounded(s, es, i);
      CandidateWindow(Run(s, es).nonce, iv, n);
      SameMark(last.value, n);
    }
  }

  lemma SameMark(m: nat, n: nat)
    requires Low(m) == Low(n) && High(m) == High(n) && m != n && Epoch(m) <= Epoch(n)
    ensures n >= m + 65536
  {
  }

  // -- Counters -------------------------------------------------------------------

  function LateAccepts(s: Link, es: seq<Event>): (n: nat)
    requires s.Valid() && Events(es)
    decreases |es|
  {
    if es == [] then 0
    else
      (if AcceptedBy(s, es[0]).Some? && Classify(Low(s.nonce), es[0].iv) == Late then 1 else 0)
      + LateAccepts(Step(s, es[0]), es[1..])
  }

  /** How often the 128-bit counter wrapped. */
  function Wraps(s: Link, es: seq<Event>): (n: nat)
    requires s.Valid() && Events(es)
    decreases |es|
  {
    if es == [] then 0
    else
      (if AcceptedBy(s, es[0]) == Some(0) && s.nonce == NONCES - 1 then 1 else 0)
      + Wraps(Step(s, es[0]), es[1..])
  }

  /** Over any run of packets the nonce advances by the packets counted lost
      plus those counted good, less the late ones. */
  lemma {:induction false} NonceAccounting(s: Link, es: seq<Event>)
    requires s.Valid() && Events(es) && forall i :: 0 <= i < |es| ==> es[i].Packet?
    ensures var t := Run(s, es);
            t.nonce + NONCES * Wraps(s, es) + LateAccepts(s, es) - s.nonce ==
            (t.stats.lost - s.stats.lost) + (t.stats.good - s.stats.good)
    decreases |es|
  {
    if es != [] {
      var e := es[0];
      AccountingStep(s, e.iv, e.authentic);
      NonceAccounting(Step(s, e), es[1..]);
    }
  }

  lemma AccountingStep(s: Link, iv: Byte, authentic: bool)
    requires s.Valid()
    ensures var c := Accepts(s, iv, authentic);
            var t := Step(s, Packet(iv, authentic));
            t.nonce + (if c == Some(0) && s.nonce == NONCES - 1 then NONCES else 0)
            + (if c.Some? && Classify(Low(s.nonce), iv) == Late then 1 else 0) - s.nonce ==
            (t.stats.lost - s.stats.lost) + (t.stats.good - s.stats.good)
  {
    if Low(s.nonce) != 255 { assert (s.nonce + 1) % NONCES == s.nonce + 1; }
  }

  /** `good` counts the accepted packets; `late` only says whether one was late. */
  lemma {:induction false} CountersMean(s: Link, es: seq<Event>)
    requires s.Valid() && Events(es)
    ensures var t := Run(s, es);
            && t.stats.good == s.stats.good + |AcceptedNonces(s, es)|
            && t.stats.late == (if LateAccepts(s, es) > 0 && s.stats.late == 0 then 1 else s.stats.late)
    decreases |es|
  {
    if es != [] { CountersMean(Step(s, es[0]), es[1..]); }
  }

  // -- The in-order stream ------------------------------------------------------------

  /** The nonce of the sender's packet number `i`, counting from 1, and its bytes. */
  function Sent(start: nat, i: nat): (n: nat)
    ensures n < NONCES
  {
    (start + i) % NONCES
  }

  lemma SentBytes(m: nat)
    ensures Low(m % NONCES) == Low(m) && High(m % NONCES) == High(m)
  {
    var q, r := m / NONCES, m % NONCES;
    assert m == NONCES * q + r;
    assert NONCES * q == 65536 * (NONCES / 65536 * q);
  }

  lemma SentNext(start: nat, i: nat)
    ensures (Sent(start, i) + 1) % NONCES == Sent(start, i + 1)
  {
  }

  /** The sender repeats a nonce exactly every 2^128 packets. */
  lemma SentRepeatsIff(start: nat, i: nat, j: nat)
    requires i <= j
    ensures Sent(start, i) == Sent(start, j) <==> (j - i) % NONCES == 0
  {
    var a, b := start + i, start + j;
    var q := b / NONCES - a / NONCES;
    assert b - a == NONCES * q + (b % NONCES - a % NONCES);
  }

  /** After `i` in-order packets: the last 256 counters are marked, and the slots
      of counters not reached yet still hold the initial fill. */
  ghost predicate Streaming(s: Link, start: nat, i: nat)
  {
    && s.Valid()
    && s.nonce == Sent(start, i)
    && (forall m :: start < m <= start + i < m + 256 ==> s.history[Low(m)] == High(m))
    && (forall m :: start + i < m <= start + 256 ==> s.history[Low(m)] == 255 - High(start))
  }

  /** The initial fill stands where the first carry will arrive exactly for these two values. */
  predicate FillCollides(start: nat) {
    High(start) == 0x7F || High(start) == 0xFF
  }

  /** The packet that first carries into byte 1. */
  function FirstCarry(start: nat): (i: nat)
    ensures i >= 1 && Low(start + i) == 0
  {
    256 - Low(start)
  }

  lemma NextIsInSequence(n: nat)
    ensures Classify(Low(n), Low(n + 1)) == InSequence
  {
    assert n % 256 == 255 || (n + 1) % 256 == n % 256 + 1;
  }

  /** What happens to the next packet in sequence. */
  lemma NextPacket(s: Link)
    requires s.Valid()
    ensures var n := s.nonce + 1;
            && Candidate(s.nonce, Low(n)) == Some(n % NONCES)
            && Accepts(s, Low(n), true) == (if s.history[Low(n)] != High(n) then Some(n % NONCES) else None)
            && (s.history[Low(n)] != High(n) ==>
                  var t := Step(s, Packet(Low(n), true));
                  t.nonce == n % NONCES && t.history == s.history[Low(n) := High(n)])
  {
    hide Classify, Low, High, NONCES;
    NextIsInSequence(s.nonce);
    SentBytes(s.nonce + 1);
  }

  lemma InOrderStep(s: Link, start: nat, i: nat)
    requires Streaming(s, start, i)
    requires FillCollides(start) ==> i + 1 < FirstCarry(start)
    ensures var p := Packet(Low(start + i + 1), true);
            Accepts(s, p.iv, true) == Some(Sent(start, i + 1)) && Streaming(Step(s, p), start, i + 1)
  {
    hide Accepts, Step, High, NONCES;
    var m := start + i + 1;
    NextBytes(s, start, i);
    NextPacket(s);
    SlotOpen(s, start, i);
    var t := Step(s, Packet(Low(m), true));
    forall k | start < k <= start + i + 1 < k + 256 ensures t.history[Low(k)] == High(k) {
      if k != m { SameSlot(k, m); }
    }
    forall k | start + i + 1 < k <= start + 256 ensures t.history[Low(k)] == 255 - High(start) {
      SameSlot(m, k);
    }
  }

  lemma NextBytes(s: Link, start: nat, i: nat)
    requires s.nonce == Sent(start, i)
    ensures Low(s.nonce + 1) == Low(start + i + 1) && High(s.nonce + 1) == High(start + i + 1)
    ensures (s.nonce + 1) % NONCES == Sent(start, i + 1)
  {
    SentNext(start, i);
    SentBytes(s.nonce + 1);
    SentBytes(start + i + 1);
  }

  lemma SlotOpen(s: Link, start: nat, i: nat)
    requires Streaming(s, start, i)
    requires FillCollides(start) ==> i + 1 < FirstCarry(start)
    ensures s.history[Low(start + i + 1)] != High(start + i + 1)
  {
    var m := start + i + 1;
    if i >= 256 {
      assert Low(m - 256) == Low(m) && s.history[Low(m - 256)] == High(m - 256) != High(m);
    } else {
      FillAvoids(start, m);
    }
  }

  lemma SameSlot(k: nat, m: nat)
    requires k < m < k + 256
    ensures Low(k) != Low(m)
  {
  }

  lemma FillAvoids(start: nat, m: nat)
    requires start < m <= start + 256
    ensures 255 - High(start) == High(m) <==> FillCollides(start) && m >= start + FirstCarry(start)
  {
    if m < start + FirstCarry(start) {
      assert Epoch(m) == Epoch(start);
    } else {
      assert Epoch(m) == Epoch(start) + 1;
    }
  }

  /** For the two colliding values the first carrying packet is refused... */
  lemma CarryRefused(s: Link, start: nat)
    requires FillCollides(start) && Streaming(s, start, FirstCarry(start) - 1)
    ensures Low(s.nonce) == 255 && s.history[0] == High(s.nonce + 1)
    ensures Accepts(s, 0, true) == None
  {
    hide Accepts, Candidate, High, Sent;
    var m := start + FirstCarry(start);
    NextBytes(s, start, FirstCarry(start) - 1);
    NextPacket(s);
    FillAvoids(start, m);
  }

  /** ...and from then on the nonce never moves again, whatever arrives. */
  lemma {:induction false} FrozenForever(s: Link, es: seq<Event>)
    requires s.Valid() && Events(es) && forall i :: 0 <= i < |es| ==> es[i].Packet?
    requires Low(s.nonce) == 255 && s.history[0] == High(s.nonce + 1)
    ensures Run(s, es).nonce == s.nonce && Run(s, es).history[0] == s.history[0]
    decreases |es|
  {
    if es != [] {
      SentBytes(s.nonce + 1);
      FrozenForever(Step(s, es[0]), es[1..]);
    }
  }
}

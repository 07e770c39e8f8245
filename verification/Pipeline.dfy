/** Talk framing on the way out, loss concealment on the way in. */
module Pipeline {
  import opened Bytes

  // -- Outbound ------------------------------------------------------------------------

  /** What one tick finds: no samples, a device error, or a frame, with the verdict of
      the filters and whether they and the encoder succeed on it. */
  datatype Capture = NotEnoughSamples | DeviceError | Frame(silent: bool, filters: bool, encodes: bool)

  datatype Outgoing = Audio(sequence: nat) | Terminator(sequence: nat)

  datatype Tick = Send(packet: Outgoing) | Silence | NoData | Error

  datatype Talk = Talk(wasTalking: bool, sequence: nat)

  function Ticked(t: Talk, c: Capture): (r: (Talk, Tick))
  {
    match c
    case NotEnoughSamples => (t, NoData)
    case DeviceError => (t, Error)
    case Frame(silent, filters, encodes) =>
      if !filters then (t, Error)
      else if silent && !t.wasTalking then (t, Silence)
      else
        var talking := t.(wasTalking := !silent);
        if !encodes then (talking, Error)
        else (talking.(sequence := t.sequence + 1),
              Send(if silent then Terminator(t.sequence) else Audio(t.sequence)))
  }

  /** What a tick reports: which stage it failed in does not matter, silence is reported only
      outside a spurt, and only a frame that passes all stages is sent. */
  lemma TickReports(t: Talk, c: Capture)
    ensures var tick, ending := Ticked(t, c).1, c.Frame? && c.silent && t.wasTalking;
            && (tick == NoData <==> c == NotEnoughSamples)
            && (tick == Silence <==> c.Frame? && c.filters && c.silent && !t.wasTalking)
            && (tick.Send? <==> c.Frame? && c.filters && c.encodes && (!c.silent || ending))
            && (tick.Send? ==> (tick.packet.Terminator? <==> ending) && tick.packet.sequence == t.sequence)
  {
  }

  function SentBy(t: Talk, cs: seq<Capture>): (ps: seq<Outgoing>)
    decreases |cs|
  {
    if cs == [] then []
    else
      var (n, tick) := Ticked(t, cs[0]);
      (if tick.Send? then [tick.packet] else []) + SentBy(n, cs[1..])
  }

  /** Every packet list of this shape is a prefix of (Audio+ Terminator)*. */
  predicate Framed(ps: seq<Outgoing>) {
    forall i :: 0 <= i < |ps| && ps[i].Terminator? ==> i > 0 && ps[i - 1].Audio?
  }

  predicate Numbered(ps: seq<Outgoing>, first: nat) {
    forall i :: 0 <= i < |ps| ==> ps[i].sequence == first + i
  }

  /** Every terminator is earned: each silent frame that ends a spurt and is encoded comes
      after a speech frame that was encoded since the last encoded terminator. `audible`
      says whether there has been such a frame. */
  predicate Earned(t: Talk, audible: bool, cs: seq<Capture>)
    decreases |cs|
  {
    if cs == [] then true
    else
      var c, n := cs[0], Ticked(t, cs[0]).0;
      if !c.Frame? || !c.filters || !c.encodes || (c.silent && !t.wasTalking) then Earned(n, audible, cs[1..])
      else if c.silent then audible && Earned(n, false, cs[1..])
      else Earned(n, true, cs[1..])
  }

  /** Sequence numbers are consecutive on every run, failures included. */
  lemma {:induction false} TalkIsNumbered(t: Talk, cs: seq<Capture>)
    ensures Numbered(SentBy(t, cs), t.sequence)
    decreases |cs|
  {
    if cs != [] { TalkIsNumbered(Ticked(t, cs[0]).0, cs[1..]); }
  }

  predicate EndsInAudio(ps: seq<Outgoing>) { ps != [] && ps[|ps| - 1].Audio? }

  lemma FramedAppend(before: seq<Outgoing>, p: Outgoing)
    requires Framed(before)
    ensures Framed(before + [p]) <==> (p.Audio? || EndsInAudio(before))
  {
    var ps, n := before + [p], |before|;
    assert ps[n] == p && (n > 0 ==> ps[n - 1] == before[n - 1]);
    forall i | 0 <= i < n && ps[i].Terminator? ensures i > 0 && ps[i - 1].Audio? {
      assert before[i].Terminator? && ps[i - 1] == before[i - 1];
    }
  }

  lemma FramedPrefix(before: seq<Outgoing>, after: seq<Outgoing>)
    requires Framed(before + after)
    ensures Framed(before)
  {
    var ps := before + after;
    forall i | 0 <= i < |before| && before[i].Terminator? ensures i > 0 && before[i - 1].Audio? {
      assert ps[i].Terminator? && ps[i - 1] == before[i - 1];
    }
  }

  /** Continuing a framed list, the framing is kept exactly when every terminator is earned. */
  lemma {:induction false} FramedAfterIff(t: Talk, cs: seq<Capture>, before: seq<Outgoing>)
    requires Framed(before)
    ensures Framed(before + SentBy(t, cs)) <==> Earned(t, EndsInAudio(before), cs)
    decreases |cs|
  {
    if cs == [] {
      assert before + [] == before;
    } else {
      var (n, tick) := Ticked(t, cs[0]);
      var rest := SentBy(n, cs[1..]);
      if tick.Send? {
        var now := before + [tick.packet];
        assert before + SentBy(t, cs) == now + rest;
        FramedAppend(before, tick.packet);
        if Framed(now) {
          FramedAfterIff(n, cs[1..], now);
        } else if Framed(now + rest) {
          FramedPrefix(now, rest);
        }
      } else {
        assert before + SentBy(t, cs) == before + rest;
        FramedAfterIff(n, cs[1..], before);
      }
    }
  }

  /** From a fresh pipeline, whatever is captured and whichever stages fail: the sent
      packets form a prefix of (Audio+ Terminator)* if and only if every terminator is
      earned, and their sequence numbers are consecutive in any case. */
  lemma TalkIsFramedIff(sequence: nat, cs: seq<Capture>)
    ensures var sent := SentBy(Talk(false, sequence), cs);
            Numbered(sent, sequence) && (Framed(sent) <==> Earned(Talk(false, sequence), false, cs))
  {
    TalkIsNumbered(Talk(false, sequence), cs);
    FramedAfterIff(Talk(false, sequence), cs, []);
    assert [] + SentBy(Talk(false, sequence), cs) == SentBy(Talk(false, sequence), cs);
  }

  /** The frame that opens a talk spurt is encoded; any other stage may fail. */
  predicate OpeningsEncode(t: Talk, cs: seq<Capture>)
    decreases |cs|
  {
    cs == [] ||
    (var c := cs[0];
     && (!t.wasTalking && c.Frame? && c.filters && !c.silent ==> c.encodes)
     && OpeningsEncode(Ticked(t, c).0, cs[1..]))
  }

  lemma {:induction false} OpeningsEarn(t: Talk, audible: bool, cs: seq<Capture>)
    requires OpeningsEncode(t, cs) && (t.wasTalking ==> audible)
    ensures Earned(t, audible, cs)
    decreases |cs|
  {
    if cs != [] {
      var c, n := cs[0], Ticked(t, cs[0]).0;
      var sent := c.Frame? && c.filters && c.encodes && !(c.silent && !t.wasTalking);
      OpeningsEarn(n, if sent then !c.silent else audible, cs[1..]);
    }
  }

  /** In particular the framing holds whenever the opening frame of each spurt is encoded,
      so whenever the encoder never fails. */
  lemma TalkIsFramed(sequence: nat, cs: seq<Capture>)
    requires OpeningsEncode(Talk(false, sequence), cs)
    ensures Framed(SentBy(Talk(false, sequence), cs)) && Numbered(SentBy(Talk(false, sequence), cs), sequence)
  {
    TalkIsFramedIff(sequence, cs);
    OpeningsEarn(Talk(false, sequence), false, cs);
  }

  /** An opening frame that fails to encode, followed by silence, sends a terminator
      with nothing to terminate. */
  lemma FailedOpening(t: Talk)
    requires !t.wasTalking
    ensures var cs := [Frame(false, true, false), Frame(true, true, true)];
            !Earned(t, false, cs) && SentBy(t, cs) == [Terminator(t.sequence)] && !Framed(SentBy(t, cs))
  {
    var cs := [Frame(false, true, false), Frame(true, true, true)];
    var mid := Ticked(t, cs[0]).0;
    assert cs[1..] == [cs[1]] && cs[1..][1..] == [];
    assert SentBy(mid, cs[1..]) == [Terminator(t.sequence)] + SentBy(Ticked(mid, cs[1]).0, []);
    assert SentBy(t, cs)[0].Terminator?;
  }

  class OutboundPipeline {
    var wasTalking: bool
    var sequence: nat

    ghost function State(): (t: Talk)
      reads this
    {
      Talk(wasTalking, sequence)
    }

    constructor ()
      ensures State() == Talk(false, 0)
    {
      wasTalking, sequence := false, 0;
    }

    method Encode(encodes: bool) returns (packet: Option<nat>)
      modifies this`sequence
      ensures encodes ==> packet == Some(old(sequence)) && sequence == old(sequence) + 1
      ensures !encodes ==> packet == None && sequence == old(sequence)
    {
      if !encodes {
        return None;
      }
      packet := Some(sequence);
      sequence := sequence + 1;
    }

    method DoTick(c: Capture) returns (tick: Tick)
      modifies this
      ensures (State(), tick) == Ticked(old(State()), c)
    {
      match c {
        case NotEnoughSamples => return NoData;
        case DeviceError => return Error;
        case Frame(silent, filters, encodes) =>
          if !filters {
            return Error;
          }
          if silent {
            if !wasTalking {
              return Silence;
            }
            wasTalking := false;
            var packet := Encode(encodes);
            tick := if packet.Some? then Send(Terminator(packet.value)) else Error;
          } else {
            wasTalking := true;
            var packet := Encode(encodes);
            tick := if packet.Some? then Send(Audio(packet.value)) else Error;
          }
      }
    }
  }

  // -- Inbound ---------------------------------------------------------------------------

  /** A frame the pipeline sets out to play. */
  datatype Played = Concealed | Decoded(sequence: nat)

  datatype Tracking = Tracking(lastSeq: Option<nat>, seqStep: Option<nat>)

  /** The number of packets to conceal, and the step after this packet. */
  function DetectGap(t: Tracking, incoming: nat): (r: (nat, Option<nat>))
  {
    if t.lastSeq.None? then (0, t.seqStep)
    else
      var prev := t.lastSeq.value;
      match t.seqStep
      case Some(step) =>
        if step == 0 || incoming <= prev + step then (0, t.seqStep)
        else (Min((incoming - (prev + step)) / step, 3), t.seqStep)
      case None => (0, if incoming > prev then Some(incoming - prev) else None)
  }

  function PlayedFor(t: Tracking, incoming: nat): (ps: seq<Played>) {
    seq(DetectGap(t, incoming).0, i => Concealed) + [Decoded(incoming)]
  }

  function Tracked(t: Tracking, incoming: nat): (r: Tracking) {
    Tracking(Some(incoming), DetectGap(t, incoming).1)
  }

  function PlayAll(t: Tracking, packets: seq<nat>): (ps: seq<Played>)
    decreases |packets|
  {
    if packets == [] then []
    else PlayedFor(t, packets[0]) + PlayAll(Tracked(t, packets[0]), packets[1..])
  }

  /** A packet with the stages' answers: the numbers of those of its frames, concealment
      frames first, for which the decoder, a filter or the playback fails. */
  datatype Packet = Packet(sequence: nat, failed: set<nat>)

  datatype Attempt = Attempt(frame: Played, ok: bool)

  function Attempts(t: Tracking, p: Packet): (a: seq<Attempt>) {
    var ps := PlayedFor(t, p.sequence);
    seq(|ps|, i requires 0 <= i < |ps| => Attempt(ps[i], i !in p.failed))
  }

  function AllAttempts(t: Tracking, packets: seq<Packet>): (a: seq<Attempt>)
    decreases |packets|
  {
    if packets == [] then []
    else Attempts(t, packets[0]) + AllAttempts(Tracked(t, packets[0].sequence), packets[1..])
  }

  /** What reaches the playback device. */
  function Written(a: seq<Attempt>): (ps: seq<Played>) {
    if a == [] then []
    else
      var last := a[|a| - 1];
      Written(a[..|a| - 1]) + (if last.ok then [last.frame] else [])
  }

  function Frames(a: seq<Attempt>): (ps: seq<Played>) {
    seq(|a|, i requires 0 <= i < |a| => a[i].frame)
  }

  function Sequences(packets: seq<Packet>): (ns: seq<nat>) {
    seq(|packets|, i requires 0 <= i < |packets| => packets[i].sequence)
  }

  lemma AttemptsAreFrames(t: Tracking, p: Packet)
    ensures Frames(Attempts(t, p)) == PlayedFor(t, p.sequence)
  {
    hide PlayedFor;
  }

  lemma FramesAppend(a: seq<Attempt>, b: seq<Attempt>)
    ensures Frames(a + b) == Frames(a) + Frames(b)
  {
  }

  /** Failing stages only leave out their own frames: what is attempted, and so the gaps
      found and the step learned, does not depend on them in any run. */
  lemma {:induction false} FailuresOnlyOmit(t: Tracking, packets: seq<Packet>)
    ensures Frames(AllAttempts(t, packets)) == PlayAll(t, Sequences(packets))
    decreases |packets|
  {
    if packets != [] {
      hide DetectGap, Frames, Attempts, PlayedFor;
      var p, rest := packets[0], packets[1..];
      FailuresOnlyOmit(Tracked(t, p.sequence), rest);
      assert Sequences(packets)[1..] == Sequences(rest);
      AttemptsAreFrames(t, p);
      FramesAppend(Attempts(t, p), AllAttempts(Tracked(t, p.sequence), rest));
    }
  }

  predicate NoneFails(a: seq<Attempt>) { forall i :: 0 <= i < |a| ==> a[i].ok }

  /** And when no stage fails everything attempted is written. */
  lemma {:induction false} WrittenWhenNothingFails(a: seq<Attempt>)
    requires NoneFails(a)
    ensures Written(a) == Frames(a)
  {
    if a != [] {
      WrittenWhenNothingFails(a[..|a| - 1]);
      assert Frames(a) == Frames(a[..|a| - 1]) + [a[|a| - 1].frame];
    }
  }

  lemma {:induction false} AllOk(t: Tracking, packets: seq<Packet>)
    requires forall i :: 0 <= i < |packets| ==> packets[i].failed == {}
    ensures NoneFails(AllAttempts(t, packets))
    decreases |packets|
  {
    if packets != [] {
      hide PlayedFor;
      var first, rest := Attempts(t, packets[0]), AllAttempts(Tracked(t, packets[0].sequence), packets[1..]);
      AllOk(Tracked(t, packets[0].sequence), packets[1..]);
      assert packets[0].failed == {} && NoneFails(first);
      var all := first + rest;
      forall i | 0 <= i < |all| ensures all[i].ok {
        if i >= |first| { assert all[i] == rest[i - |first|]; }
      }
    }
  }

  /** So a run in which no stage fails writes exactly what the numbers call for. */
  lemma WrittenIsPlayed(t: Tracking, packets: seq<Packet>)
    requires forall i :: 0 <= i < |packets| ==> packets[i].failed == {}
    ensures Written(AllAttempts(t, packets)) == PlayAll(t, Sequences(packets))
  {
    AllOk(t, packets);
    WrittenWhenNothingFails(AllAttempts(t, packets));
    FailuresOnlyOmit(t, packets);
  }

  /** A packet whose frames all fail writes nothing. */
  lemma {:induction false} NothingWritten(a: seq<Attempt>)
    requires forall i :: 0 <= i < |a| ==> !a[i].ok
    ensures Written(a) == []
  {
    if a != [] { NothingWritten(a[..|a| - 1]); }
  }

  lemma AllFramesFail(t: Tracking, p: Packet)
    requires forall i :: 0 <= i < |PlayedFor(t, p.sequence)| ==> i in p.failed
    ensures Written(Attempts(t, p)) == []
  {
    NothingWritten(Attempts(t, p));
  }

  /** A packet that is not newer than the last one conceals nothing and teaches no step. */
  lemma LateConcealsNothing(t: Tracking, incoming: nat)
    requires t.lastSeq.Some? && incoming <= t.lastSeq.value
    ensures DetectGap(t, incoming) == (0, t.seqStep)
  {
  }

  function TrackedAll(t: Tracking, packets: seq<nat>): (r: Tracking)
    decreases |packets|
  {
    if packets == [] then t else TrackedAll(Tracked(t, packets[0]), packets[1..])
  }

  /** In every run a learned step is positive, the last number is the last packet's, and a
      step once learned is never changed. */
  lemma {:induction false} StepStays(t: Tracking, packets: seq<nat>)
    requires t.seqStep.Some? ==> t.seqStep.value > 0
    ensures var r := TrackedAll(t, packets);
            && (r.seqStep.Some? ==> r.seqStep.value > 0)
            && (t.seqStep.Some? ==> r.seqStep == t.seqStep)
            && (packets != [] ==> r.lastSeq == Some(packets[|packets| - 1]))
    decreases |packets|
  {
    if packets != [] { StepStays(Tracked(t, packets[0]), packets[1..]); }
  }

  class InboundPipeline {
    var lastSeq: Option<nat>
    var seqStep: Option<nat>
    var written: seq<Played>

    ghost function State(): (t: Tracking)
      reads this
    {
      Tracking(lastSeq, seqStep)
    }

    constructor ()
      ensures State() == Tracking(None, None) && written == []
    {
      lastSeq, seqStep, written := None, None, [];
    }

    /** `detect_sequence_gap`, which learns the step through its reference argument. */
    method DetectSequenceGap(incoming: nat) returns (gap: Option<nat>)
      modifies this`seqStep
      ensures (match gap case None => 0 case Some(n) => n, seqStep) == DetectGap(old(State()), incoming)
    {
      if lastSeq.None? {
        return None;
      }
      var prev := lastSeq.value;
      if seqStep.Some? {
        var step := seqStep.value;
        if step == 0 {
          return None;
        }
        var expected := prev + step;
        if incoming > expected {
          gap := Some(Min((incoming - expected) / step, 3));
        } else {
          gap := None;
        }
      } else {
        if incoming > prev {
          seqStep := Some(incoming - prev);
        }
        gap := None;
      }
    }

    /** A failing concealment frame is skipped; a packet that fails is recorded all the same. */
    method TickPacket(p: Packet) returns (ok: bool)
      modifies this
      ensures State() == Tracked(old(State()), p.sequence)
      ensures written == old(written) + Written(Attempts(old(State()), p))
      ensures ok <==> DetectGap(old(State()), p.sequence).0 !in p.failed
    {
      ghost var t, was := State(), written;
      ghost var a := Attempts(t, p);
      var gap := DetectSequenceGap(p.sequence);
      var count := match gap case None => 0 case Some(n) => n;
      for i := 0 to count
        invariant lastSeq == t.lastSeq && seqStep == DetectGap(t, p.sequence).1
        invariant written == was + Written(a[..i])
      {
        assert a[..i + 1][..i] == a[..i] && a[i].frame == Concealed;
        if i !in p.failed {
          written := written + [Concealed];
        }
      }
      lastSeq := Some(p.sequence);
      assert a[..count + 1] == a && a[..count + 1][..count] == a[..count] && a[count].frame == Decoded(p.sequence);
      if count in p.failed {
        return false;
      }
      written := written + [Decoded(p.sequence)];
      ok := true;
    }
  }

  // -- A stream with a constant step ----------------------------------------------------------

  /** Positions of the packets that arrived out of a stream numbered first, first + step, ... */
  predicate Arrivals(positions: seq<nat>) {
    forall i, j :: 0 <= i < j < |positions| ==> positions[i] < positions[j]
  }

  function Numbers(first: nat, step: nat, positions: seq<nat>): (ns: seq<nat>)
    ensures |ns| == |positions|
  {
    seq(|positions|, i requires 0 <= i < |positions| => first + step * positions[i])
  }

  /** What should be played after position `prev`: up to three concealment frames for
      each run of missing packets, then the packet. */
  function Expected(first: nat, step: nat, prev: nat, positions: seq<nat>): (ps: seq<Played>)
    requires forall i :: 0 <= i < |positions| ==> positions[i] > prev
    requires Arrivals(positions)
    decreases |positions|
  {
    if positions == [] then []
    else
      seq(Min(3, positions[0] - prev - 1), i => Concealed) + [Decoded(first + step * positions[0])]
      + Expected(first, step, positions[0], positions[1..])
  }

  // -- The learned step decides what is concealed -----------------------------------------

  lemma CancelFactor(step: nat, a: nat, k: nat)
    requires step > 0 && k > 0
    ensures step * k > 0 && (step * a) / (step * k) == a / k
  {
    var q, r := a / k, a % k;
    assert a == k * q + r;
    assert step * a == (step * k) * q + step * r by {
      assert step * (k * q + r) == step * (k * q) + step * r;
      assert step * (k * q) == (step * k) * q;
    }
    MulMonotone(step, r + 1, k);
    QuotientIs(step * a, step * k, q, step * r);
  }

  lemma LearnsStep(first: nat, step: nat, k: nat)
    requires step > 0 && k > 0
    ensures Tracked(Tracked(Tracking(None, None), first), first + step * k) ==
            Tracking(Some(first + step * k), Some(step * k))
  {
    MulMonotone(step, 1, k);
  }

  /** With a step learned k times too large, this many of the packets missing between two
      arrivals are concealed. */
  function ConcealedAt(k: nat, ahead: nat): (n: nat)
    requires k > 0 && ahead > 0
  {
    if ahead <= k then 0 else Min(3, ahead / k - 1)
  }

  lemma GapWithStep(first: nat, step: nat, k: nat, prev: nat, next: nat)
    requires step > 0 && k > 0 && next > prev
    ensures DetectGap(Tracking(Some(first + step * prev), Some(step * k)), first + step * next) ==
            (ConcealedAt(k, next - prev), Some(step * k))
  {
    var ahead := next - prev;
    Products(step, prev, ahead);
    MulMonotone(step, 1, k);
    if ahead <= k {
      MulMonotone(step, ahead, k);
    } else {
      Products(step, k, ahead - k);
      MulMonotone(step, 1, ahead - k);
      CancelFactor(step, ahead - k, k);
      OneLess(ahead, k);
      Distance(first + step * prev, step * k, step * (ahead - k));
    }
  }

  lemma Products(step: nat, a: nat, b: nat)
    ensures step * (a + b) == step * a + step * b
  {
  }

  lemma OneLess(ahead: nat, k: nat)
    requires 0 < k < ahead
    ensures (ahead - k) / k == ahead / k - 1
  {
    var q := (ahead - k) / k;
    assert ahead - k == k * q + (ahead - k) % k;
    MulMonotone(k, q + 1, q + 1);
    QuotientIs(ahead, k, q + 1, (ahead - k) % k);
  }

  /** The detector's arithmetic with the distance given. */
  lemma Distance(prev: nat, step: nat, beyond: nat)
    requires step > 0 && beyond > 0
    ensures DetectGap(Tracking(Some(prev), Some(step)), prev + step + beyond) == (Min(beyond / step, 3), Some(step))
  {
  }

  /** That is the right number only for k = 1, for no loss, or for a loss so long that the
      limit of three hides the error. */
  lemma ConcealedRightIff(k: nat, ahead: nat)
    requires k > 0 && ahead > 0
    ensures ConcealedAt(k, ahead) == Min(3, ahead - 1) <==> k == 1 || ahead == 1 || ahead >= 4 * k
  {
    if k == 1 {
      QuotientIs(ahead, k, ahead, 0);
    } else if ahead > k {
      assert ahead == k * (ahead / k) + ahead % k;
      QuotientBounds(k, ahead / k, ahead % k, ahead);
    }
  }

  lemma QuotientBounds(k: nat, q: nat, r: nat, ahead: nat)
    requires k >= 2 && r < k && ahead == k * q + r
    ensures ahead >= 2 * q && (q >= 4 <==> ahead >= 4 * k)
  {
    MulMonotone(q, 2, k);
    if q >= 4 { MulMonotone(k, 4, q); } else { MulMonotone(k, q + 1, 4); }
  }

  /** No loss between two arrivals is of a length the learned step miscounts. */
  predicate LossesFit(k: nat, prev: nat, positions: seq<nat>)
    requires Arrivals(positions) && forall i :: 0 <= i < |positions| ==> positions[i] > prev
    decreases |positions|
  {
    positions == [] ||
    ((positions[0] == prev + 1 || positions[0] - prev >= 4 * k) && LossesFit(k, positions[0], positions[1..]))
  }

  /** How many concealment frames a playback starts with. */
  function Leading(ps: seq<Played>): (n: nat) {
    if ps != [] && ps[0].Concealed? then 1 + Leading(ps[1..]) else 0
  }

  function Run(a: nat, n: nat, rest: seq<Played>): (ps: seq<Played>) { seq(a, i => Concealed) + [Decoded(n)] + rest }

  lemma {:induction false} LeadingOfRun(a: nat, n: nat, rest: seq<Played>)
    ensures Leading(Run(a, n, rest)) == a && Run(a, n, rest)[a + 1..] == rest
  {
    if a > 0 {
      LeadingOfRun(a - 1, n, rest);
      assert Run(a, n, rest)[1..] == Run(a - 1, n, rest);
    }
  }

  /** A concealment run and what follows it are determined by what is played. */
  lemma RunsAgree(a: nat, b: nat, n: nat, p: seq<Played>, q: seq<Played>)
    ensures Run(a, n, p) == Run(b, n, q) <==> a == b && p == q
  {
    LeadingOfRun(a, n, p);
    LeadingOfRun(b, n, q);
  }

  lemma PlayStep(first: nat, step: nat, k: nat, prev: nat, positions: seq<nat>)
    requires step > 0 && k > 0 && positions != [] && positions[0] > prev
    ensures PlayAll(Tracking(Some(first + step * prev), Some(step * k)), Numbers(first, step, positions)) ==
            Run(ConcealedAt(k, positions[0] - prev), first + step * positions[0],
                PlayAll(Tracking(Some(first + step * positions[0]), Some(step * k)),
                        Numbers(first, step, positions[1..])))
  {
    hide DetectGap, ConcealedAt;
    GapWithStep(first, step, k, prev, positions[0]);
    var ns := Numbers(first, step, positions);
    assert ns[1..] == Numbers(first, step, positions[1..]);
  }

  lemma ExpectedStep(first: nat, step: nat, prev: nat, positions: seq<nat>)
    requires Arrivals(positions) && positions != [] && forall i :: 0 <= i < |positions| ==> positions[i] > prev
    ensures Arrivals(positions[1..]) && forall i :: 0 <= i < |positions| - 1 ==> positions[1..][i] > positions[0]
    ensures Expected(first, step, prev, positions) ==
            Run(Min(3, positions[0] - prev - 1), first + step * positions[0],
                Expected(first, step, positions[0], positions[1..]))
  {
  }

  /** With the learned step, all arrivals after position `prev` are played as they should be. */
  predicate PlaysRight(first: nat, step: nat, k: nat, prev: nat, positions: seq<nat>)
    requires Arrivals(positions) && forall i :: 0 <= i < |positions| ==> positions[i] > prev
  {
    PlayAll(Tracking(Some(first + step * prev), Some(step * k)), Numbers(first, step, positions)) ==
    Expected(first, step, prev, positions)
  }

  lemma PlaysRightStep(first: nat, step: nat, k: nat, prev: nat, positions: seq<nat>)
    requires step > 0 && k > 0 && Arrivals(positions) && forall i :: 0 <= i < |positions| ==> positions[i] > prev
    requires positions != []
    ensures var next := positions[0];
            PlaysRight(first, step, k, prev, positions) <==>
            (k == 1 || next == prev + 1 || next - prev >= 4 * k) && PlaysRight(first, step, k, next, positions[1..])
  {
    hide PlayAll, ConcealedAt, Numbers, Expected, Run;
    var next, rest := positions[0], positions[1..];
    var last := Tracking(Some(first + step * next), Some(step * k));
    ExpectedStep(first, step, prev, positions);
    PlayStep(first, step, k, prev, positions);
    ConcealedRightIff(k, next - prev);
    RunsAgree(ConcealedAt(k, next - prev), Min(3, next - prev - 1), first + step * next,
              PlayAll(last, Numbers(first, step, rest)), Expected(first, step, next, rest));
  }

  lemma {:induction false} PlaysRightIff(first: nat, step: nat, k: nat, prev: nat, positions: seq<nat>)
    requires step > 0 && k > 0 && Arrivals(positions) && forall i :: 0 <= i < |positions| ==> positions[i] > prev
    ensures PlaysRight(first, step, k, prev, positions) <==> k == 1 || LossesFit(k, prev, positions)
    decreases |positions|
  {
    if positions != [] {
      hide PlaysRight;
      PlaysRightStep(first, step, k, prev, positions);
      PlaysRightIff(first, step, k, positions[0], positions[1..]);
    }
  }

  /** For every stream with a constant step of which packets 0 and k arrive first: nothing is
      played between those two, and all later losses are concealed right if and only if k is
      1 or every later loss has at least 4k - 1 packets. */
  lemma StepLearnedIff(first: nat, step: nat, k: nat, positions: seq<nat>)
    requires step > 0 && k > 0 && Arrivals(positions) && forall i :: 0 <= i < |positions| ==> positions[i] > k
    ensures PlayAll(Tracking(None, None), [first, first + step * k] + Numbers(first, step, positions)) ==
            [Decoded(first), Decoded(first + step * k)] + LaterPlayed(first, step, k, positions)
    ensures LaterPlayed(first, step, k, positions) == Expected(first, step, k, positions) <==>
            k == 1 || LossesFit(k, k, positions)
  {
    hide DetectGap;
    var t0 := Tracking(None, None);
    var tail := Numbers(first, step, positions);
    var ns := [first, first + step * k] + tail;
    var t1 := Tracked(t0, first);
    LearnsStep(first, step, k);
    FirstTwo(first, first + step * k);
    assert ns[1..] == [first + step * k] + tail && ns[1..][1..] == tail;
    assert PlayAll(t0, ns) ==
           [Decoded(first)] + ([Decoded(first + step * k)] + PlayAll(Tracked(t1, first + step * k), tail));
    PlaysRightIff(first, step, k, k, positions);
  }

  /** What is played after the second arrival. */
  function LaterPlayed(first: nat, step: nat, k: nat, positions: seq<nat>): (ps: seq<Played>) {
    PlayAll(Tracked(Tracked(Tracking(None, None), first), first + step * k), Numbers(first, step, positions))
  }

  lemma FirstTwo(a: nat, b: nat)
    ensures PlayedFor(Tracking(None, None), a) == [Decoded(a)]
    ensures PlayedFor(Tracked(Tracking(None, None), a), b) == [Decoded(b)]
  {
  }

  /** If the first two packets of a stream with a constant step arrive, playback gets
      every packet that arrives, in order, and before it one concealment frame for each
      packet missing since the last, but at most three. */
  lemma ConcealsLosses(first: nat, step: nat, positions: seq<nat>)
    requires step > 0 && Arrivals(positions) && forall i :: 0 <= i < |positions| ==> positions[i] > 1
    ensures PlayAll(Tracking(None, None), [first, first + step] + Numbers(first, step, positions)) ==
            [Decoded(first), Decoded(first + step)] + Expected(first, step, 1, positions)
  {
    assert step * 1 == step;
    StepLearnedIff(first, step, 1, positions);
  }

  /** So a stream whose second arrival is not the next packet misplays as soon as one later
      packet is lost. */
  lemma SingleLossUnnoticed(first: nat, step: nat, k: nat)
    requires step > 0 && k > 1
    ensures LaterPlayed(first, step, k, [k + 2]) != Expected(first, step, k, [k + 2])
  {
    StepLearnedIff(first, step, k, [k + 2]);
  }
}

/** Per-speaker playback buffers: gap detection, silence fill and the size cap. */
module Mixer {
  import opened Bytes

  type Sample = real

  const MAX_SPEAKER_BUFFER_SAMPLES: nat := 19200
  const SAMPLES_PER_SEQ_UNIT: nat := 480
  const GAP_TOLERANCE: nat := 8
  const MAX_SILENCE_FILL_UNITS: nat := MAX_SPEAKER_BUFFER_SAMPLES / SAMPLES_PER_SEQ_UNIT
  const SPEAKER_TIMEOUT: int := 30000
  const FADE_IN_LEN: nat := 240
  const CROSSFADE_LEN: nat := 24

  /** Fixed per mixer: the channel count and the two ramps, taken as given. */
  datatype Config = Config(
    channels: nat, fadeIn: seq<Sample> -> seq<Sample>, crossfade: (Sample, seq<Sample>) -> seq<Sample>)
  {
    ghost predicate Valid() {
      && (forall f: seq<Sample> :: Ramp(f, fadeIn(f), FADE_IN_LEN))
      && (forall p: Sample, f: seq<Sample> :: Ramp(f, crossfade(p, f), CROSSFADE_LEN))
    }
  }

  /** A ramp keeps the length and touches only its first samples. */
  ghost predicate Ramp(before: seq<Sample>, after: seq<Sample>, length: nat) {
    |after| == |before| && forall i :: length <= i < |before| ==> after[i] == before[i]
  }

  datatype Speaker = Speaker(
    lastSeq: Option<nat>, expectedNext: Option<nat>, prevLast: Option<Sample>, needsFadeIn: bool, lastActivity: int)

  datatype State = State(speakers: map<nat, Speaker>, buffers: map<nat, seq<Sample>>)

  /** A packet with the environment's answers: the decoder's output, the clock, and
      whether a decoder could be created if one is needed. */
  datatype Packet = Packet(session: nat, sequence: nat, decoded: Option<seq<Sample>>, now: int, created: bool)

  // -- Pure parts ------------------------------------------------------------------------

  function DetectCertainGap(expected: Option<nat>, incoming: nat): (units: nat)
    ensures units <= MAX_SILENCE_FILL_UNITS
  {
    match expected
    case None => 0
    case Some(e) =>
      if incoming <= e + GAP_TOLERANCE then 0
      else if incoming - e < MAX_SILENCE_FILL_UNITS then incoming - e
      else MAX_SILENCE_FILL_UNITS
  }

  function FrameSeqUnits(length: nat, channels: nat): (units: nat)
    ensures units >= 1
  {
    var units := length / (if channels == 0 then 1 else channels) / SAMPLES_PER_SEQ_UNIT;
    if units == 0 then 1 else units
  }

  /** Silence samples to insert: what was asked for, up to the room left. */
  function SilenceRoom(buffered: nat, requested: nat): (n: nat)
    ensures n <= requested
  {
    if buffered >= MAX_SPEAKER_BUFFER_SAMPLES then 0 else Min(requested, MAX_SPEAKER_BUFFER_SAMPLES - buffered)
  }

  function Silence(n: nat): (s: seq<Sample>)
    ensures |s| == n
  {
    seq(n, i => 0.0)
  }

  /** The newest samples that fit in the buffer. */
  function Newest(s: seq<Sample>): (r: seq<Sample>)
    ensures |r| == Min(|s|, MAX_SPEAKER_BUFFER_SAMPLES)
  {
    if |s| > MAX_SPEAKER_BUFFER_SAMPLES then s[|s| - MAX_SPEAKER_BUFFER_SAMPLES..] else s
  }

  function BufferOf(m: State, session: nat): (b: seq<Sample>) {
    if session in m.buffers then m.buffers[session] else []
  }

  // -- Feeding a packet ---------------------------------------------------------------------

  predicate IsRestart(m: State, p: Packet) {
    && p.session in m.speakers && m.speakers[p.session].lastSeq.Some?
    && m.speakers[p.session].lastSeq.value > p.sequence + 10
  }

  /** The decoder the packet goes to: the existing one unless the stream restarted. */
  function SpeakerFor(m: State, p: Packet): (s: Speaker) {
    (if p.session in m.speakers && !IsRestart(m, p) then m.speakers[p.session]
     else Speaker(None, None, None, true, p.now)).(lastActivity := p.now)
  }

  predicate HasDecoder(m: State, p: Packet) {
    (p.session in m.speakers && !IsRestart(m, p)) || p.created
  }

  function Gap(m: State, p: Packet): (units: nat) {
    DetectCertainGap(SpeakerFor(m, p).expectedNext, p.sequence)
  }

  function Requested(c: Config, m: State, p: Packet): (n: nat) {
    Gap(m, p) * SAMPLES_PER_SEQ_UNIT * c.channels
  }

  function Inserted(c: Config, m: State, p: Packet): (n: nat) {
    SilenceRoom(|BufferOf(m, p.session)|, Requested(c, m, p))
  }

  /** The frame as it enters the buffer: faded in when the decoder is fresh, ramped up
      from the inserted silence when a gap was filled. */
  function Shaped(c: Config, m: State, p: Packet, frame: seq<Sample>): (r: seq<Sample>)
  {
    var s := SpeakerFor(m, p);
    if s.needsFadeIn then c.fadeIn(frame)
    else if Gap(m, p) > 0 then c.crossfade(0.0, frame)
    else if s.prevLast.Some? then c.crossfade(s.prevLast.value, frame)
    else frame
  }

  /** The state once the packet's gap is filled, before its frame is decoded. */
  function GapFilled(c: Config, m: State, p: Packet): (r: State)
    ensures p.session in r.speakers
  {
    var s := SpeakerFor(m, p);
    var last := if Gap(m, p) > 0 then Some(0.0) else s.prevLast;
    State(m.speakers[p.session := s.(lastSeq := Some(p.sequence), prevLast := last)],
          if Requested(c, m, p) == 0 then m.buffers
          else m.buffers[p.session := BufferOf(m, p.session) + Silence(Inserted(c, m, p))])
  }

  function Feed(c: Config, m: State, p: Packet): (r: State)
  {
    if !HasDecoder(m, p) then m.(speakers := m.speakers - {p.session})
    else
      var g := GapFilled(c, m, p);
      match p.decoded
      case None => g
      case Some(frame) =>
        State(g.speakers[p.session := g.speakers[p.session].(
                expectedNext := Some(p.sequence + FrameSeqUnits(|frame|, c.channels)),
                prevLast := None, needsFadeIn := false)],
              g.buffers[p.session := Newest(BufferOf(g, p.session) + Shaped(c, m, p, frame))])
  }

  // -- All operations ---------------------------------------------------------------------------

  datatype Op =
    | FeedPacket(packet: Packet)
    | Drain(session: nat, count: nat)
    | ResetSpeaker(session: nat)
    | RemoveSpeaker(session: nat)
    | RemoveInactive(now: int)
    | ResetAll

  predicate Stale(s: Speaker, now: int) { now - s.lastActivity > SPEAKER_TIMEOUT }

  function Active(speakers: map<nat, Speaker>, now: int): (r: map<nat, Speaker>) {
    map id | id in speakers && !Stale(speakers[id], now) :: speakers[id]
  }

  function StillNeeded(m: State, now: int): (r: map<nat, seq<Sample>>) {
    map id | id in m.buffers && !(id in m.speakers && Stale(m.speakers[id], now))
             && (m.buffers[id] != [] || id in m.speakers) :: m.buffers[id]
  }

  function Apply(c: Config, m: State, op: Op): (r: State)
  {
    match op
    case FeedPacket(p) => Feed(c, m, p)
    case Drain(s, n) =>
      if s in m.buffers then m.(buffers := m.buffers[s := m.buffers[s][Min(n, |m.buffers[s]|)..]]) else m
    case ResetSpeaker(s) => m.(speakers := m.speakers - {s})
    case RemoveSpeaker(s) => State(m.speakers - {s}, m.buffers - {s})
    case RemoveInactive(now) => State(Active(m.speakers, now), StillNeeded(m, now))
    case ResetAll => State(map[], map[])
  }

  function Run(c: Config, m: State, ops: seq<Op>): (r: State)
    decreases |ops|
  {
    if ops == [] then m else Run(c, Apply(c, m, ops[0]), ops[1..])
  }

  predicate Capped(m: State) {
    forall s :: s in m.buffers ==> |m.buffers[s]| <= 19200
  }

  /** In every run of mixer operations and playback drains, each buffer holds at most
      400 ms. */
  lemma {:induction false} AlwaysCapped(c: Config, m: State, ops: seq<Op>)
    requires Capped(m)
    ensures Capped(Run(c, m, ops))
    decreases |ops|
  {
    if ops != [] { AlwaysCapped(c, Apply(c, m, ops[0]), ops[1..]); }
  }

  /** Filling a gap never displaces audio already waiting, and a successful feed
      leaves exactly the newest samples of old, silence and frame. */
  lemma FeedLeaves(c: Config, m: State, p: Packet)
    requires c.Valid() && Capped(m) && HasDecoder(m, p) && p.decoded.Some?
    ensures var old_, frame := BufferOf(m, p.session), p.decoded.value;
            && |old_| + Inserted(c, m, p) <= MAX_SPEAKER_BUFFER_SAMPLES
            && Ramp(frame, Shaped(c, m, p, frame), if SpeakerFor(m, p).needsFadeIn then 240 else 24)
            && BufferOf(Feed(c, m, p), p.session) ==
               Newest(old_ + Silence(Inserted(c, m, p)) + Shaped(c, m, p, frame))
    ensures forall s :: s != p.session ==> BufferOf(Feed(c, m, p), s) == BufferOf(m, s)
  {
    hide Newest, FrameSeqUnits, DetectCertainGap, IsRestart;
    var frame, s, was := p.decoded.value, SpeakerFor(m, p), BufferOf(m, p.session);
    assert was + [] == was;
    assert BufferOf(GapFilled(c, m, p), p.session) == was + Silence(Inserted(c, m, p));
    assert Ramp(frame, c.fadeIn(frame), FADE_IN_LEN) && Ramp(frame, c.crossfade(0.0, frame), CROSSFADE_LEN);
    if s.prevLast.Some? {
      var last: Sample := s.prevLast.value;
      assert Ramp(frame, c.crossfade(last, frame), CROSSFADE_LEN);
    }
  }

  // -- What a packet does to its speaker -------------------------------------------------------

  /** Only a packet more than 10 numbers behind the last one makes a known speaker's decoder
      go: if no new one can be created, the speaker stays exactly if the packet is not. */
  lemma KeptIff(c: Config, m: State, p: Packet)
    requires p.session in m.speakers && !p.created
    ensures p.session in Feed(c, m, p).speakers <==>
            m.speakers[p.session].lastSeq.None? || m.speakers[p.session].lastSeq.value <= p.sequence + 10
  {
  }

  /** A packet within that distance, or of a speaker without a last number, finds the
      decoder as it was. */
  predicate Continuing(m: State, p: Packet) {
    && p.session in m.speakers
    && (m.speakers[p.session].lastSeq.Some? ==> m.speakers[p.session].lastSeq.value - p.sequence <= 10)
  }

  /** The speaker after a packet: number and time are recorded; the fade flag, and the sample
      to ramp from, are used up by a decoded frame; an undecoded one leaves the flag and the
      expected number, of a fresh decoder if the stream restarted or is new, and the next
      frame is ramped from silence if there was a gap. */
  lemma SpeakerAfter(c: Config, m: State, p: Packet)
    requires Continuing(m, p) || p.created
    ensures var t := Feed(c, m, p);
            var was := if Continuing(m, p) then m.speakers[p.session] else Speaker(None, None, None, true, 0);
            && p.session in t.speakers
            && var s := t.speakers[p.session];
            && s.lastSeq == Some(p.sequence) && s.lastActivity == p.now
            && (p.decoded.Some? ==> !s.needsFadeIn && s.prevLast == None)
            && (p.decoded.None? ==>
                  && s.needsFadeIn == was.needsFadeIn && s.expectedNext == was.expectedNext
                  && s.prevLast == if was.expectedNext.Some? && p.sequence > was.expectedNext.value + 8 then Some(0.0)
                                   else was.prevLast)
  {
  }

  /** Without a gap the frame enters the buffer behind what is there: faded in from a fresh
      decoder, ramped from the last silence if there was some, and otherwise unchanged. */
  lemma FrameWithoutGap(c: Config, m: State, p: Packet)
    requires (Continuing(m, p) || p.created) && p.decoded.Some?
    requires Continuing(m, p) && m.speakers[p.session].expectedNext.Some? ==>
               p.sequence <= m.speakers[p.session].expectedNext.value + 8
    ensures var was, frame := BufferOf(m, p.session), p.decoded.value;
            BufferOf(Feed(c, m, p), p.session) == Newest(
              if !Continuing(m, p) || m.speakers[p.session].needsFadeIn then was + c.fadeIn(frame)
              else if m.speakers[p.session].prevLast.Some? then
                was + c.crossfade(m.speakers[p.session].prevLast.value, frame)
              else was + frame)
  {
    hide Newest, FrameSeqUnits;
    assert GapFilled(c, m, p).buffers == m.buffers;
  }

  /** A gap of more than 8 units puts 480 samples of silence per channel and unit, up to 40
      units and to the room left, before a frame that is ramped up from silence. */
  lemma FrameAfterGap(c: Config, m: State, p: Packet, e: nat)
    requires Continuing(m, p) && p.decoded.Some? && m.speakers[p.session].expectedNext == Some(e)
    requires p.sequence > e + 8 && c.channels > 0
    ensures var was, frame := BufferOf(m, p.session), p.decoded.value;
            var asked := (if p.sequence - e < 40 then p.sequence - e else 40) * 480 * c.channels;
            var room := if |was| < 19200 then 19200 - |was| else 0;
            var silence := seq(if asked < room then asked else room, i => 0.0);
            BufferOf(Feed(c, m, p), p.session) ==
            Newest(was + silence + if m.speakers[p.session].needsFadeIn then c.fadeIn(frame)
                                   else c.crossfade(0.0, frame))
  {
    hide Newest, FrameSeqUnits;
    var was := BufferOf(m, p.session);
    var asked := (if p.sequence - e < 40 then p.sequence - e else 40) * 480 * c.channels;
    AskedPositive(if p.sequence - e < 40 then p.sequence - e else 40, c.channels);
    assert Requested(c, m, p) == asked > 0;
    assert BufferOf(GapFilled(c, m, p), p.session) == was + Silence(Inserted(c, m, p));
  }

  lemma AskedPositive(units: nat, channels: nat)
    requires units > 0 && channels > 0
    ensures units * 480 * channels > 0
  {
    MulMonotone(channels, 1, units * 480);
  }

  /** The newest 19200 samples are all there is room for. */
  lemma NewestMeans(s: seq<Sample>)
    ensures Newest(s) == (if |s| <= 19200 then s else s[|s| - 19200..])
  {
  }

  /** Playback takes the oldest samples of one speaker; a reset drops one decoder and keeps
      what is buffered; a removal drops both; a full reset leaves nothing. */
  lemma OtherOperations(c: Config, m: State, s: nat, n: nat)
    ensures var t := Apply(c, m, Drain(s, n));
            && t.speakers == m.speakers
            && BufferOf(t, s) == (if n < |BufferOf(m, s)| then BufferOf(m, s)[n..] else [])
            && (forall id :: id != s ==> BufferOf(t, id) == BufferOf(m, id))
    ensures Apply(c, m, ResetSpeaker(s)) == State(m.speakers - {s}, m.buffers)
    ensures Apply(c, m, RemoveSpeaker(s)) == State(m.speakers - {s}, m.buffers - {s})
    ensures Apply(c, m, ResetAll) == State(map[], map[])
  {
  }

  /** A speaker goes once it has been silent for more than 30 seconds, and its buffer with
      it; a buffer without a speaker goes once it is empty; nothing else does. */
  lemma InactiveGo(c: Config, m: State, now: int, id: nat)
    ensures var t := Apply(c, m, RemoveInactive(now));
            var stale := id in m.speakers && now - m.speakers[id].lastActivity > 30000;
            && (id in t.speakers <==> id in m.speakers && !stale)
            && (id in t.buffers <==> id in m.buffers && !stale && (id in m.speakers || m.buffers[id] != []))
            && (id in t.speakers ==> t.speakers[id] == m.speakers[id])
            && (id in t.buffers ==> t.buffers[id] == m.buffers[id])
  {
  }

  // -- Sample and time accounting ------------------------------------------------------------------

  /** What one operation means for one speaker, in samples: silence and frames added to
      its buffer, silence left out for want of room, samples thrown away, samples played,
      and the difference between a frame and the sequence units it counts for; and in
      sequence units the slack. */
  datatype Tally = Tally(added: nat, cut: nat, dropped: nat, played: nat, excess: int, slack: int)
  {
    function Plus(t: Tally): (r: Tally) {
      Tally(added + t.added, cut + t.cut, dropped + t.dropped, played + t.played, excess + t.excess, slack + t.slack)
    }
  }

  const NOTHING := Tally(0, 0, 0, 0, 0, 0)

  /** Units by which a packet's sequence number and the requested silence disagree. */
  function Slack(expected: nat, incoming: nat): (units: int) {
    incoming - expected - DetectCertainGap(Some(expected), incoming)
  }

  /** Slack is what the tolerance absorbs, overlaps included, or what the clamp cuts. */
  lemma SlackMeans(expected: nat, incoming: nat)
    ensures incoming <= expected + 8 ==> Slack(expected, incoming) == incoming - expected
    ensures incoming > expected + 8 ==>
              Slack(expected, incoming) == (if incoming - expected > 40 then incoming - expected - 40 else 0)
  {
  }

  /** Samples by which a frame differs from the units it counts for. */
  function Excess(c: Config, frame: nat): (n: int) {
    frame - FrameSeqUnits(frame, c.channels) * SAMPLES_PER_SEQ_UNIT * c.channels
  }

  /** A frame of u whole 10 ms units counts as u sequence units. */
  lemma WholeFrameUnits(u: nat, channels: nat)
    requires u >= 1 && channels >= 1
    ensures FrameSeqUnits(u * 480 * channels, channels) == u
  {
    QuotientIs(channels * (u * 480), channels, u * 480, 0);
  }

  /** A frame in general counts the whole units in it, and at least one. */
  lemma FrameUnitsFloor(length: nat, channels: nat)
    requires channels >= 1
    ensures var u := FrameSeqUnits(length, channels);
            if length < 480 * channels then u == 1 else u * 480 * channels <= length < (u + 1) * 480 * channels
    ensures FrameSeqUnits(length, 0) == FrameSeqUnits(length, 1)
  {
    var q := length / channels;
    assert length == channels * q + length % channels;
    if q < 480 {
      MulMonotone(channels, q + 1, 480);
    } else {
      var u := q / 480;
      MulMonotone(channels, 480, q);
      MulMonotone(channels, u * 480, q);
      MulMonotone(channels, q + 1, (u + 1) * 480);
    }
  }

  /** A packet that does not decode inserts its silence without moving the expected number. */
  function FeedTally(c: Config, m: State, p: Packet): (t: Tally) {
    var silence, asked := Inserted(c, m, p), Requested(c, m, p);
    match p.decoded
    case None => Tally(silence, asked - silence, 0, 0, 0, 0 - Gap(m, p))
    case Some(frame) =>
      var expected, total := SpeakerFor(m, p).expectedNext, |BufferOf(m, p.session)| + silence + |frame|;
      Tally(silence + |frame|, asked - silence, total - Min(total, MAX_SPEAKER_BUFFER_SAMPLES), 0,
            Excess(c, |frame|), if expected.None? then 0 else Slack(expected.value, p.sequence))
  }

  function OpTally(c: Config, m: State, session: nat, op: Op): (t: Tally)
  {
    var all := |BufferOf(m, session)|;
    match op
    case FeedPacket(p) => if p.session == session && HasDecoder(m, p) then FeedTally(c, m, p) else NOTHING
    case Drain(s, n) => NOTHING.(played := if s == session then Min(n, all) else 0)
    case ResetSpeaker(_) => NOTHING
    case RemoveSpeaker(s) => NOTHING.(dropped := if s == session then all else 0)
    case RemoveInactive(now) =>
      NOTHING.(dropped := if session in m.speakers && Stale(m.speakers[session], now) then all else 0)
    case ResetAll => NOTHING.(dropped := all)
  }

  function RunTally(c: Config, m: State, session: nat, ops: seq<Op>): (t: Tally)
    decreases |ops|
  {
    if ops == [] then NOTHING
    else OpTally(c, m, session, ops[0]).Plus(RunTally(c, Apply(c, m, ops[0]), session, ops[1..]))
  }

  lemma SamplesKept(c: Config, m: State, session: nat, op: Op)
    requires c.Valid()
    ensures var t := OpTally(c, m, session, op);
            |BufferOf(Apply(c, m, op), session)| + t.dropped + t.played == |BufferOf(m, session)| + t.added
  {
    hide IsRestart, FrameSeqUnits, DetectCertainGap;
    if op.FeedPacket? && op.packet.session == session && HasDecoder(m, op.packet) {
      FeedKeeps(c, m, op.packet);
    }
  }

  lemma FeedKeeps(c: Config, m: State, p: Packet)
    requires c.Valid() && HasDecoder(m, p)
    ensures var t := FeedTally(c, m, p);
            |BufferOf(Feed(c, m, p), p.session)| + t.dropped == |BufferOf(m, p.session)| + t.added
  {
    hide IsRestart, FrameSeqUnits, DetectCertainGap;
    if p.decoded.Some? { ShapedLength(c, m, p, p.decoded.value); }
  }

  lemma ShapedLength(c: Config, m: State, p: Packet, frame: seq<Sample>)
    requires c.Valid()
    ensures |Shaped(c, m, p, frame)| == |frame|
  {
    var s := SpeakerFor(m, p);
    assert Ramp(frame, c.fadeIn(frame), FADE_IN_LEN) && Ramp(frame, c.crossfade(0.0, frame), CROSSFADE_LEN);
    if s.prevLast.Some? {
      var last: Sample := s.prevLast.value;
      assert Ramp(frame, c.crossfade(last, frame), CROSSFADE_LEN);
    }
  }

  /** In every run, whatever the operations and speakers: each sample added to a speaker's
      buffer is still there, was played, or was thrown away. */
  lemma {:induction false} SamplesAreConserved(c: Config, m: State, session: nat, ops: seq<Op>)
    requires c.Valid()
    ensures var t := RunTally(c, m, session, ops);
            |BufferOf(Run(c, m, ops), session)| + t.dropped + t.played == |BufferOf(m, session)| + t.added
    decreases |ops|
  {
    if ops != [] {
      hide BufferOf, OpTally, Apply;
      SamplesKept(c, m, session, ops[0]);
      SamplesAreConserved(c, Apply(c, m, ops[0]), session, ops[1..]);
    }
  }

  /** The operation does not end the speaker's stream: it is no restart of it, no reset,
      and no removal. Other speakers' packets, resets and removals are free. */
  predicate Continues(m: State, session: nat, op: Op)
  {
    match op
    case FeedPacket(p) => p.session == session ==> !IsRestart(m, p)
    case Drain(_, _) => true
    case ResetSpeaker(s) => s != session
    case RemoveSpeaker(s) => s != session
    case RemoveInactive(now) => session in m.speakers ==> !Stale(m.speakers[session], now)
    case ResetAll => false
  }

  predicate ContinuesRun(c: Config, m: State, session: nat, ops: seq<Op>)
    decreases |ops|
  {
    ops == [] || (Continues(m, session, ops[0]) && ContinuesRun(c, Apply(c, m, ops[0]), session, ops[1..]))
  }

  predicate Expects(m: State, session: nat, units: nat) {
    session in m.speakers && m.speakers[session].expectedNext == Some(units)
  }

  /** Samples that stand for a number of sequence units. */
  function Samples(c: Config, units: int): (n: int) { units * 480 * c.channels }

  lemma SamplesAdd(c: Config, a: int, b: int)
    ensures Samples(c, a + b) == Samples(c, a) + Samples(c, b)
  {
  }

  /** The silence and frames added, plus the silence cut, less the frames' excess, account
      exactly for an advance of the expected sequence number, less the slack. */
  predicate Balances(c: Config, t: Tally, from: int, to: int) {
    t.added + t.cut - t.excess == Samples(c, to - from - t.slack)
  }

  lemma BalancesAdd(c: Config, t: Tally, u: Tally, from: int, mid: int, to: int)
    requires Balances(c, t, from, mid) && Balances(c, u, mid, to)
    ensures Balances(c, t.Plus(u), from, to)
  {
    SamplesAdd(c, mid - from - t.slack, to - mid - u.slack);
    assert to - from - t.Plus(u).slack == (mid - from - t.slack) + (to - mid - u.slack);
  }

  /** The sequence number expected after an operation that continues the stream. */
  function NextExpected(c: Config, session: nat, op: Op, e: nat): (n: nat) {
    if op.FeedPacket? && op.packet.session == session && op.packet.decoded.Some?
    then op.packet.sequence + FrameSeqUnits(|op.packet.decoded.value|, c.channels) else e
  }

  lemma StreamContinues(c: Config, m: State, session: nat, op: Op, e: nat)
    requires Continues(m, session, op) && Expects(m, session, e)
    ensures Expects(Apply(c, m, op), session, NextExpected(c, session, op, e))
  {
    hide FrameSeqUnits, Newest;
  }

  lemma TimeKept(c: Config, m: State, session: nat, op: Op, e: nat)
    requires Continues(m, session, op) && Expects(m, session, e)
    ensures var t := OpTally(c, m, session, op);
            Balances(c, t, e, NextExpected(c, session, op, e))
  {
    if op.FeedPacket? && op.packet.session == session {
      hide FrameSeqUnits, DetectCertainGap, SilenceRoom;
      var gap := Gap(m, op.packet);
      assert Requested(c, m, op.packet) == Samples(c, gap);
      if op.packet.decoded.Some? {
        var units := FrameSeqUnits(|op.packet.decoded.value|, c.channels);
        SamplesAdd(c, gap, units);
      }
    }
  }

  /** Over any run that continues a speaker's stream, with any other speakers' packets and
      operations in between, everything added accounts for the advance of the expected
      sequence number. */
  lemma {:induction false} TimeIsConserved(c: Config, m: State, session: nat, ops: seq<Op>, e: nat)
    requires ContinuesRun(c, m, session, ops) && Expects(m, session, e)
    ensures var last := Run(c, m, ops);
            && session in last.speakers && last.speakers[session].expectedNext.Some?
            && Balances(c, RunTally(c, m, session, ops), e, last.speakers[session].expectedNext.value)
    decreases |ops|
  {
    if ops != [] {
      hide Apply, OpTally, NextExpected, Continues, Balances;
      var n, next := Apply(c, m, ops[0]), NextExpected(c, session, ops[0], e);
      StreamContinues(c, m, session, ops[0], e);
      TimeKept(c, m, session, ops[0], e);
      TimeIsConserved(c, n, session, ops[1..], next);
      BalancesAdd(c, OpTally(c, m, session, ops[0]), RunTally(c, n, session, ops[1..]), e, next,
                  Run(c, n, ops[1..]).speakers[session].expectedNext.value);
    }
  }

  /** A packet of the speaker fits if its silence has room and its frame is whole units. */
  predicate Fits(c: Config, m: State, session: nat, op: Op) {
    op.FeedPacket? && op.packet.session == session ==>
      && |BufferOf(m, session)| + Requested(c, m, op.packet) <= MAX_SPEAKER_BUFFER_SAMPLES
      && (op.packet.decoded.Some? ==> Excess(c, |op.packet.decoded.value|) == 0)
  }

  predicate FitsRun(c: Config, m: State, session: nat, ops: seq<Op>)
    decreases |ops|
  {
    ops == [] || (Fits(c, m, session, ops[0]) && FitsRun(c, Apply(c, m, ops[0]), session, ops[1..]))
  }

  /** When everything fits nothing is cut and no frame is in excess, so exactly the samples
      added account for the time. */
  lemma {:induction false} NothingCutWhenItFits(c: Config, m: State, session: nat, ops: seq<Op>)
    requires FitsRun(c, m, session, ops)
    ensures RunTally(c, m, session, ops).cut == 0 && RunTally(c, m, session, ops).excess == 0
    decreases |ops|
  {
    hide Apply, OpTally, Fits, Run;
    if ops != [] {
      var next, rest := Apply(c, m, ops[0]), ops[1..];
      FitMeans(c, m, session, ops[0]);
      NothingCutWhenItFits(c, next, session, rest);
      assert RunTally(c, m, session, ops) == OpTally(c, m, session, ops[0]).Plus(RunTally(c, next, session, rest));
    }
  }

  lemma FitMeans(c: Config, m: State, session: nat, op: Op)
    requires Fits(c, m, session, op)
    ensures OpTally(c, m, session, op).cut == 0 && OpTally(c, m, session, op).excess == 0
  {
    hide IsRestart, Gap, Excess;
  }

  /** The same from the first packet of a stream on, be it the speaker's first or one after
      a restart or a reset: everything is accounted for by the final expected sequence
      number minus the first one. */
  lemma TimeFromFirstPacket(c: Config, m: State, first: Packet, ops: seq<Op>)
    requires HasDecoder(m, first) && first.decoded.Some? && SpeakerFor(m, first).expectedNext.None?
    requires ContinuesRun(c, Feed(c, m, first), first.session, ops)
    ensures var run := [FeedPacket(first)] + ops;
            var last := Run(c, m, run);
            && first.session in last.speakers && last.speakers[first.session].expectedNext.Some?
            && Balances(c, RunTally(c, m, first.session, run), first.sequence,
                        last.speakers[first.session].expectedNext.value)
  {
    hide Feed, FeedTally, Balances;
    var n, run := Feed(c, m, first), [FeedPacket(first)] + ops;
    var e := first.sequence + FrameSeqUnits(|first.decoded.value|, c.channels);
    FirstPacket(c, m, first);
    assert run[1..] == ops;
    TimeIsConserved(c, n, first.session, ops, e);
    BalancesAdd(c, FeedTally(c, m, first), RunTally(c, n, first.session, ops), first.sequence, e,
                Run(c, n, ops).speakers[first.session].expectedNext.value);
  }

  lemma FirstPacket(c: Config, m: State, first: Packet)
    requires HasDecoder(m, first) && first.decoded.Some? && SpeakerFor(m, first).expectedNext.None?
    ensures var e := first.sequence + FrameSeqUnits(|first.decoded.value|, c.channels);
            && Expects(Feed(c, m, first), first.session, e) && Balances(c, FeedTally(c, m, first), first.sequence, e)
  {
    hide FrameSeqUnits;
    assert Requested(c, m, first) == Samples(c, 0) == 0;
  }

  // -- The mixer object ---------------------------------------------------------------------------------

  class AudioMixer {
    const config: Config
    var speakers: map<nat, Speaker>
    var buffers: map<nat, seq<Sample>>

    ghost function View(): (m: State)
      reads this
    {
      State(speakers, buffers)
    }

    constructor (config: Config)
      ensures this.config == config && View() == State(map[], map[])
    {
      this.config := config;
      speakers, buffers := map[], map[];
    }

    method InsertSilence(session: nat, units: nat)
      modifies this`buffers
      ensures var requested := units * SAMPLES_PER_SEQ_UNIT * config.channels;
              var buf := BufferOf(old(View()), session);
              buffers == if requested == 0 then old(buffers)
                         else old(buffers)[session := buf + Silence(SilenceRoom(|buf|, requested))]
    {
      var requested := units * SAMPLES_PER_SEQ_UNIT * config.channels;
      if requested == 0 {
        return;
      }
      var buf := if session in buffers then buffers[session] else [];
      var remaining := if |buf| >= MAX_SPEAKER_BUFFER_SAMPLES then 0 else MAX_SPEAKER_BUFFER_SAMPLES - |buf|;
      var toInsert := if requested <= remaining then requested else remaining;
      buffers := buffers[session := buf + Silence(toInsert)];
    }

    method PushSamples(session: nat, samples: seq<Sample>)
      modifies this`buffers
      ensures buffers == old(buffers)[session := Newest(BufferOf(old(View()), session) + samples)]
    {
      var buf := if session in buffers then buffers[session] else [];
      buf := buf + samples;
      if |buf| > MAX_SPEAKER_BUFFER_SAMPLES {
        var excess := |buf| - MAX_SPEAKER_BUFFER_SAMPLES;
        buf := buf[excess..];
      }
      buffers := buffers[session := buf];
    }

    /** Drop a restarted stream's decoder, find or create the packet's, mark it active. */
    method Admit(p: Packet) returns (ok: bool)
      modifies this`speakers
      ensures ok <==> HasDecoder(old(View()), p)
      ensures speakers == if ok then old(speakers)[p.session := SpeakerFor(old(View()), p)]
                          else old(speakers) - {p.session}
    {
      if p.session in speakers && speakers[p.session].lastSeq.Some? {
        var prev := speakers[p.session].lastSeq.value;
        if prev > p.sequence && prev - p.sequence > 10 {
          speakers := speakers - {p.session};
        }
      }
      if p.session !in speakers {
        if !p.created {
          assert speakers == old(speakers) - {p.session};
          return false;
        }
        speakers := speakers[p.session := Speaker(None, None, None, true, p.now)];
      }
      speakers := speakers[p.session := speakers[p.session].(lastActivity := p.now)];
      ok := true;
    }

    /** Insert silence for a certain gap and record the packet's sequence number. */
    method FillGap(p: Packet, ghost m: State)
      requires View() == m.(speakers := m.speakers[p.session := SpeakerFor(m, p)])
      modifies this
      ensures View() == GapFilled(config, m, p)
    {
      hide SpeakerFor, DetectCertainGap, SilenceRoom, Silence;
      var units := DetectCertainGap(speakers[p.session].expectedNext, p.sequence);
      if units > 0 {
        InsertSilence(p.session, units);
      }
      var speaker := speakers[p.session].(lastSeq := Some(p.sequence));
      if units > 0 {
        speaker := speaker.(prevLast := Some(0.0));
      }
      speakers := speakers[p.session := speaker];
    }

    method FeedOne(p: Packet) returns (ok: bool)
      modifies this
      ensures View() == Feed(config, old(View()), p)
      ensures ok <==> HasDecoder(old(View()), p) && p.decoded.Some?
    {
      hide Newest, FrameSeqUnits, HasDecoder;
      ghost var m := View();
      ok := Admit(p);
      if !ok {
        return;
      }
      FillGap(p, m);
      if p.decoded.None? {
        return false;
      }
      var speaker, frame := speakers[p.session], p.decoded.value;
      speaker := speaker.(expectedNext := Some(p.sequence + FrameSeqUnits(|frame|, config.channels)));
      if speaker.needsFadeIn {
        frame := config.fadeIn(frame);
        speaker := speaker.(needsFadeIn := false);
      } else if speaker.prevLast.Some? {
        frame := config.crossfade(speaker.prevLast.value, frame);
      }
      speaker := speaker.(prevLast := None);
      speakers := speakers[p.session := speaker];
      assert frame == Shaped(config, m, p, p.decoded.value);
      PushSamples(p.session, frame);
    }

    method RemoveInactiveSpeakers(now: int)
      modifies this
      ensures View() == Apply(config, old(View()), RemoveInactive(now))
    {
      var before := speakers;
      speakers := map id | id in before && !Stale(before[id], now) :: before[id];
      var kept := map id | id in buffers && !(id in before && Stale(before[id], now)) :: buffers[id];
      buffers := map id | id in kept && (kept[id] != [] || id in speakers) :: kept[id];
    }
  }
}

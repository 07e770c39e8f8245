/** The nonces of the event loop's sessions, over whole runs: those queued for the reader and
    those datagrams are sealed under. */
module EventLoopNonces {
  import opened Bytes
  import opened EventLoop
  import Nonce = Ocb2Receiver
  import Crypt = Ocb2CryptState

  // -- Nonces pass through the channel in order ------------------------------------------

  /** The nonces queued for a reader and those it has applied. An applied nonce is the
      reader loop's `NonceMessage`. */
  datatype Nonces = Nonces(queued: seq<seq<Byte>>, applied: seq<seq<Byte>>)

  /** A change of transport starts both lists afresh. */
  function NoncesNext(n: Nonces, e: Effect): (r: Nonces) {
    match e
    case OnTransportChanged(_) => Nonces([], [])
    case NonceQueued(x) => n.(queued := n.queued + [x])
    case NonceApplied(x) => n.(applied := n.applied + [x])
    case _ => n
  }

  function NoncesAfter(n: Nonces, es: seq<Effect>): (r: Nonces)
    decreases |es|
  {
    if es == [] then n else NoncesAfter(NoncesNext(n, es[0]), es[1..])
  }

  lemma {:induction false} NoncesAppend(n: Nonces, a: seq<Effect>, b: seq<Effect>)
    ensures NoncesAfter(n, a + b) == NoncesAfter(NoncesAfter(n, a), b)
    decreases |a|
  {
    if a == [] {
      assert a + b == b;
    } else {
      assert (a + b)[1..] == a[1..] + b;
      NoncesAppend(NoncesNext(n, a[0]), a[1..], b);
    }
  }

  predicate Unrelated(es: seq<Effect>) {
    forall e :: e in es ==> !e.OnTransportChanged? && !e.NonceQueued? && !e.NonceApplied?
  }

  lemma {:induction false} NoncesUnrelated(n: Nonces, es: seq<Effect>)
    requires Unrelated(es)
    ensures NoncesAfter(n, es) == n
    decreases |es|
  {
    if es != [] { NoncesUnrelated(n, es[1..]); }
  }

  function Waiting(l: Loop): (ns: seq<seq<Byte>>) { if l.resync.Some? then l.resync.value else [] }

  /** What was queued for the running session is what was applied, then what still waits. */
  predicate InOrder(l: Loop, n: Nonces) { n.queued == n.applied + Waiting(l) }

  lemma OneEffect(n: Nonces, e: Effect)
    ensures NoncesAfter(n, [e]) == NoncesNext(n, e)
  {
    assert [e][1..] == [];
  }

  predicate KeepsOrder(o: Outcome, n: Nonces) { InOrder(o.loop, NoncesAfter(n, o.effects)) }

  lemma StartKeepsOrder(l: Loop, crypto: Crypto, net: Net, n: Nonces)
    requires InOrder(l, n)
    ensures KeepsOrder(StartUdp(l, crypto, net), n)
  {
    var before := [SessionStarted(crypto)] + SealOne(Up(l, crypto), net.sends).effects;
    NoncesUnrelated(n, before);
    NoncesAppend(n, before, [OnTransportChanged(true)]);
    OneEffect(n, OnTransportChanged(true));
  }

  lemma SetupKeepsOrder(l: Loop, m: Control, net: Net, n: Nonces)
    requires m.CryptSetup? && Consistent(l) && InOrder(l, n)
    ensures KeepsOrder(HandleCryptSetup(l, m, net), n)
  {
    hide StartUdp, NoncesAfter;
    NoncesUnrelated(n, []);
    OneEffect(n, OnTransportChanged(false));
    if m.serverNonce.Some? {
      OneEffect(n, NonceQueued(m.serverNonce.value));
      if m.key.Some? && m.clientNonce.Some? {
        var crypto := Crypto(m.key.value, m.clientNonce.value, m.serverNonce.value);
        StartKeepsOrder(l.(stored := Some(crypto)), crypto, net, n);
      }
    }
  }

  lemma ToggleKeepsOrder(l: Loop, force: bool, net: Net, n: Nonces)
    requires InOrder(l, n)
    ensures KeepsOrder(HandleForceTcp(l, force, net), n)
  {
    hide StartUdp, NoncesAfter;
    NoncesUnrelated(n, []);
    OneEffect(n, OnTransportChanged(false));
    if l.stored.Some? { StartKeepsOrder(l.(forceTcp := force), l.stored.value, net, n); }
  }

  lemma ControlKeepsOrder(l: Loop, m: Control, net: Net, n: Nonces)
    requires Consistent(l) && InOrder(l, n)
    ensures KeepsOrder(HandleControl(l, m, net), n)
  {
    hide HandleCryptSetup, NoncesAfter;
    var o := HandleControl(l, m, net);
    if m.CryptSetup? {
      var first := HandleCryptSetup(l, m, net);
      SetupKeepsOrder(l, m, net, n);
      NoncesAppend(n, first.effects, [OnControlMessage]);
      OneEffect(NoncesAfter(n, first.effects), OnControlMessage);
    } else {
      NoncesUnrelated(n, o.effects);
    }
  }

  lemma HandleKeepsOrder(l: Loop, w: Wake, n: Nonces)
    requires Consistent(l) && InOrder(l, n)
    ensures KeepsOrder(Handle(l, w), n)
  {
    hide HandleControl, HandleForceTcp, SendAudio, SendOutput, NoncesAfter, Consistent;
    match w {
      case ServerControl(m, net) => ControlKeepsOrder(l, m, net, n);
      case ForceTcp(force, net) => ToggleKeepsOrder(l, force, net, n);
      case ReaderTakesNonce =>
        NoncesUnrelated(n, []);
        if l.resync.Some? && l.resync.value != [] { OneEffect(n, NonceApplied(l.resync.value[0])); }
      case _ => NoncesUnrelated(n, Handle(l, w).effects);
    }
  }

  /** What a partial setup does: its nonce goes behind those waiting if there is a reader and
      fewer than four wait, and nothing else happens; the reader takes the oldest. */
  lemma NonceMoves(l: Loop, m: Control, net: Net)
    requires m.CryptSetup? && (m.key.None? || m.clientNonce.None?)
    ensures var o := HandleCryptSetup(l, m, net);
            if m.serverNonce.Some? && l.resync.Some? && |l.resync.value| < 4 then
              o == Outcome(l.(resync := Some(l.resync.value + [m.serverNonce.value])),
                           [NonceQueued(m.serverNonce.value)])
            else o == Outcome(l, [])
    ensures Waiting(l) != [] ==> Handle(l, ReaderTakesNonce).effects == [NonceApplied(Waiting(l)[0])]
  {
  }

  lemma {:induction false} RunKeepsOrder(l: Loop, ws: seq<Wake>, n: Nonces)
    requires Consistent(l) && InOrder(l, n)
    ensures InOrder(Run(l, ws).loop, NoncesAfter(n, Run(l, ws).effects))
    decreases |ws|
  {
    if ws != [] && l.running {
      hide Handle, InOrder;
      var first := Handle(l, ws[0]);
      HandleKeepsOrder(l, ws[0], n);
      HandleConsistent(l, ws[0]);
      RunKeepsOrder(first.loop, ws[1..], NoncesAfter(n, first.effects));
      NoncesAppend(n, first.effects, Run(first.loop, ws[1..]).effects);
    }
  }

  /** In every run from start-up, the nonces the running reader has applied are a prefix of
      those queued for it, in the order the server sent them, and the rest, at most four,
      are still waiting: none is lost once queued, repeated, reordered, or carried over
      into another session. */
  lemma AppliedArePrefix(force: bool, ws: seq<Wake>)
    ensures var o := Run(Initial(force), ws);
            var n := NoncesAfter(Nonces([], []), o.effects);
            && n.queued == n.applied + Waiting(o.loop) && |n.queued| <= |n.applied| + RESYNC_CHANNEL_CAPACITY
  {
    RunKeepsOrder(Initial(force), ws, Nonces([], []));
    StartsConsistent(force, ws);
  }

  // -- Which datagrams share a nonce --------------------------------------------------------

  /** A session by its number, with the datagrams sealed in it so far. */
  datatype Session = Session(number: nat, keys: Crypto, sealed: nat)

  const NO_SESSION := Session(0, Crypto([], [], []), 0)

  /** A sealed datagram with its session and its position there, counted from 1. */
  datatype Seal = Seal(session: nat, keys: Crypto, position: nat, key: seq<Byte>, nonce: nat)

  function SessionNext(s: Session, e: Effect): (r: Session) {
    match e
    case SessionStarted(keys) => Session(s.number + 1, keys, 0)
    case Datagram(_, _, _) => s.(sealed := s.sealed + 1)
    case _ => s
  }

  function SessionAfter(s: Session, es: seq<Effect>): (r: Session)
    decreases |es|
  {
    if es == [] then s else SessionAfter(SessionNext(s, es[0]), es[1..])
  }

  function SealOf(s: Session, e: Effect): (xs: seq<Seal>) {
    if e.Datagram? then [Seal(s.number, s.keys, s.sealed, e.key, e.sealedUnder)] else []
  }

  function Seals(s: Session, es: seq<Effect>): (xs: seq<Seal>)
    decreases |es|
  {
    if es == [] then []
    else SealOf(SessionNext(s, es[0]), es[0]) + Seals(SessionNext(s, es[0]), es[1..])
  }

  lemma {:induction false} SealsAppend(s: Session, a: seq<Effect>, b: seq<Effect>)
    ensures SessionAfter(s, a + b) == SessionAfter(SessionAfter(s, a), b)
    ensures Seals(s, a + b) == Seals(s, a) + Seals(SessionAfter(s, a), b)
    decreases |a|
  {
    if a == [] {
      assert a + b == b;
    } else {
      assert (a + b)[1..] == a[1..] + b;
      SealsAppend(SessionNext(s, a[0]), a[1..], b);
    }
  }

  predicate Quiet(es: seq<Effect>) { forall e :: e in es ==> !e.SessionStarted? && !e.Datagram? }

  lemma {:induction false} QuietSeals(s: Session, es: seq<Effect>)
    requires Quiet(es)
    ensures SessionAfter(s, es) == s && Seals(s, es) == []
    decreases |es|
  {
    if es != [] { QuietSeals(s, es[1..]); }
  }

  /** The session's key, and the nonce that its position gives. */
  predicate Genuine(x: Seal) {
    x.key == x.keys.key && x.nonce == Nonce.Sent(LittleEndian(x.keys.clientNonce), x.position)
  }

  predicate AllGenuine(xs: seq<Seal>) { forall i :: 0 <= i < |xs| ==> Genuine(xs[i]) }

  /** The sender's counter stands where the session's datagrams have taken it. */
  predicate Counts(l: Loop, s: Session) {
    l.sender.Some? ==>
      l.sender.value.keys == s.keys && l.sender.value.nonce == Nonce.Sent(LittleEndian(s.keys.clientNonce), s.sealed)
  }

  predicate KeepsCount(o: Outcome, s: Session) {
    Counts(o.loop, SessionAfter(s, o.effects)) && AllGenuine(Seals(s, o.effects))
  }

  /** Effects that seal nothing may come before and after. */
  lemma KeepsCountAround(l: Loop, s: Session, before: seq<Effect>, es: seq<Effect>, after: seq<Effect>)
    requires Quiet(before) && Quiet(after) && KeepsCount(Outcome(l, es), s)
    ensures KeepsCount(Outcome(l, before + es + after), s)
  {
    QuietSeals(s, before);
    SealsAppend(s, before, es);
    SealsAppend(s, before + es, after);
    QuietSeals(SessionAfter(s, es), after);
  }

  lemma QuietKeepsCount(o: Outcome, s: Session)
    requires Quiet(o.effects) && Counts(o.loop, s)
    ensures KeepsCount(o, s)
  {
    QuietSeals(s, o.effects);
  }

  lemma OneSeal(s: Session, e: Effect)
    ensures SessionAfter(s, [e]) == SessionNext(s, e) && Seals(s, [e]) == SealOf(SessionNext(s, e), e)
  {
    assert [e][1..] == [];
  }

  lemma SealKeepsCount(l: Loop, sends: bool, s: Session)
    requires l.sender.Some? && Counts(l, s)
    ensures KeepsCount(SealOne(l, sends), s)
  {
    hide Nonce.Sent, LittleEndian;
    OneSeal(s, SealOne(l, sends).effects[0]);
    Nonce.SentNext(LittleEndian(s.keys.clientNonce), s.sealed);
  }

  lemma StartKeepsCount(l: Loop, keys: Crypto, net: Net, s: Session)
    requires Counts(l, s)
    ensures KeepsCount(StartUdp(l, keys, net), s)
  {
    if !keys.Usable() || !net.connects {
      QuietKeepsCount(Outcome(l, []), s);
    } else {
      hide Counts, AllGenuine, SealOne;
      var started := Session(s.number + 1, keys, 0);
      var ping := SealOne(Up(l, keys), net.sends);
      UpCounts(l, keys, started);
      SealKeepsCount(Up(l, keys), net.sends, started);
      OneSeal(s, SessionStarted(keys));
      SealsAppend(s, [SessionStarted(keys)], ping.effects);
      KeepsCountAround(ping.loop, s, [], [SessionStarted(keys)] + ping.effects, [OnTransportChanged(true)]);
      assert [] + ([SessionStarted(keys)] + ping.effects) == [SessionStarted(keys)] + ping.effects;
    }
  }

  lemma UpCounts(l: Loop, keys: Crypto, s: Session)
    requires keys.Usable() && s.keys == keys && s.sealed == 0
    ensures Counts(Up(l, keys), s)
  {
    Crypt.NonceBytes(keys.clientNonce);
  }

  lemma AudioKeepsCount(l: Loop, m: Outgoing, s: Session)
    requires Counts(l, s)
    ensures KeepsCount(SendAudio(l, m), s)
  {
    hide KeepsCount, Counts, SealOne;
    var o := SendAudio(l, m);
    if m.NotVoice? || l.sender.None? {
      QuietKeepsCount(o, s);
    } else {
      var first, after := SealOne(l, m.udpWorks), if m.udpWorks then [] else [Tunnelled];
      SealKeepsCount(l, m.udpWorks, s);
      KeepsCountAround(first.loop, s, [], first.effects, after);
      assert [] + first.effects + after == o.effects;
    }
  }

  lemma {:induction false} OutputKeepsCount(l: Loop, ms: seq<Outgoing>, s: Session)
    requires Counts(l, s)
    ensures KeepsCount(SendOutput(l, ms), s)
  {
    if ms == [] {
      QuietKeepsCount(Outcome(l, []), s);
    } else {
      hide SendAudio, Counts, Genuine;
      var first := SendOutput(l, ms[..|ms| - 1]);
      OutputKeepsCount(l, ms[..|ms| - 1], s);
      var mid := SessionAfter(s, first.effects);
      AudioKeepsCount(first.loop, ms[|ms| - 1], mid);
      SealsAppend(s, first.effects, SendAudio(first.loop, ms[|ms| - 1]).effects);
    }
  }

  lemma SetupKeepsCount(l: Loop, m: Control, net: Net, s: Session)
    requires m.CryptSetup? && Counts(l, s)
    ensures KeepsCount(HandleCryptSetup(l, m, net), s)
  {
    hide StartUdp, KeepsCount;
    var o := HandleCryptSetup(l, m, net);
    if m.key.Some? && m.clientNonce.Some? && m.serverNonce.Some? && !l.forceTcp {
      var keys := Crypto(m.key.value, m.clientNonce.value, m.serverNonce.value);
      StartKeepsCount(l.(stored := Some(keys)), keys, net, s);
    } else {
      QuietKeepsCount(o, s);
    }
  }

  lemma ToggleKeepsCount(l: Loop, force: bool, net: Net, s: Session)
    requires Counts(l, s)
    ensures KeepsCount(HandleForceTcp(l, force, net), s)
  {
    hide StartUdp, KeepsCount;
    if force != l.forceTcp && !force && l.stored.Some? {
      StartKeepsCount(l.(forceTcp := force), l.stored.value, net, s);
    } else {
      QuietKeepsCount(HandleForceTcp(l, force, net), s);
    }
  }

  lemma ControlKeepsCount(l: Loop, m: Control, net: Net, s: Session)
    requires Counts(l, s)
    ensures KeepsCount(HandleControl(l, m, net), s)
  {
    hide HandleCryptSetup, SealOne, KeepsCount;
    var o := HandleControl(l, m, net);
    if m.CryptSetup? {
      var first := HandleCryptSetup(l, m, net);
      SetupKeepsCount(l, m, net, s);
      KeepsCountAround(first.loop, s, [], first.effects, [OnControlMessage]);
      assert [] + first.effects + [OnControlMessage] == o.effects;
    } else if m.Ping? && l.sender.Some? {
      var ping := SealOne(l, net.sends);
      SealKeepsCount(l, net.sends, s);
      KeepsCountAround(ping.loop, s, [OnPingStats, OnControlMessage], ping.effects, []);
      assert [OnPingStats, OnControlMessage] + ping.effects + [] == o.effects;
    } else {
      QuietKeepsCount(o, s);
    }
  }

  lemma HandleKeepsCount(l: Loop, w: Wake, s: Session)
    requires Counts(l, s)
    ensures KeepsCount(Handle(l, w), s)
  {
    hide HandleControl, HandleForceTcp, SendAudio, SendOutput;
    match w {
      case ServerControl(m, net) => ControlKeepsCount(l, m, net, s);
      case ForceTcp(force, net) => ToggleKeepsCount(l, force, net, s);
      case AudioOut(message) => AudioKeepsCount(l, message, s);
      case UserCommand(disconnect, messages) =>
        var o := SendOutput(l, messages);
        OutputKeepsCount(l, messages, s);
        SealsAppend(s, o.effects, [OnDisconnected]);
        QuietSeals(SessionAfter(s, o.effects), [OnDisconnected]);
      case _ => QuietKeepsCount(Handle(l, w), s);
    }
  }

  lemma {:induction false} RunKeepsCount(l: Loop, ws: seq<Wake>, s: Session)
    requires Counts(l, s)
    ensures KeepsCount(Run(l, ws), s)
    decreases |ws|
  {
    if ws != [] && l.running {
      hide Handle, Counts, Genuine;
      var first := Handle(l, ws[0]);
      HandleKeepsCount(l, ws[0], s);
      RunKeepsCount(first.loop, ws[1..], SessionAfter(s, first.effects));
      SealsAppend(s, first.effects, Run(first.loop, ws[1..]).effects);
    } else {
      QuietKeepsCount(Outcome(l, []), s);
    }
  }

  /** Positions count up within a session, and sessions one after the other. */
  predicate Later(s: Session, x: Seal) {
    s.number <= x.session && (s.number == x.session ==> s.keys == x.keys && s.sealed < x.position)
  }

  lemma {:induction false} SealsAreLater(s: Session, es: seq<Effect>, j: nat)
    requires j < |Seals(s, es)|
    ensures Later(s, Seals(s, es)[j])
    decreases |es|
  {
    var n := SessionNext(s, es[0]);
    var here := |SealOf(n, es[0])|;
    if j >= here { SealsAreLater(n, es[1..], j - here); }
  }

  lemma {:induction false} SealsInOrder(s: Session, es: seq<Effect>, i: nat, j: nat)
    requires i < j < |Seals(s, es)|
    ensures var x, y := Seals(s, es)[i], Seals(s, es)[j];
            x.session <= y.session && (x.session == y.session ==> x.keys == y.keys && x.position < y.position)
    decreases |es|
  {
    var n := SessionNext(s, es[0]);
    var here := |SealOf(n, es[0])|;
    if i >= here {
      SealsInOrder(n, es[1..], i - here, j - here);
    } else {
      SealsAreLater(n, es[1..], j - here);
    }
  }

  lemma SameResidue(a: nat, i: nat, j: nat)
    ensures Nonce.Sent(a, i) == Nonce.Sent(a, j) <==> i % Nonce.NONCES == j % Nonce.NONCES
  {
    var low, high := Min(i, j), if i <= j then j else i;
    Nonce.SentRepeatsIff(a, low, high);
    Nonce.SentRepeatsIff(0, low, high);
  }

  /** In every run from start-up, for any two datagrams: within a session positions count
      up, and key and nonce are shared exactly when the keys are equal and the client
      nonces plus the positions agree modulo 2^128; so for two sessions started from the
      same material, as after a force-TCP toggle, exactly when the positions do. */
  lemma NonceSharedIff(force: bool, ws: seq<Wake>, i: nat, j: nat)
    requires i < j < |Seals(NO_SESSION, Run(Initial(force), ws).effects)|
    ensures var xs := Seals(NO_SESSION, Run(Initial(force), ws).effects);
            var x, y := xs[i], xs[j];
            var shared := x.key == y.key && x.nonce == y.nonce;
            && x.session <= y.session
            && (x.session == y.session ==> x.keys == y.keys && x.position < y.position)
            && (shared <==>
                  && x.keys.key == y.keys.key
                  && (LittleEndian(x.keys.clientNonce) + x.position) % Nonce.NONCES ==
                     (LittleEndian(y.keys.clientNonce) + y.position) % Nonce.NONCES)
            && (x.keys == y.keys ==> (shared <==> x.position % Nonce.NONCES == y.position % Nonce.NONCES))
  {
    hide Run, Seals, LittleEndian;
    var es := Run(Initial(force), ws).effects;
    RunKeepsCount(Initial(force), ws, NO_SESSION);
    SealsInOrder(NO_SESSION, es, i, j);
    var x, y := Seals(NO_SESSION, es)[i], Seals(NO_SESSION, es)[j];
    assert Genuine(x) && Genuine(y);
    SameResidue(LittleEndian(x.keys.clientNonce), x.position, y.position);
  }
}

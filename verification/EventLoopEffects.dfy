/** What the handler and the network see of the event loop, over whole runs. */
module EventLoopEffects {
  import opened Bytes
  import opened EventLoop

  // -- Every message has its effect ---------------------------------------------------------

  /** The things that happen. */
  datatype Kind =
    Connected | Heard | Voiced | Measured | Notified | Started | Sealed | Sent | Tunnelling | Queued | Applied

  predicate Is(k: Kind, e: Effect) {
    match k
    case Connected => e.OnConnected?
    case Heard => e.OnControlMessage?
    case Voiced => e.OnUdpMessage?
    case Measured => e.OnPingStats?
    case Notified => e.OnTransportChanged?
    case Started => e.SessionStarted?
    case Sealed => e.Datagram?
    case Sent => e.Datagram? && e.sent
    case Tunnelling => e.Tunnelled?
    case Queued => e.NonceQueued?
    case Applied => e.NonceApplied?
  }

  function One(b: bool): (n: nat) { if b then 1 else 0 }

  /** How often a thing happened. */
  function Seen(k: Kind, es: seq<Effect>): (n: nat) {
    if es == [] then 0 else One(Is(k, es[0])) + Seen(k, es[1..])
  }

  lemma {:induction false} SeenAppend(k: Kind, a: seq<Effect>, b: seq<Effect>)
    ensures Seen(k, a + b) == Seen(k, a) + Seen(k, b)
  {
    hide Is;
    if a == [] {
      assert a + b == b;
    } else {
      SeenAppend(k, a[1..], b);
      assert (a + b)[1..] == a[1..] + b;
    }
  }

  lemma SeenOne(k: Kind, e: Effect)
    ensures Seen(k, []) == 0 && Seen(k, [e]) == One(Is(k, e))
  {
    hide Is;
    assert [e][1..] == [];
  }

  lemma SeenTwo(k: Kind, d: Effect, e: Effect)
    ensures Seen(k, [d, e]) == One(Is(k, d)) + One(Is(k, e))
  {
    hide Is;
    assert [d, e][1..] == [e];
    SeenOne(k, e);
  }

  /** Audio messages of a list, those that a UDP send fails for, or those it works for. */
  function Voices(ms: seq<Outgoing>, works: bool): (n: nat) {
    if ms == [] then 0
    else (if ms[0].Voice? && ms[0].udpWorks == works then 1 else 0) + Voices(ms[1..], works)
  }

  function Outbound(w: Wake): (ms: seq<Outgoing>) {
    match w
    case UserCommand(_, messages) => messages
    case AudioOut(message) => [message]
    case _ => []
  }

  /** A UDP session starts: on a full crypt setup unless TCP is forced, or when the toggle
      is released and there is stored material; the keys must have 16 bytes each and the
      socket must connect. */
  predicate Starts(l: Loop, w: Wake) {
    match w
    case ServerControl(CryptSetup(Some(k), Some(c), Some(s)), net) =>
      !l.forceTcp && |k| == 16 && |c| == 16 && |s| == 16 && net.connects
    case ForceTcp(force, net) =>
      l.forceTcp && !force && net.connects && l.stored.Some?
      && |l.stored.value.key| == 16 && |l.stored.value.clientNonce| == 16 && |l.stored.value.serverNonce| == 16
    case _ => false
  }

  /** Audio goes by TCP from here on: the toggle is set, or a full setup comes while it is. */
  predicate Forces(l: Loop, w: Wake) {
    match w
    case ServerControl(CryptSetup(Some(_), Some(_), Some(_)), _) => l.forceTcp
    case ForceTcp(force, _) => force && !l.forceTcp
    case _ => false
  }

  /** A nonce is queued: a partial setup brings one, there is a reader, and fewer than four
      are waiting. */
  predicate Queues(l: Loop, w: Wake) {
    match w
    case ServerControl(CryptSetup(k, c, Some(_)), _) =>
      (k.None? || c.None?) && l.resync.Some? && |l.resync.value| < 4
    case _ => false
  }

  /** A ping is due at the start of a session and as the answer to one while there is a
      session. */
  predicate Pings(l: Loop, w: Wake) {
    Starts(l, w) || (w.ServerControl? && w.msg.Ping? && l.sender.Some?)
  }

  /** How often a wake-up has to lead to a thing. */
  function Due(k: Kind, l: Loop, w: Wake): (n: nat)
  {
    var up, good, bad := l.sender.Some?, Voices(Outbound(w), true), Voices(Outbound(w), false);
    match k
    case Connected => One(w.ServerControl? && w.msg.ServerSync?)
    case Heard => One(w.ServerControl? && !w.msg.UdpTunnel?)
    case Voiced => One(w.ServerUdp? || (w.ServerControl? && w.msg.UdpTunnel? && w.msg.decodes))
    case Measured => One(w.ServerControl? && w.msg.Ping?)
    case Notified => One(Starts(l, w) || Forces(l, w))
    case Started => One(Starts(l, w))
    case Sealed => One(Pings(l, w)) + if up then good + bad else 0
    case Sent => One(Pings(l, w) && w.net.sends) + if up then good else 0
    case Tunnelling => bad + if up then 0 else good
    case Queued => One(Queues(l, w))
    case Applied => One(w.ReaderTakesNonce? && l.resync.Some? && l.resync.value != [])
  }

  function DueIn(k: Kind, l: Loop, ws: seq<Wake>): (n: nat)
    decreases |ws|
  {
    if ws == [] || !l.running then 0 else Due(k, l, ws[0]) + DueIn(k, Handle(l, ws[0]).loop, ws[1..])
  }

  lemma {:induction false} VoicesAppend(ms: seq<Outgoing>, m: Outgoing, works: bool)
    ensures Voices(ms + [m], works) == Voices(ms, works) + Voices([m], works)
  {
    if ms == [] {
      assert ms + [m] == [m];
    } else {
      VoicesAppend(ms[1..], m, works);
      assert (ms + [m])[1..] == ms[1..] + [m];
    }
  }

  lemma SealSeen(k: Kind, l: Loop, sends: bool)
    requires l.sender.Some?
    ensures Seen(k, SealOne(l, sends).effects) == One(k.Sealed? || (k.Sent? && sends))
    ensures SealOne(l, sends).loop.sender.Some?
  {
    SeenOne(k, SealOne(l, sends).effects[0]);
  }

  /** What sending a list of messages has to lead to. */
  function Spoken(k: Kind, up: bool, ms: seq<Outgoing>): (n: nat) {
    var good, bad := Voices(ms, true), Voices(ms, false);
    match k
    case Sealed => if up then good + bad else 0
    case Sent => if up then good else 0
    case Tunnelling => bad + if up then 0 else good
    case _ => 0
  }

  lemma OneVoice(m: Outgoing, works: bool)
    ensures Voices([m], works) == One(m.Voice? && m.udpWorks == works)
  {
    assert [m][1..] == [];
  }

  lemma SpokenAppend(k: Kind, up: bool, ms: seq<Outgoing>, m: Outgoing)
    ensures Spoken(k, up, ms + [m]) == Spoken(k, up, ms) + Spoken(k, up, [m])
  {
    hide Voices;
    VoicesAppend(ms, m, true);
    VoicesAppend(ms, m, false);
  }

  lemma AudioSeen(k: Kind, l: Loop, m: Outgoing)
    ensures Seen(k, SendAudio(l, m).effects) == Spoken(k, l.sender.Some?, [m])
  {
    hide SealOne, Seen, Voices;
    OneVoice(m, true);
    OneVoice(m, false);
    SeenOne(k, Tunnelled);
    if m.Voice? && l.sender.Some? {
      SealSeen(k, l, m.udpWorks);
      SeenAppend(k, SealOne(l, m.udpWorks).effects, if m.udpWorks then [] else [Tunnelled]);
    }
  }

  lemma {:induction false} OutputSeen(k: Kind, l: Loop, ms: seq<Outgoing>)
    ensures Seen(k, SendOutput(l, ms).effects) == Spoken(k, l.sender.Some?, ms)
  {
    if ms == [] {
      SeenOne(k, Tunnelled);
    } else {
      hide SendAudio, Spoken, Seen;
      var n, m := |ms| - 1, ms[|ms| - 1];
      var first := SendOutput(l, ms[..n]);
      OutputSeen(k, l, ms[..n]);
      AudioSeen(k, first.loop, m);
      SeenAppend(k, first.effects, SendAudio(first.loop, m).effects);
      assert ms == ms[..n] + [m];
      SpokenAppend(k, l.sender.Some?, ms[..n], m);
    }
  }

  /** The things a session's start shows. */
  predicate StartShows(k: Kind, net: Net) { k.Notified? || k.Started? || k.Sealed? || (k.Sent? && net.sends) }

  lemma StartSeen(k: Kind, l: Loop, keys: Crypto, net: Net)
    ensures Seen(k, StartUdp(l, keys, net).effects) ==
            One(keys.Usable() && net.connects && StartShows(k, net))
  {
    hide SealOne, Seen;
    SeenOne(k, SessionStarted(keys));
    if keys.Usable() && net.connects {
      var ping := SealOne(Up(l, keys), net.sends);
      SealSeen(k, Up(l, keys), net.sends);
      SeenOne(k, OnTransportChanged(true));
      SeenAppend(k, [SessionStarted(keys)], ping.effects);
      SeenAppend(k, [SessionStarted(keys)] + ping.effects, [OnTransportChanged(true)]);
    }
  }

  lemma SetupSeen(k: Kind, l: Loop, m: Control, net: Net)
    requires m.CryptSetup?
    ensures Seen(k, HandleCryptSetup(l, m, net).effects) ==
            One(Starts(l, ServerControl(m, net)) && StartShows(k, net))
            + One(k.Notified? && Forces(l, ServerControl(m, net))) + One(k.Queued? && Queues(l, ServerControl(m, net)))
  {
    hide StartUdp, Seen;
    SeenOne(k, OnTransportChanged(false));
    if m.serverNonce.Some? {
      SeenOne(k, NonceQueued(m.serverNonce.value));
      if m.key.Some? && m.clientNonce.Some? {
        var keys := Crypto(m.key.value, m.clientNonce.value, m.serverNonce.value);
        StartSeen(k, l.(stored := Some(keys)), keys, net);
      }
    }
  }

  lemma ToggleSeen(k: Kind, l: Loop, force: bool, net: Net)
    ensures Seen(k, HandleForceTcp(l, force, net).effects) ==
            One(Starts(l, ForceTcp(force, net)) && StartShows(k, net))
            + One(k.Notified? && Forces(l, ForceTcp(force, net)))
  {
    hide StartUdp, Seen;
    SeenOne(k, OnTransportChanged(false));
    if l.stored.Some? { StartSeen(k, l.(forceTcp := force), l.stored.value, net); }
  }

  lemma ControlSeen(k: Kind, l: Loop, m: Control, net: Net)
    ensures Seen(k, HandleControl(l, m, net).effects) == Due(k, l, ServerControl(m, net))
  {
    hide HandleCryptSetup, SealOne, Seen;
    SeenOne(k, OnControlMessage);
    SeenOne(k, OnUdpMessage);
    SeenTwo(k, OnPingStats, OnControlMessage);
    SeenTwo(k, OnConnected, OnControlMessage);
    SeenTwo(k, OnControlMessage, OnDisconnected);
    if m.CryptSetup? {
      SetupSeen(k, l, m, net);
      SeenAppend(k, HandleCryptSetup(l, m, net).effects, [OnControlMessage]);
    } else if m.Ping? {
      if l.sender.Some? { SealSeen(k, l, net.sends); }
      SeenAppend(k, [OnPingStats, OnControlMessage], if l.sender.Some? then SealOne(l, net.sends).effects else []);
    }
  }

  lemma NoSession(l: Loop, w: Wake)
    requires !w.ServerControl? && !w.ForceTcp?
    ensures !Starts(l, w) && !Forces(l, w) && !Queues(l, w)
  {
  }

  lemma NoQueue(l: Loop, w: Wake)
    requires w.ForceTcp?
    ensures !Queues(l, w) && !(Starts(l, w) && Forces(l, w))
  {
  }

  lemma HandleSeen(k: Kind, l: Loop, w: Wake)
    ensures Seen(k, Handle(l, w).effects) == Due(k, l, w)
  {
    hide HandleControl, HandleForceTcp, SendAudio, SendOutput, Seen, Starts, Forces, Queues;
    SeenOne(k, OnDisconnected);
    if !w.ServerControl? && !w.ForceTcp? { NoSession(l, w); }
    if w.ForceTcp? { NoQueue(l, w); }
    match w {
      case ServerControl(m, net) => ControlSeen(k, l, m, net);
      case ServerUdp => SeenOne(k, OnUdpMessage);
      case UserCommand(disconnect, messages) =>
        OutputSeen(k, l, messages);
        SeenAppend(k, SendOutput(l, messages).effects, [OnDisconnected]);
      case AudioOut(message) => AudioSeen(k, l, message);
      case ForceTcp(force, net) => ToggleSeen(k, l, force, net);
      case ReaderTakesNonce =>
        if l.resync.Some? && l.resync.value != [] { SeenOne(k, NonceApplied(l.resync.value[0])); }
      case _ =>
    }
  }

  /** In every run each thing happens exactly as often as the wake-ups call for: the handler
      hears of every control message, session sync, ping and audio packet once; each audio
      message is sealed once while there is a session, and tunnelled once if there is none
      or its send fails; a ping is sealed per session start and per answer. */
  lemma {:induction false} EffectsAreDue(k: Kind, l: Loop, ws: seq<Wake>)
    ensures Seen(k, Run(l, ws).effects) == DueIn(k, l, ws)
    decreases |ws|
  {
    if ws != [] && l.running {
      hide Handle, Due, Seen;
      var first := Handle(l, ws[0]);
      HandleSeen(k, l, ws[0]);
      EffectsAreDue(k, first.loop, ws[1..]);
      SeenAppend(k, first.effects, Run(first.loop, ws[1..]).effects);
    }
  }

  /** Audio messages of the wake-ups that are handled before the run ends. */
  function Speech(ws: seq<Wake>): (n: nat) {
    if ws == [] then 0
    else
      Voices(Outbound(ws[0]), true) + Voices(Outbound(ws[0]), false) + (if Ends(ws[0]) then 0 else Speech(ws[1..]))
  }

  lemma ForcedStep(l: Loop, w: Wake)
    requires Consistent(l) && l.forceTcp && (w.ForceTcp? ==> w.force)
    ensures Due(Tunnelling, l, w) == Voices(Outbound(w), true) + Voices(Outbound(w), false)
    ensures Handle(l, w).loop.forceTcp
  {
    hide Voices;
    HandleIsTold(l, w);
    assert [w][1..] == [];
  }

  lemma {:induction false} ForcedDue(l: Loop, ws: seq<Wake>)
    requires Consistent(l) && l.forceTcp && l.running
    requires forall i :: 0 <= i < |ws| && ws[i].ForceTcp? ==> ws[i].force
    ensures DueIn(Tunnelling, l, ws) == Speech(ws)
    decreases |ws|
  {
    if ws != [] {
      hide Handle, Voices, Due, Consistent, Ends;
      var n := Handle(l, ws[0]).loop;
      HandleConsistent(l, ws[0]);
      ForcedStep(l, ws[0]);
      StepEnds(l, ws[0]);
      if n.running { ForcedDue(n, ws[1..]); }
    }
  }

  /** While TCP is forced every audio message goes through the tunnel exactly once. */
  lemma ForcedRunTunnels(l: Loop, ws: seq<Wake>)
    requires Consistent(l) && l.forceTcp && l.running
    requires forall i :: 0 <= i < |ws| && ws[i].ForceTcp? ==> ws[i].force
    ensures Seen(Tunnelling, Run(l, ws).effects) == Speech(ws)
  {
    EffectsAreDue(Tunnelling, l, ws);
    ForcedDue(l, ws);
  }

  lemma StepEnds(l: Loop, w: Wake)
    requires l.running
    ensures Handle(l, w).loop.running <==> !Ends(w)
  {
    RunsUntilEnd(l, [w]);
    assert [w][1..] == [];
  }

  // -- What the handler is told about the transport ---------------------------------------

  function LastTransport(es: seq<Effect>, before: bool): (udp: bool) {
    if es == [] then before
    else LastTransport(es[1..], if es[0].OnTransportChanged? then es[0].udp else before)
  }

  lemma {:induction false} LastTransportAppend(a: seq<Effect>, b: seq<Effect>, before: bool)
    ensures LastTransport(a + b, before) == LastTransport(b, LastTransport(a, before))
  {
    if a == [] {
      assert a + b == b;
    } else {
      LastTransportAppend(a[1..], b, if a[0].OnTransportChanged? then a[0].udp else before);
      assert (a + b)[1..] == a[1..] + b;
    }
  }

  predicate NoTransport(es: seq<Effect>) { forall e :: e in es ==> !e.OnTransportChanged? }

  lemma {:induction false} NoTransportKeeps(es: seq<Effect>, before: bool)
    requires NoTransport(es)
    ensures LastTransport(es, before) == before
  {
    if es != [] { NoTransportKeeps(es[1..], before); }
  }

  predicate ToldRight(l: Loop, o: Outcome) { LastTransport(o.effects, l.sender.Some?) == o.loop.sender.Some? }

  lemma StartToldRight(l: Loop, keys: Crypto, net: Net)
    ensures ToldRight(l, StartUdp(l, keys, net))
  {
    OneTransport(l.sender.Some?, true);
    if keys.Usable() && net.connects {
      var before := [SessionStarted(keys)] + SealOne(Up(l, keys), net.sends).effects;
      LastTransportAppend(before, [OnTransportChanged(true)], l.sender.Some?);
      OneTransport(LastTransport(before, l.sender.Some?), true);
    }
  }

  lemma OneTransport(before: bool, udp: bool)
    ensures LastTransport([], before) == before && LastTransport([OnTransportChanged(udp)], before) == udp
  {
    assert [OnTransportChanged(udp)][1..] == [];
  }

  lemma SetupToldRight(l: Loop, m: Control, net: Net)
    requires Consistent(l) && m.CryptSetup?
    ensures ToldRight(l, HandleCryptSetup(l, m, net))
  {
    hide StartUdp, LastTransport;
    OneTransport(l.sender.Some?, false);
    if m.serverNonce.Some? { NoTransportKeeps([NonceQueued(m.serverNonce.value)], l.sender.Some?); }
    if m.key.Some? && m.clientNonce.Some? && m.serverNonce.Some? {
      var keys := Crypto(m.key.value, m.clientNonce.value, m.serverNonce.value);
      StartToldRight(l.(stored := Some(keys)), keys, net);
    }
  }

  lemma HandleToldRight(l: Loop, w: Wake)
    requires Consistent(l)
    ensures ToldRight(l, Handle(l, w))
  {
    hide HandleCryptSetup, StartUdp, SendAudio, SendOutput, LastTransport;
    var up := l.sender.Some?;
    if w.ServerControl? && w.msg.CryptSetup? {
      var o := HandleCryptSetup(l, w.msg, w.net);
      SetupToldRight(l, w.msg, w.net);
      LastTransportAppend(o.effects, [OnControlMessage], up);
      NoTransportKeeps([OnControlMessage], LastTransport(o.effects, up));
    } else if w.ForceTcp? {
      ForceToldRight(l, w.force, w.net);
    } else {
      NoTransportKeeps(Handle(l, w).effects, up);
    }
  }

  lemma ForceToldRight(l: Loop, force: bool, net: Net)
    requires Consistent(l)
    ensures ToldRight(l, HandleForceTcp(l, force, net))
  {
    hide StartUdp, LastTransport;
    OneTransport(l.sender.Some?, false);
    if l.stored.Some? { StartToldRight(l.(forceTcp := force), l.stored.value, net); }
  }

  lemma {:induction false} RunToldRight(l: Loop, ws: seq<Wake>)
    requires Consistent(l)
    ensures ToldRight(l, Run(l, ws))
    decreases |ws|
  {
    if ws != [] && l.running {
      hide Handle, Consistent;
      var first := Handle(l, ws[0]);
      HandleToldRight(l, ws[0]);
      HandleConsistent(l, ws[0]);
      RunToldRight(first.loop, ws[1..]);
      LastTransportAppend(first.effects, Run(first.loop, ws[1..]).effects, l.sender.Some?);
    }
  }

  /** In every run from start-up the last transport the handler was told of, TCP before the
      first, is the one that audio goes by. */
  lemma TransportIsAsTold(force: bool, ws: seq<Wake>)
    ensures var o := Run(Initial(force), ws);
            LastTransport(o.effects, false) <==> o.loop.sender.Some?
  {
    RunToldRight(Initial(force), ws);
  }

  // -- Disconnection --------------------------------------------------------------------

  function Disconnections(es: seq<Effect>): (n: nat) {
    if es == [] then 0 else (if es[0] == OnDisconnected then 1 else 0) + Disconnections(es[1..])
  }

  lemma {:induction false} DisconnectionsAppend(a: seq<Effect>, b: seq<Effect>)
    ensures Disconnections(a + b) == Disconnections(a) + Disconnections(b)
  {
    if a == [] {
      assert a + b == b;
    } else {
      DisconnectionsAppend(a[1..], b);
      assert (a + b)[1..] == a[1..] + b;
    }
  }

  lemma {:induction false} NoDisconnections(es: seq<Effect>)
    requires OnDisconnected !in es
    ensures Disconnections(es) == 0
  {
    if es != [] { NoDisconnections(es[1..]); }
  }

  /** The effects of one wake-up, less a final disconnection. */
  function Before(o: Outcome): (es: seq<Effect>) {
    if o.loop.running || o.effects == [] then o.effects else o.effects[..|o.effects| - 1]
  }

  /** The handler is told of the end by the last effect, and only if there is one. */
  predicate EndsTold(o: Outcome) {
    && OnDisconnected !in Before(o)
    && o.effects == Before(o) + (if o.loop.running then [] else [OnDisconnected])
  }

  lemma ControlDisconnects(l: Loop, m: Control, net: Net)
    requires l.running
    ensures EndsTold(HandleControl(l, m, net))
  {
    hide HandleCryptSetup;
    if m.CryptSetup? { SetupRunsOn(l, ServerControl(m, net)); }
    if m.Reject? { assert HandleControl(l, m, net).effects == [OnControlMessage] + [OnDisconnected]; }
  }

  lemma ToggleDisconnects(l: Loop, force: bool, net: Net)
    requires l.running
    ensures EndsTold(HandleForceTcp(l, force, net))
  {
  }

  lemma HandleDisconnects(l: Loop, w: Wake)
    requires l.running
    ensures EndsTold(Handle(l, w))
  {
    hide HandleControl, HandleForceTcp, SendAudio, SendOutput;
    match w {
      case ServerControl(m, net) => ControlDisconnects(l, m, net);
      case ForceTcp(force, net) => ToggleDisconnects(l, force, net);
      case UserCommand(disconnect, messages) =>
        var sent := SendOutput(l, messages).effects;
        assert (sent + [OnDisconnected])[..|sent|] == sent;
      case _ =>
    }
  }

  /** A run that ends tells the handler so exactly once, as its very last effect;
      a run that has not ended has not told it. */
  lemma {:induction false} DisconnectsOnceAndLast(l: Loop, ws: seq<Wake>)
    requires l.running
    ensures var o := Run(l, ws);
            && Disconnections(o.effects) == (if o.loop.running then 0 else 1)
            && (!o.loop.running ==> o.effects != [] && o.effects[|o.effects| - 1] == OnDisconnected)
    decreases |ws|
  {
    if ws != [] {
      var first := Handle(l, ws[0]);
      var rest := Run(first.loop, ws[1..]);
      HandleDisconnects(l, ws[0]);
      DisconnectionsAppend(first.effects, rest.effects);
      if first.loop.running {
        NoDisconnections(first.effects);
        DisconnectsOnceAndLast(first.loop, ws[1..]);
      } else {
        NoDisconnections(Before(first));
        DisconnectionsAppend(Before(first), [OnDisconnected]);
      }
    }
  }
}

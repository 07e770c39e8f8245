/** The client event loop: UDP life cycle, force-TCP toggle, codec switching, shutdown. */
module EventLoop {
  import opened Bytes
  import Nonce = Ocb2Receiver
  import Fancy = FancyCodec

  /** Key material of a full crypt setup. */
  datatype Crypto = Crypto(key: seq<Byte>, clientNonce: seq<Byte>, serverNonce: seq<Byte>)
  {
    predicate Usable() { |key| == |clientNonce| == |serverNonce| == 16 }
  }

  /** The encrypting side of a session: its keys and the nonce last used. */
  datatype Sender = Sender(keys: Crypto, nonce: nat)

  /** A control message as the codec decoded it. */
  datatype Control =
    | CryptSetup(key: Option<seq<Byte>>, clientNonce: Option<seq<Byte>>, serverNonce: Option<seq<Byte>>)
    | Version(fancy: Option<nat>)
    | Ping
    | Reject
    | ServerSync
    | UdpTunnel(decodes: bool)
    | OtherControl

  /** An outgoing UDP message; for audio, whether a UDP send of it would work. */
  datatype Outgoing = Voice(udpWorks: bool) | NotVoice

  /** Whether a new socket connects, and whether a ping can be sent on it. */
  datatype Net = Net(connects: bool, sends: bool)

  /** What wakes the loop, with the environment's answers where it asks for any. The UDP
      reader taking a nonce out of the resync channel is a step of the same system. */
  datatype Wake =
    | ServerControl(msg: Control, net: Net)
    | ServerUdp
    | UserCommand(disconnect: bool, messages: seq<Outgoing>)
    | AudioOut(message: Outgoing)
    | ForceTcp(force: bool, net: Net)
    | ReaderTakesNonce
    | QueueClosed
    | TcpReaderEnded

  /** Observable effects, in order. A datagram is sealed under a key and a nonce whether or
      not the socket then takes it. */
  datatype Effect =
    | OnDisconnected
    | OnConnected
    | OnControlMessage
    | OnUdpMessage
    | OnPingStats
    | OnTransportChanged(udp: bool)
    | SessionStarted(keys: Crypto)
    | Datagram(key: seq<Byte>, sealedUnder: nat, sent: bool)
    | Tunnelled
    | NonceQueued(nonce: seq<Byte>)
    | NonceApplied(nonce: seq<Byte>)

  const RESYNC_CHANNEL_CAPACITY := 4

  datatype Loop = Loop(
    codec: Fancy.Codec,
    fancyVersion: Option<nat>,
    sender: Option<Sender>,
    reader: Option<Crypto>,
    resync: Option<seq<seq<Byte>>>,
    stored: Option<Crypto>,
    forceTcp: bool,
    running: bool)

  datatype Outcome = Outcome(loop: Loop, effects: seq<Effect>)

  function Initial(force: bool): (l: Loop) {
    Loop(Fancy.Legacy, None, None, None, None, None, force, true)
  }

  // -- Steps ---------------------------------------------------------------------

  /** Encrypting counts the nonce up; the send may fail all the same. */
  function SealOne(l: Loop, sends: bool): (o: Outcome)
    requires l.sender.Some?
  {
    var nonce := (l.sender.value.nonce + 1) % Nonce.NONCES;
    Outcome(l.(sender := Some(l.sender.value.(nonce := nonce))), [Datagram(l.sender.value.keys.key, nonce, sends)])
  }

  function Up(l: Loop, keys: Crypto): (r: Loop) {
    l.(sender := Some(Sender(keys, LittleEndian(keys.clientNonce))), reader := Some(keys), resync := Some([]))
  }

  function StartUdp(l: Loop, keys: Crypto, net: Net): (o: Outcome)
  {
    if !keys.Usable() || !net.connects then Outcome(l, [])
    else
      var ping := SealOne(Up(l, keys), net.sends);
      Outcome(ping.loop, [SessionStarted(keys)] + ping.effects + [OnTransportChanged(true)])
  }

  function HandleCryptSetup(l: Loop, m: Control, net: Net): (o: Outcome)
    requires m.CryptSetup?
  {
    if m.key.Some? && m.clientNonce.Some? && m.serverNonce.Some? then
      var crypto := Crypto(m.key.value, m.clientNonce.value, m.serverNonce.value);
      var stored := l.(stored := Some(crypto));
      if l.forceTcp then Outcome(stored, [OnTransportChanged(false)])
      else StartUdp(stored, crypto, net)
    else if m.serverNonce.Some? && l.resync.Some? && |l.resync.value| < RESYNC_CHANNEL_CAPACITY then
      Outcome(l.(resync := Some(l.resync.value + [m.serverNonce.value])), [NonceQueued(m.serverNonce.value)])
    else Outcome(l, [])
  }

  function HandleForceTcp(l: Loop, force: bool, net: Net): (o: Outcome)
  {
    if force == l.forceTcp then Outcome(l, [])
    else
      var toggled := l.(forceTcp := force);
      if force then
        Outcome(toggled.(sender := None, reader := None, resync := None), [OnTransportChanged(false)])
      else if l.stored.Some? then StartUdp(toggled, l.stored.value, net)
      else Outcome(toggled, [])
  }

  /** One audio packet: UDP when there is a sender and it works, otherwise the tunnel.
      Other messages are passed over. */
  function SendAudio(l: Loop, m: Outgoing): (o: Outcome)
    ensures o.loop == l.(sender := o.loop.sender) && SameKeys(l, o.loop)
    ensures forall e :: e in o.effects ==> e.Tunnelled? || (e.Datagram? && l.sender.Some?)
  {
    if m.NotVoice? then Outcome(l, [])
    else if l.sender.None? then Outcome(l, [Tunnelled])
    else
      var o := SealOne(l, m.udpWorks);
      Outcome(o.loop, o.effects + (if m.udpWorks then [] else [Tunnelled]))
  }

  function SendOutput(l: Loop, ms: seq<Outgoing>): (o: Outcome)
    ensures o.loop == l.(sender := o.loop.sender) && SameKeys(l, o.loop)
    ensures forall e :: e in o.effects ==> e.Tunnelled? || (e.Datagram? && l.sender.Some?)
  {
    if ms == [] then Outcome(l, [])
    else
      var first := SendOutput(l, ms[..|ms| - 1]);
      var o := SendAudio(first.loop, ms[|ms| - 1]);
      Outcome(o.loop, first.effects + o.effects)
  }

  predicate SameKeys(l: Loop, m: Loop) {
    if l.sender.None? then m.sender.None?
    else m.sender.Some? && m.sender.value.keys == l.sender.value.keys
  }

  /** The reader task receives the oldest nonce of the channel and applies it. */
  function TakeNonce(l: Loop): (o: Outcome) {
    if l.resync.None? || l.resync.value == [] then Outcome(l, [])
    else Outcome(l.(resync := Some(l.resync.value[1..])), [NonceApplied(l.resync.value[0])])
  }

  function HandleControl(l: Loop, m: Control, net: Net): (o: Outcome)
  {
    match m
    case UdpTunnel(decodes) => Outcome(l, if decodes then [OnUdpMessage] else [])
    case CryptSetup(_, _, _) =>
      var o := HandleCryptSetup(l, m, net);
      Outcome(o.loop, o.effects + [OnControlMessage])
    case Version(fancy) =>
      Outcome(l.(fancyVersion := fancy, codec := Fancy.SelectCodec(fancy)), [OnControlMessage])
    case Ping =>
      var ping := if l.sender.Some? then SealOne(l, net.sends) else Outcome(l, []);
      Outcome(ping.loop, [OnPingStats, OnControlMessage] + ping.effects)
    case ServerSync => Outcome(l, [OnConnected, OnControlMessage])
    case Reject => Outcome(l.(running := false), [OnControlMessage, OnDisconnected])
    case OtherControl => Outcome(l, [OnControlMessage])
  }

  function Handle(l: Loop, w: Wake): (o: Outcome)
  {
    match w
    case ServerControl(m, net) => HandleControl(l, m, net)
    case ServerUdp => Outcome(l, [OnUdpMessage])
    case UserCommand(disconnect, messages) =>
      var o := SendOutput(l, messages);
      if disconnect then Outcome(o.loop.(running := false), o.effects + [OnDisconnected]) else o
    case AudioOut(message) => SendAudio(l, message)
    case ReaderTakesNonce => TakeNonce(l)
    case ForceTcp(force, net) => HandleForceTcp(l, force, net)
    case QueueClosed => Outcome(l.(running := false), [OnDisconnected])
    case TcpReaderEnded => Outcome(l.(running := false), [OnDisconnected])
  }

  function Run(l: Loop, ws: seq<Wake>): (o: Outcome)
    decreases |ws|
  {
    if ws == [] || !l.running then Outcome(l, [])
    else
      var first := Handle(l, ws[0]);
      var rest := Run(first.loop, ws[1..]);
      Outcome(rest.loop, first.effects + rest.effects)
  }

  // -- What every step keeps ----------------------------------------------------------

  /** UDP is up or down as a whole, down under force-TCP; the codec follows the
      version; the running session's keys are usable and the channel is bounded. */
  predicate Consistent(l: Loop) {
    && (l.sender.Some? <==> l.reader.Some?)
    && (l.sender.Some? <==> l.resync.Some?)
    && (l.forceTcp ==> l.sender.None?)
    && l.codec == Fancy.SelectCodec(l.fancyVersion)
    && (l.sender.Some? ==> Some(l.sender.value.keys) == l.reader && l.reader.value.Usable() && l.stored.Some?)
    && (l.resync.Some? ==> |l.resync.value| <= RESYNC_CHANNEL_CAPACITY)
  }

  lemma ControlConsistent(l: Loop, m: Control, net: Net)
    requires Consistent(l)
    ensures Consistent(HandleControl(l, m, net).loop)
  {
    hide Fancy.SelectCodec;
  }

  lemma HandleConsistent(l: Loop, w: Wake)
    requires Consistent(l)
    ensures Consistent(Handle(l, w).loop)
  {
    hide HandleControl, Fancy.SelectCodec;
    if w.ServerControl? { ControlConsistent(l, w.msg, w.net); }
  }

  lemma {:induction false} AlwaysConsistent(l: Loop, ws: seq<Wake>)
    requires Consistent(l)
    ensures Consistent(Run(l, ws).loop)
    decreases |ws|
  {
    if ws != [] && l.running {
      HandleConsistent(l, ws[0]);
      AlwaysConsistent(Handle(l, ws[0]).loop, ws[1..]);
    }
  }

  /** From start-up on, in every run. */
  lemma StartsConsistent(force: bool, ws: seq<Wake>)
    ensures Initial(force).running && Consistent(Run(Initial(force), ws).loop)
  {
    AlwaysConsistent(Initial(force), ws);
  }

  /** No datagram leaves while force-TCP holds. */
  lemma NoUdpUnderForceTcp(l: Loop, w: Wake)
    requires Consistent(l) && exists e :: e in Handle(l, w).effects && e.Datagram?
    ensures !Handle(l, w).loop.forceTcp
  {
  }

  lemma {:induction false} ForcedRunSendsNoUdp(l: Loop, ws: seq<Wake>)
    requires Consistent(l) && l.forceTcp
    requires forall i :: 0 <= i < |ws| && ws[i].ForceTcp? ==> ws[i].force
    ensures (forall e :: e in Run(l, ws).effects ==> !e.Datagram?) && Run(l, ws).loop.forceTcp
    decreases |ws|
  {
    if ws != [] && l.running {
      var first := Handle(l, ws[0]);
      if exists e :: e in first.effects && e.Datagram? { NoUdpUnderForceTcp(l, ws[0]); }
      HandleConsistent(l, ws[0]);
      ForcedRunSendsNoUdp(first.loop, ws[1..]);
    }
  }

  /** Turning force-TCP on and off again ends the session and starts one from the material
      of the last full crypt setup, whatever nonces were used or resynced meanwhile: its
      first datagram is sealed under the nonce after the stored one again. */
  lemma ToggleRestarts(l: Loop, net: Net)
    requires Consistent(l) && !l.forceTcp && l.running && l.stored.Some? && l.stored.value.Usable() && net.connects
    ensures var o := Run(l, [ForceTcp(true, net), ForceTcp(false, net)]);
            var keys := l.stored.value;
            var nonce := Nonce.Sent(LittleEndian(keys.clientNonce), 1);
            && o.loop == l.(sender := Some(Sender(keys, nonce)), reader := Some(keys), resync := Some([]))
            && o.effects == [OnTransportChanged(false), SessionStarted(keys), Datagram(keys.key, nonce, net.sends),
                             OnTransportChanged(true)]
  {
    var ws := [ForceTcp(true, net), ForceTcp(false, net)];
    var mid := Handle(l, ws[0]).loop;
    assert ws[1..] == [ws[1]] && ws[1..][1..] == [];
    assert Run(mid, ws[1..]).effects == Handle(mid, ws[1]).effects;
  }

  /** The material of the last full crypt setup among the wake-ups, if any. */
  function LastSetup(ws: seq<Wake>, before: Option<Crypto>): (c: Option<Crypto>)
  {
    if ws == [] then before
    else
      var w := ws[|ws| - 1];
      if w.ServerControl? && w.msg.CryptSetup? && w.msg.key.Some? && w.msg.clientNonce.Some? && w.msg.serverNonce.Some?
      then Some(Crypto(w.msg.key.value, w.msg.clientNonce.value, w.msg.serverNonce.value))
      else LastSetup(ws[..|ws| - 1], before)
  }

  lemma {:induction false} LastSetupCons(w: Wake, ws: seq<Wake>, before: Option<Crypto>)
    ensures LastSetup([w] + ws, before) == LastSetup(ws, LastSetup([w], before))
    decreases |ws|
  {
    if ws == [] {
      assert [w] + ws == [w];
    } else {
      LastSetupCons(w, ws[..|ws| - 1], before);
      assert ([w] + ws)[..|ws|] == [w] + ws[..|ws| - 1];
    }
  }

  /** The stored material is that of the last full crypt setup, forced TCP or not, whether
      or not UDP could be started with it. */
  lemma {:induction false} StoredIsLastSetup(l: Loop, ws: seq<Wake>)
    requires l.running && Run(l, ws).loop.running
    ensures Run(l, ws).loop.stored == LastSetup(ws, l.stored)
    decreases |ws|
  {
    if ws != [] {
      var n := Handle(l, ws[0]).loop;
      assert n.stored == LastSetup([ws[0]], l.stored) by { assert [ws[0]][..0] == []; }
      StoredIsLastSetup(n, ws[1..]);
      LastSetupCons(ws[0], ws[1..], l.stored);
      assert ws == [ws[0]] + ws[1..];
    }
  }

  /** The version and the toggle the loop goes by are the last it was told. */
  datatype Told = Told(version: Option<nat>, force: bool)

  function ToldBy(t: Told, ws: seq<Wake>): (r: Told)
    decreases |ws|
  {
    if ws == [] then t
    else
      match ws[0]
      case ServerControl(Version(v), _) => ToldBy(t.(version := v), ws[1..])
      case ForceTcp(f, _) => ToldBy(t.(force := f), ws[1..])
      case _ => ToldBy(t, ws[1..])
  }

  lemma HandleIsTold(l: Loop, w: Wake)
    ensures var n := Handle(l, w).loop;
            Told(n.fancyVersion, n.forceTcp) == ToldBy(Told(l.fancyVersion, l.forceTcp), [w])
  {
    assert [w][1..] == [];
  }

  /** So in every run that has not ended the codec is the one for the last announced
      version, and TCP is forced exactly if the last toggle said so. */
  lemma {:induction false} GoesByLastTold(l: Loop, ws: seq<Wake>)
    requires Consistent(l) && l.running && Run(l, ws).loop.running
    ensures var t, n := ToldBy(Told(l.fancyVersion, l.forceTcp), ws), Run(l, ws).loop;
            n.fancyVersion == t.version && n.forceTcp == t.force && n.codec == Fancy.SelectCodec(t.version)
    decreases |ws|
  {
    if ws != [] {
      hide Handle, Consistent;
      HandleConsistent(l, ws[0]);
      HandleIsTold(l, ws[0]);
      OneTold(Told(l.fancyVersion, l.forceTcp), ws);
      GoesByLastTold(Handle(l, ws[0]).loop, ws[1..]);
    }
  }

  lemma OneTold(t: Told, ws: seq<Wake>)
    requires ws != []
    ensures ToldBy(t, ws) == ToldBy(ToldBy(t, [ws[0]]), ws[1..])
  {
    assert [ws[0]][1..] == [];
  }

  predicate Ends(w: Wake) {
    || w.QueueClosed? || w.TcpReaderEnded?
    || (w.UserCommand? && w.disconnect) || (w.ServerControl? && w.msg.Reject?)
  }

  /** The loop runs on until the first wake-up that ends it. */
  lemma {:induction false} RunsUntilEnd(l: Loop, ws: seq<Wake>)
    requires l.running
    ensures Run(l, ws).loop.running <==> forall i :: 0 <= i < |ws| ==> !Ends(ws[i])
    decreases |ws|
  {
    if ws != [] {
      hide HandleCryptSetup, HandleForceTcp, SendAudio, SendOutput, SealOne, TakeNonce;
      SetupRunsOn(l, ws[0]);
      assert Handle(l, ws[0]).loop.running <==> !Ends(ws[0]);
      if Handle(l, ws[0]).loop.running { RunsUntilEnd(Handle(l, ws[0]).loop, ws[1..]); }
    }
  }

  lemma SetupRunsOn(l: Loop, w: Wake)
    ensures w.ServerControl? && w.msg.CryptSetup? ==>
              var o := HandleCryptSetup(l, w.msg, w.net);
              o.loop.running == l.running && OnDisconnected !in o.effects
    ensures w.ForceTcp? ==> HandleForceTcp(l, w.force, w.net).loop.running == l.running
    ensures w.ServerControl? && l.sender.Some? ==> SealOne(l, w.net.sends).loop.running == l.running
    ensures TakeNonce(l).loop.running == l.running
  {
  }

  // -- The loop's variables, updated in place -----------------------------------------------

  class Client {
    var codec: Fancy.Codec
    var serverFancyVersion: Option<nat>
    var udpSender: Option<Sender>
    var udpReaderTask: Option<Crypto>
    var udpResyncTx: Option<seq<seq<Byte>>>
    var storedCrypto: Option<Crypto>
    var forceTcp: bool
    var effects: seq<Effect>

    ghost function State(running: bool): (l: Loop)
      reads this
    {
      Loop(codec, serverFancyVersion, udpSender, udpReaderTask, udpResyncTx, storedCrypto, forceTcp, running)
    }

    constructor (force: bool)
      ensures State(true) == Initial(force) && effects == []
    {
      codec, serverFancyVersion := Fancy.Legacy, None;
      udpSender, udpReaderTask, udpResyncTx, storedCrypto := None, None, None, None;
      forceTcp, effects := force, [];
    }

    /** Encrypt and send; the counter moves even if the send fails. */
    method SendRaw(sends: bool)
      requires udpSender.Some?
      modifies this`udpSender, this`effects
      ensures var o := SealOne(old(State(true)), sends);
              State(true) == o.loop && effects == old(effects) + o.effects
    {
      var nonce := (udpSender.value.nonce + 1) % Nonce.NONCES;
      udpSender := Some(udpSender.value.(nonce := nonce));
      effects := effects + [Datagram(udpSender.value.keys.key, nonce, sends)];
    }

    method Start(crypto: Crypto, net: Net)
      modifies this
      ensures var o := StartUdp(old(State(true)), crypto, net);
              State(true) == o.loop && effects == old(effects) + o.effects
    {
      if !crypto.Usable() {
        return;
      }
      if !net.connects {
        return;
      }
      udpReaderTask := None;
      udpResyncTx := Some([]);
      udpReaderTask := Some(crypto);
      udpSender := Some(Sender(crypto, LittleEndian(crypto.clientNonce)));
      effects := effects + [SessionStarted(crypto)];
      SendRaw(net.sends);
      effects := effects + [OnTransportChanged(true)];
    }

    method OnCryptSetup(m: Control, net: Net)
      requires m.CryptSetup?
      modifies this
      ensures var o := HandleCryptSetup(old(State(true)), m, net);
              State(true) == o.loop && effects == old(effects) + o.effects
    {
      if m.key.None? || m.clientNonce.None? || m.serverNonce.None? {
        if m.serverNonce.Some? && udpResyncTx.Some? && |udpResyncTx.value| < RESYNC_CHANNEL_CAPACITY {
          udpResyncTx := Some(udpResyncTx.value + [m.serverNonce.value]);
          effects := effects + [NonceQueued(m.serverNonce.value)];
        }
        return;
      }
      var crypto := Crypto(m.key.value, m.clientNonce.value, m.serverNonce.value);
      storedCrypto := Some(crypto);
      if forceTcp {
        effects := effects + [OnTransportChanged(false)];
        return;
      }
      Start(crypto, net);
    }

    method OnForceTcp(force: bool, net: Net)
      modifies this
      ensures var o := HandleForceTcp(old(State(true)), force, net);
              State(true) == o.loop && effects == old(effects) + o.effects
    {
      if force == forceTcp {
        return;
      }
      forceTcp := force;
      if force {
        udpReaderTask := None;
        udpSender := None;
        udpResyncTx := None;
        effects := effects + [OnTransportChanged(false)];
      } else if storedCrypto.Some? {
        Start(storedCrypto.value, net);
      }
    }

    method OnControl(m: Control, net: Net) returns (running: bool)
      modifies this
      ensures var o := HandleControl(old(State(true)), m, net);
              State(running) == o.loop && effects == old(effects) + o.effects
    {
      running := true;
      if m.UdpTunnel? {
        if m.decodes {
          effects := effects + [OnUdpMessage];
        }
        return;
      }
      if m.CryptSetup? {
        OnCryptSetup(m, net);
      }
      match m {
        case Version(fancy) => serverFancyVersion := fancy;
        case Ping => effects := effects + [OnPingStats];
        case ServerSync => effects := effects + [OnConnected];
        case _ =>
      }
      effects := effects + [OnControlMessage];
      if m.Version? {
        codec := Fancy.SelectCodec(serverFancyVersion);
      }
      if m.Ping? && udpSender.Some? {
        SendRaw(net.sends);
      }
      if m.Reject? {
        effects := effects + [OnDisconnected];
        running := false;
      }
    }

    method SendOneAudioPacket(message: Outgoing)
      modifies this`udpSender, this`effects
      ensures var o := SendAudio(old(State(true)), message);
              State(true) == o.loop && effects == old(effects) + o.effects
    {
      if message.NotVoice? {
        return;
      }
      var sentUdp := false;
      if udpSender.Some? {
        SendRaw(message.udpWorks);
        sentUdp := message.udpWorks;
      }
      if !sentUdp {
        effects := effects + [Tunnelled];
      }
    }

    method SendUdpOutput(messages: seq<Outgoing>)
      modifies this`udpSender, this`effects
      ensures var o := SendOutput(old(State(true)), messages);
              State(true) == o.loop && effects == old(effects) + o.effects
    {
      hide SendAudio;
      ghost var l := State(true);
      assert messages[..0] == [];
      for i := 0 to |messages|
        invariant var o := SendOutput(l, messages[..i]);
                  State(true) == o.loop && effects == old(effects) + o.effects
      {
        SendOneAudioPacket(messages[i]);
        assert messages[..i + 1][..i] == messages[..i];
      }
      assert messages[..|messages|] == messages;
    }

    method OnWake(w: Wake) returns (running: bool)
      modifies this
      ensures var o := Handle(old(State(true)), w);
              State(running) == o.loop && effects == old(effects) + o.effects
    {
      hide HandleControl, HandleForceTcp;
      running := true;
      match w {
        case ServerControl(m, net) => running := OnControl(m, net);
        case ServerUdp => effects := effects + [OnUdpMessage];
        case UserCommand(disconnect, messages) =>
          SendUdpOutput(messages);
          if disconnect {
            effects := effects + [OnDisconnected];
            running := false;
          }
        case AudioOut(message) => SendOneAudioPacket(message);
        case ReaderTakesNonce =>
          if udpResyncTx.Some? && udpResyncTx.value != [] {
            effects := effects + [NonceApplied(udpResyncTx.value[0])];
            udpResyncTx := Some(udpResyncTx.value[1..]);
          }
        case ForceTcp(force, net) => OnForceTcp(force, net);
        case _ =>
          effects := effects + [OnDisconnected];
          running := false;
      }
    }

    method EventLoop(ws: seq<Wake>) returns (running: bool)
      modifies this
      ensures var o := Run(old(State(true)), ws);
              State(running) == o.loop && effects == old(effects) + o.effects
    {
      hide Handle;
      ghost var start, was := State(true), effects;
      running := true;
      var i := 0;
      while running && i < |ws|
        invariant 0 <= i <= |ws|
        invariant var rest := Run(State(running), ws[i..]);
                  rest.loop == Run(start, ws).loop && effects + rest.effects == was + Run(start, ws).effects
      {
        assert ws[i..][1..] == ws[i + 1..];
        running := OnWake(ws[i]);
        i := i + 1;
      }
    }
  }
}

/** Versions, users, and the codec that tunnels extension messages through
    servers too old to understand them. */
module FancyCodec {
  import opened Bytes

  type U16 = x: int | 0 <= x < 0x1_0000

  // -- Version numbers -----------------------------------------------------------

  function VersionEncode(major: U16, minor: U16, patch: U16): (v: nat) {
    major * 0x1_0000_0000_0000 + minor * 0x1_0000_0000 + patch * 0x1_0000
  }

  function VersionDecode(v: nat): (r: (U16, U16, U16)) {
    (v / 0x1_0000_0000_0000 % 0x1_0000, v / 0x1_0000_0000 % 0x1_0000, v / 0x1_0000 % 0x1_0000)
  }

  predicate Earlier(a: (U16, U16, U16), b: (U16, U16, U16)) {
    a.0 < b.0 || (a.0 == b.0 && (a.1 < b.1 || (a.1 == b.1 && a.2 < b.2)))
  }

  lemma VersionRoundTrip(major: U16, minor: U16, patch: U16)
    ensures VersionDecode(VersionEncode(major, minor, patch)) == (major, minor, patch)
    ensures VersionEncode(major, minor, patch) % 0x1_0000 == 0
  {
    LowBitsClear(major, minor, patch);
    var v := VersionEncode(major, minor, patch);
    var two := major * 0x1_0000 + minor;
    Field(two * 0x1_0000 + patch, 0, 0x1_0000);
    Field(two, patch * 0x1_0000, 0x1_0000_0000);
    Field(major, minor * 0x1_0000_0000 + patch * 0x1_0000, 0x1_0000_0000_0000);
    assert v / 0x1_0000 == two * 0x1_0000 + patch && v / 0x1_0000_0000 == two && v / 0x1_0000_0000_0000 == major;
  }

  lemma LowBitsClear(major: U16, minor: U16, patch: U16)
    ensures VersionEncode(major, minor, patch) % 0x1_0000 == 0
  {
    var high := major * 0x1_0000_0000 + minor * 0x1_0000 + patch;
    assert VersionEncode(major, minor, patch) == 0x1_0000 * high;
  }

  lemma Field(high: nat, low: nat, unit: nat)
    requires low < unit
    ensures (high * unit + low) / unit == high
  {
    QuotientIs(unit * high + low, unit, high, low);
  }

  /** Numeric order of encodings is lexicographic order of versions. */
  lemma VersionOrder(a: (U16, U16, U16), b: (U16, U16, U16))
    ensures VersionEncode(a.0, a.1, a.2) < VersionEncode(b.0, b.1, b.2) <==> Earlier(a, b)
  {
  }

  /** Servers before 1.5 announce only a 32-bit version; it is widened to the other layout. */
  function Widened(v1: nat): (v: nat)
    requires v1 < 0x1_0000_0000
  {
    VersionEncode(v1 / 0x1_0000, v1 / 0x100 % 0x100, v1 % 0x100)
  }

  predicate SupportsProtobufAudio(version: Option<nat>) {
    version.None? || version.value >= VersionEncode(1, 5, 0)
  }

  /** Widening keeps the order of versions, so the audio format switches exactly at 1.5
      in the announced layout too. */
  lemma WideningKeepsOrder(a: nat, b: nat)
    requires a < 0x1_0000_0000 && b < 0x1_0000_0000
    ensures Widened(a) < Widened(b) <==> a < b
    ensures SupportsProtobufAudio(Some(Widened(a))) <==> a >= 0x1_0500
    ensures SupportsProtobufAudio(None)
  {
    hide VersionEncode;
    var v := Parts(a);
    var w := Parts(b);
    NarrowOrder(v, w);
    NarrowOrder(v, (1, 5, 0));
    VersionOrder(v, w);
    VersionOrder(v, (1, 5, 0));
  }

  /** A 32-bit version is its three parts, the last two a byte each. */
  lemma Parts(v1: nat) returns (v: (U16, U16, U16))
    requires v1 < 0x1_0000_0000
    ensures v1 == Narrow(v) && v.1 < 0x100 && v.2 < 0x100 && Widened(v1) == VersionEncode(v.0, v.1, v.2)
  {
    v := (v1 / 0x1_0000, v1 / 0x100 % 0x100, v1 % 0x100);
    assert v1 / 0x1_0000 == v1 / 0x100 / 0x100;
  }

  function Narrow(v: (U16, U16, U16)): (n: nat) { v.0 * 0x1_0000 + v.1 * 0x100 + v.2 }

  lemma NarrowOrder(v: (U16, U16, U16), w: (U16, U16, U16))
    requires v.1 < 0x100 && v.2 < 0x100 && w.1 < 0x100 && w.2 < 0x100
    ensures Narrow(v) < Narrow(w) <==> Earlier(v, w)
  {
  }

  // -- Users --------------------------------------------------------------------------

  /** Sessions and channels, 32 bits wide. */
  type Id = x: int | 0 <= x < 0x1_0000_0000

  datatype User = User(session: Id, channel: Id, name: string)

  /** The fields of a `UserState` message that matter here. */
  datatype UserUpdate =
    | UserState(session: Option<Id>, channel: Option<Id>, name: Option<string>)
    | UserRemove(gone: Id)

  datatype State = State(users: map<Id, User>, ownSession: Option<Id>)

  function Or<T>(o: Option<T>, d: T): (r: T) { match o case Some(v) => v case None => d }

  function ApplyUpdate(users: map<Id, User>, u: UserUpdate): (r: map<Id, User>)
  {
    match u
    case UserRemove(session) => users - {session}
    case UserState(None, _, _) => users
    case UserState(Some(session), channel, name) =>
      var was := if session in users then users[session] else User(session, 0, "");
      users[session := was.(channel := Or(channel, was.channel), name := Or(name, was.name))]
  }

  function ApplyAll(users: map<Id, User>, us: seq<UserUpdate>): (r: map<Id, User>)
    decreases |us|
  {
    if us == [] then users else ApplyAll(ApplyUpdate(users, us[0]), us[1..])
  }

  /** Each user is filed under its own session. */
  predicate SessionKeyed(users: map<Id, User>) {
    forall s :: s in users ==> users[s].session == s
  }

  lemma {:induction false} UpdatesKeepSessions(users: map<Id, User>, us: seq<UserUpdate>)
    requires SessionKeyed(users)
    ensures SessionKeyed(ApplyAll(users, us))
    decreases |us|
  {
    if us != [] { UpdatesKeepSessions(ApplyUpdate(users, us[0]), us[1..]); }
  }

  /** What the updates say of one session: removed or never mentioned, or the last channel
      and name given since it appeared. */
  function LastSaid(us: seq<UserUpdate>, session: Id): (u: Option<User>)
  {
    if us == [] then None
    else
      var before, last := LastSaid(us[..|us| - 1], session), us[|us| - 1];
      if last == UserRemove(session) then None
      else if last.UserState? && last.session == Some(session) then
        var was := if before.Some? then before.value else User(session, 0, "");
        Some(User(session, if last.channel.Some? then last.channel.value else was.channel,
                  if last.name.Some? then last.name.value else was.name))
      else before
  }

  lemma {:induction false} ApplyAllAppend(users: map<Id, User>, us: seq<UserUpdate>, u: UserUpdate)
    ensures ApplyAll(users, us + [u]) == ApplyUpdate(ApplyAll(users, us), u)
    decreases |us|
  {
    if us == [] {
      assert (us + [u])[1..] == [];
    } else {
      ApplyAllAppend(ApplyUpdate(users, us[0]), us[1..], u);
      assert (us + [u])[1..] == us[1..] + [u];
    }
  }

  /** The table holds of each session exactly what was last said of it, whatever is said of
      the others. */
  lemma {:induction false} TableIsLastSaid(us: seq<UserUpdate>, session: Id)
    ensures var users := ApplyAll(map[], us);
            LastSaid(us, session) == if session in users then Some(users[session]) else None
  {
    if us != [] {
      var n := |us| - 1;
      TableIsLastSaid(us[..n], session);
      ApplyAllAppend(map[], us[..n], us[n]);
      UpdatesKeepSessions(map[], us[..n]);
      assert us == us[..n] + [us[n]];
    }
  }

  /** The user table as the client holds it. */
  class ServerState {
    var users: map<Id, User>
    var ownSession: Option<Id>

    constructor ()
      ensures users == map[] && ownSession == None
    {
      users, ownSession := map[], None;
    }

    method ApplyUserState(session: Option<Id>, channel: Option<Id>, name: Option<string>)
      modifies this`users
      ensures users == ApplyUpdate(old(users), UserState(session, channel, name))
      ensures old(SessionKeyed(users)) ==> SessionKeyed(users)
    {
      if session.None? {
        return;
      }
      var id := session.value;
      if id !in users {
        users := users[id := User(id, 0, "")];
      }
      if name.Some? {
        users := users[id := users[id].(name := name.value)];
      }
      if channel.Some? {
        users := users[id := users[id].(channel := channel.value)];
      }
    }

    method RemoveUser(session: Id)
      modifies this`users
      ensures users == ApplyUpdate(old(users), UserRemove(session))
      ensures old(SessionKeyed(users)) ==> SessionKeyed(users)
    {
      users := users - {session};
    }
  }

  // -- Messages ---------------------------------------------------------------------------

  datatype Message =
    | WebRtcSignal(target: Option<Id>, body: seq<Byte>)
    | PchatSenderKeyDistribution(channel: Option<Id>, body: seq<Byte>)
    | FancyTypingIndicator(actor: Option<Id>, body: seq<Byte>)
    | FancyWatchSync(actor: Option<Id>, body: seq<Byte>)
    | PluginDataTransmission(sender: Option<Id>, receivers: seq<Id>, data: Option<seq<Byte>>, dataId: Option<string>)
    | Other(typeId: U16, body: seq<Byte>)

  const FANCY_EXTENSION_TYPE_THRESHOLD: nat := 100

  /** The wire ids of the remaining message types. */
  predicate OtherId(id: nat) {
    id <= 25 || 100 <= id <= 119 || 122 <= id <= 130 || id == 132 || id == 133
    || 135 <= id <= 140 || 144 <= id <= 153 || id == 200 || id == 201
  }

  predicate WellFormed(m: Message) { m.Other? ==> OtherId(m.typeId) }

  function TypeId(m: Message): (id: U16)
  {
    match m
    case PluginDataTransmission(_, _, _, _) => 26
    case WebRtcSignal(_, _) => 120
    case PchatSenderKeyDistribution(_, _) => 121
    case FancyTypingIndicator(_, _) => 131
    case FancyWatchSync(_, _) => 134
    case Other(id, _) => id
  }

  predicate IsFancyExtension(m: Message) { TypeId(m) >= FANCY_EXTENSION_TYPE_THRESHOLD }

  /** Protobuf bodies, taken as given: serializing loses nothing. */
  datatype Wire = Wire(serialize: Message -> seq<Byte>, deserialize: (U16, seq<Byte>) -> Option<Message>)

  ghost predicate Faithful(w: Wire) {
    forall m: Message :: WellFormed(m) ==> w.deserialize(TypeId(m), w.serialize(m)) == Some(m)
  }

  // -- The support table ----------------------------------------------------------------------

  datatype Fallback = PluginData | ServerOnly

  datatype Support = Support(minVersion: nat, fallback: Fallback)

  function MessageSupport(m: Message): (s: Option<Support>)
  {
    var id := TypeId(m);
    if 100 <= id <= 119 || 122 <= id <= 127 then Some(Support(VersionEncode(0, 2, 12), ServerOnly))
    else if id == 120 || id == 121 then Some(Support(VersionEncode(0, 2, 12), PluginData))
    else if 128 <= id <= 130 then Some(Support(VersionEncode(0, 2, 16), ServerOnly))
    else if id == 131 then Some(Support(VersionEncode(0, 2, 18), PluginData))
    else if id == 134 then Some(Support(VersionEncode(0, 2, 20), PluginData))
    else if id == 135 then Some(Support(VersionEncode(0, 3, 0), ServerOnly))
    else if 136 <= id <= 140 then Some(Support(VersionEncode(0, 3, 1), ServerOnly))
    else if id == 144 || id == 145 then Some(Support(VersionEncode(0, 3, 2), ServerOnly))
    else if 146 <= id <= 153 || id == 200 || id == 201 then Some(Support(VersionEncode(0, 4, 0), ServerOnly))
    else None
  }

  // -- Receivers ---------------------------------------------------------------------------------

  /** An iteration order of the user table: every key once. */
  ghost predicate Enumerates(order: seq<Id>, users: map<Id, User>) {
    && (forall s :: s in users <==> s in order)
    && (forall i, j :: 0 <= i < j < |order| ==> order[i] != order[j])
  }

  /** Sessions of the users in a channel other than our own, in table order. */
  function Members(users: map<Id, User>, order: seq<Id>, channel: Id, own: Id): (r: seq<Id>)
    requires forall s :: s in order ==> s in users
  {
    if order == [] then []
    else
      var u := users[order[0]];
      (if u.channel == channel && u.session != own then [u.session] else [])
      + Members(users, order[1..], channel, own)
  }

  function OwnChannel(st: State, own: Id): (channel: Id) {
    if own in st.users then st.users[own].channel else 0
  }

  function Receivers(m: Message, st: State, order: seq<Id>): (r: seq<Id>)
    requires Enumerates(order, st.users)
  {
    var own := Or(st.ownSession, 0);
    match m
    case WebRtcSignal(target, _) =>
      if Or(target, 0) != 0 then [Or(target, 0)] else Members(st.users, order, OwnChannel(st, own), own)
    case PchatSenderKeyDistribution(channel, _) => Members(st.users, order, Or(channel, 0), own)
    case FancyTypingIndicator(_, _) => Members(st.users, order, OwnChannel(st, own), own)
    case FancyWatchSync(_, _) => Members(st.users, order, OwnChannel(st, own), own)
    case _ => []
  }

  lemma {:induction false} MembersExact(users: map<Id, User>, order: seq<Id>, channel: Id, own: Id)
    requires SessionKeyed(users) && forall s :: s in order ==> s in users
    requires forall i, j :: 0 <= i < j < |order| ==> order[i] != order[j]
    ensures var r := Members(users, order, channel, own);
            && (forall s :: s in r <==> s in order && users[s].channel == channel && s != own)
            && (forall i, j :: 0 <= i < j < |r| ==> r[i] != r[j])
    decreases |order|
  {
    if order != [] {
      MembersExact(users, order[1..], channel, own);
      assert forall s :: s in order <==> s == order[0] || s in order[1..];
      assert order[0] !in order[1..];
    }
  }

  /** `r` lists exactly the users of a channel other than ourselves, each once. */
  ghost predicate ListsOthers(r: seq<Id>, users: map<Id, User>, channel: Id, self: Id) {
    && (forall s :: s in r <==> s in users && s != self && users[s].channel == channel)
    && (forall i, j :: 0 <= i < j < |r| ==> r[i] != r[j])
  }

  /** In every state reached by user updates, and in any iteration order: typing, watch and
      untargeted signals go to exactly the others in the channel our own user is in (channel
      0 if we are not in the table), a key distribution to exactly the others in the channel
      it names, and a targeted signal to its target alone; nothing else is addressed. */
  lemma ReceiversExact(us: seq<UserUpdate>, own: Option<Id>, m: Message, order: seq<Id>)
    requires Enumerates(order, ApplyAll(map[], us))
    ensures var users := ApplyAll(map[], us);
            var self := if own.Some? then own.value else 0;
            var here := if self in users then users[self].channel else 0;
            var r := Receivers(m, State(users, own), order);
            match m
            case WebRtcSignal(target, _) =>
              if target == None || target == Some(0) then ListsOthers(r, users, here, self) else r == [target.value]
            case FancyTypingIndicator(_, _) => ListsOthers(r, users, here, self)
            case FancyWatchSync(_, _) => ListsOthers(r, users, here, self)
            case PchatSenderKeyDistribution(channel, _) =>
              ListsOthers(r, users, if channel.Some? then channel.value else 0, self)
            case _ => r == []
  {
    hide Members;
    var users := ApplyAll(map[], us);
    UpdatesKeepSessions(map[], us);
    var self := Or(own, 0);
    MembersExact(users, order, OwnChannel(State(users, own), self), self);
    if m.PchatSenderKeyDistribution? { MembersExact(users, order, Or(m.channel, 0), self); }
  }

  // -- Decimal type ids ---------------------------------------------------------------------------

  predicate IsDigit(c: char) { '0' <= c <= '9' }

  function Digit(d: nat): (c: char)
    requires d < 10
    ensures IsDigit(c) && c as int - '0' as int == d
  {
    ('0' as int + d) as char
  }

  function Decimal(n: nat): (s: string)
    ensures s != [] && forall i :: 0 <= i < |s| ==> IsDigit(s[i])
  {
    (if n < 10 then [] else Decimal(n / 10)) + [Digit(n % 10)]
  }

  function DigitsValue(s: string): (n: nat)
    requires forall i :: 0 <= i < |s| ==> IsDigit(s[i])
  {
    if s == [] then 0 else assert IsDigit(s[|s| - 1]); 10 * DigitsValue(s[..|s| - 1]) + (s[|s| - 1] as int - '0' as int)
  }

  predicate AllDigits(s: string) { forall i :: 0 <= i < |s| ==> IsDigit(s[i]) }

  /** Unsigned 16-bit parse: an optional plus sign, at least one digit, no overflow. */
  function ParseU16(s: string): (r: Option<U16>)
  {
    var digits := if |s| > 0 && s[0] == '+' then s[1..] else s;
    if digits == [] || !AllDigits(digits) then None
    else if DigitsValue(digits) < 0x1_0000 then Some(DigitsValue(digits))
    else None
  }

  lemma DigitsAppend(s: string, d: nat)
    requires (forall i :: 0 <= i < |s| ==> IsDigit(s[i])) && d < 10
    ensures DigitsValue(s + [Digit(d)]) == 10 * DigitsValue(s) + d
  {
    hide Digit;
    assert (s + [Digit(d)])[..|s|] == s;
  }

  lemma {:induction false} DecimalValue(n: nat)
    ensures DigitsValue(Decimal(n)) == n
  {
    hide DigitsValue, Digit;
    if n < 10 {
      DigitsAppend([], n);
      NoDigits();
    } else {
      DecimalValue(n / 10);
      DigitsAppend(Decimal(n / 10), n % 10);
    }
  }

  lemma NoDigits()
    ensures DigitsValue([]) == 0
  {
  }

  lemma ParseDecimal(n: U16)
    ensures ParseU16(Decimal(n)) == Some(n)
  {
    DecimalValue(n);
    assert IsDigit(Decimal(n)[0]);
  }

  lemma {:induction false} DecimalDigits(n: nat)
    ensures Decimal(n) != [] && forall i :: 0 <= i < |Decimal(n)| ==> IsDigit(Decimal(n)[i])
  {
    hide Digit;
    if n >= 10 { DecimalDigits(n / 10); }
  }

  /** Nothing but digits is taken, behind at most one plus sign. */
  lemma ParseNeedsDigits(s: string, i: nat)
    requires i < |s| && !('0' <= s[i] <= '9') && (i == 0 ==> s[0] != '+')
    ensures ParseU16(s) == None
  {
    var digits, j := if s[0] == '+' then s[1..] else s, if s[0] == '+' then i - 1 else i;
    assert digits[j] == s[i] && !IsDigit(digits[j]);
  }

  /** At least one digit is needed, and no number over 65535 is taken. */
  lemma ParseCases(n: nat)
    ensures n < 0x1_0000 ==> ParseU16(['+'] + Decimal(n)) == Some(n)
    ensures n >= 0x1_0000 ==> ParseU16(Decimal(n)) == None
    ensures ParseU16("") == ParseU16("+") == None
  {
    hide DigitsValue, Decimal;
    DecimalValue(n);
    DecimalDigits(n);
    assert (['+'] + Decimal(n))[1..] == Decimal(n);
    assert IsDigit(Decimal(n)[0]);
  }

  // -- The codec ----------------------------------------------------------------------------------------

  const FANCY_NATIVE_MIN_VERSION: nat := VersionEncode(0, 2, 12)
  const WRAPPED_DATA_ID_PREFIX: string := "fancy-native:"

  datatype Codec = Legacy | Native(serverVersion: nat)

  function SelectCodec(version: Option<nat>): (c: Codec) {
    if version.Some? && version.value >= FANCY_NATIVE_MIN_VERSION then Native(version.value) else Legacy
  }

  function EncodeLegacy(w: Wire, m: Message, st: State, order: seq<Id>): (r: Option<Message>)
    requires Enumerates(order, st.users)
  {
    if !IsFancyExtension(m) then Some(m)
    else
      var receivers := Receivers(m, st, order);
      if receivers == [] then None
      else
        Some(PluginDataTransmission(None, receivers, Some(w.serialize(m)),
                                    Some(WRAPPED_DATA_ID_PREFIX + Decimal(TypeId(m)))))
  }

  function Encode(c: Codec, w: Wire, m: Message, st: State, order: seq<Id>): (r: Option<Message>)
    requires Enumerates(order, st.users)
  {
    match c
    case Legacy => EncodeLegacy(w, m, st, order)
    case Native(version) =>
      if !IsFancyExtension(m) then Some(m)
      else
        match MessageSupport(m)
        case None => Some(m)
        case Some(s) =>
          if version >= s.minVersion then Some(m)
          else if s.fallback == PluginData then EncodeLegacy(w, m, st, order)
          else None
  }

  function PatchSender(m: Message, sender: Option<Id>): (r: Message)
  {
    if (m.FancyTypingIndicator? || m.FancyWatchSync?) && m.actor.None? then m.(actor := sender) else m
  }

  /** Both codecs decode alike. */
  function Decode(w: Wire, m: Message): (r: Message)
  {
    if !m.PluginDataTransmission? || m.dataId.None? || !(WRAPPED_DATA_ID_PREFIX <= m.dataId.value) then m
    else
      var id := ParseU16(m.dataId.value[|WRAPPED_DATA_ID_PREFIX|..]);
      if id.None? || m.data.None? then m
      else
        match w.deserialize(id.value, m.data.value)
        case None => m
        case Some(inner) => PatchSender(inner, m.sender)
  }

  /** A message as its receiver should see it: a missing actor is the sender. */
  function WithActor(m: Message, sender: Id): (r: Message) {
    match m
    case FancyTypingIndicator(None, body) => FancyTypingIndicator(Some(sender), body)
    case FancyWatchSync(None, body) => FancyWatchSync(Some(sender), body)
    case _ => m
  }

  /** Anything that is not an envelope comes through as it is: other messages, plugin data
      under another id, a type id that does not parse, no data, or data of no message. */
  lemma DecodeLeavesOthers(w: Wire, m: Message)
    ensures !m.PluginDataTransmission? ==> Decode(w, m) == m
    ensures m.PluginDataTransmission? && m.dataId.None? ==> Decode(w, m) == m
    ensures m.PluginDataTransmission? && m.dataId.Some? && !("fancy-native:" <= m.dataId.value) ==> Decode(w, m) == m
    ensures m.PluginDataTransmission? && m.dataId.Some? && "fancy-native:" <= m.dataId.value ==>
              var id := ParseU16(m.dataId.value[13..]);
              (id.None? || m.data.None? || w.deserialize(id.value, m.data.value).None? ==> Decode(w, m) == m)
  {
    hide ParseU16;
  }

  predicate Relayable(m: Message) {
    m.WebRtcSignal? || m.PchatSenderKeyDistribution? || m.FancyTypingIndicator? || m.FancyWatchSync?
  }

  /** Wrap, relay, unwrap: the original message comes back with only a missing
      actor filled in; wrapping fails exactly when there is nobody to send to. */
  lemma RelayRoundTrip(w: Wire, m: Message, st: State, order: seq<Id>, sender: Id)
    requires Faithful(w) && Relayable(m) && Enumerates(order, st.users)
    ensures var e := EncodeLegacy(w, m, st, order);
            && (e.None? <==> Receivers(m, st, order) == [])
            && (e.Some? ==>
                  && e.value == PluginDataTransmission(None, Receivers(m, st, order), Some(w.serialize(m)),
                                                       Some("fancy-native:" + Decimal(TypeId(m))))
                  && Decode(w, e.value.(sender := Some(sender))) == WithActor(m, sender))
  {
    var e := EncodeLegacy(w, m, st, order);
    if e.Some? {
      var suffix := Decimal(TypeId(m));
      ParseDecimal(TypeId(m));
      assert e.value.dataId.value[|WRAPPED_DATA_ID_PREFIX|..] == suffix;
      assert WRAPPED_DATA_ID_PREFIX <= e.value.dataId.value;
    }
  }

  /** The table lets a message fall back exactly when the tunnel can address it. */
  lemma FallbackIffRelayable(m: Message)
    requires WellFormed(m)
    ensures MessageSupport(m).Some? && MessageSupport(m).value.fallback == PluginData <==> Relayable(m)
  {
  }

  /** The server takes the message in its own form: a standard one, or an extension that
      its version is new enough for. */
  predicate Understands(version: Option<nat>, m: Message) {
    || !IsFancyExtension(m)
    || (&& version.Some? && version.value >= FANCY_NATIVE_MIN_VERSION
        && (MessageSupport(m).None? || version.value >= MessageSupport(m).value.minVersion))
  }

  /** Whatever the server version, exactly one of three things happens: a message the
      server understands is sent as it is and read back as it is; any other is dropped if
      there is nobody to relay to, and otherwise wrapped for exactly its receivers so that
      each gets it back with only a missing actor filled in. */
  lemma CodecDelivers(version: Option<nat>, w: Wire, m: Message, st: State, order: seq<Id>, sender: Id)
    requires Faithful(w) && WellFormed(m) && Enumerates(order, st.users)
    ensures var e, receivers := Encode(SelectCodec(version), w, m, st, order), Receivers(m, st, order);
            if Understands(version, m) then e == Some(m) && (!m.PluginDataTransmission? ==> Decode(w, m) == m)
            else if receivers == [] then e == None
            else
              && e.Some? && e.value.PluginDataTransmission? && e.value.receivers == receivers
              && Decode(w, e.value.(sender := Some(sender))) == WithActor(m, sender)
  {
    hide Decode, MessageSupport;
    FallbackIffRelayable(m);
    if !m.PluginDataTransmission? { PlainDecodes(w, m); }
    if Relayable(m) { RelayRoundTrip(w, m, st, order, sender); }
  }

  lemma PlainDecodes(w: Wire, m: Message)
    requires !m.PluginDataTransmission?
    ensures Decode(w, m) == m
  {
  }

  ghost predicate SentNatively(version: Option<nat>, m: Message) {
    forall w: Wire, st: State, order: seq<Id> ::
      Enumerates(order, st.users) ==> Encode(SelectCodec(version), w, m, st, order) == Some(m)
  }

  lemma SentNativelyIff(version: Option<nat>, m: Message)
    ensures SentNatively(version, m) <==> Understands(version, m)
  {
    hide MessageSupport, VersionEncode;
    var w, st := Wire(m => [], (id, body) => None), State(map[], None);
    assert Enumerates([], st.users);
    assert SentNatively(version, m) ==> Encode(SelectCodec(version), w, m, st, []) == Some(m);
  }

  /** A newer server is never sent less: what goes out natively to one version number
      goes out natively to every larger one. */
  lemma NativeIsMonotone(m: Message, older: nat, newer: nat)
    requires older <= newer && SentNatively(Some(older), m)
    ensures SentNatively(Some(newer), m)
  {
    hide MessageSupport, SentNatively, VersionEncode;
    SentNativelyIff(Some(older), m);
    SentNativelyIff(Some(newer), m);
  }

  /** The versions from which the relayed messages go out natively; standard messages always
      do. */
  lemma NativeFrom(m: Message, v: (U16, U16, U16))
    ensures var sent := SentNatively(Some(VersionEncode(v.0, v.1, v.2)), m);
            match m
            case WebRtcSignal(_, _) => sent <==> !Earlier(v, (0, 2, 12))
            case PchatSenderKeyDistribution(_, _) => sent <==> !Earlier(v, (0, 2, 12))
            case FancyTypingIndicator(_, _) => sent <==> !Earlier(v, (0, 2, 18))
            case FancyWatchSync(_, _) => sent <==> !Earlier(v, (0, 2, 20))
            case PluginDataTransmission(_, _, _, _) => sent
            case Other(id, _) =>
              && (id < 100 ==> sent)
              && (100 <= id <= 119 || 122 <= id <= 127 || id in {132, 133} ==> (sent <==> !Earlier(v, (0, 2, 12))))
              && (id in {128, 129, 130} ==> (sent <==> !Earlier(v, (0, 2, 16))))
              && (id == 135 ==> (sent <==> !Earlier(v, (0, 3, 0))))
              && (id in {136, 137, 138, 139, 140} ==> (sent <==> !Earlier(v, (0, 3, 1))))
              && (id in {144, 145} ==> (sent <==> !Earlier(v, (0, 3, 2))))
              && (146 <= id <= 153 || id in {200, 201} ==> (sent <==> !Earlier(v, (0, 4, 0))))
  {
    hide SentNatively, VersionEncode, Earlier;
    VersionOrder(v, (0, 2, 16));
    VersionOrder(v, (0, 3, 0));
    VersionOrder(v, (0, 3, 1));
    VersionOrder(v, (0, 3, 2));
    VersionOrder(v, (0, 4, 0));
    SentNativelyIff(Some(VersionEncode(v.0, v.1, v.2)), m);
    VersionOrder(v, (0, 2, 12));
    VersionOrder(v, (0, 2, 18));
    VersionOrder(v, (0, 2, 20));
    LaterVersions();
  }

  lemma LaterVersions()
    ensures VersionEncode(0, 2, 12) < VersionEncode(0, 2, 16) < VersionEncode(0, 2, 18) < VersionEncode(0, 2, 20)
    ensures VersionEncode(0, 2, 20) < VersionEncode(0, 3, 0) < VersionEncode(0, 3, 1) < VersionEncode(0, 3, 2)
    ensures VersionEncode(0, 3, 2) < VersionEncode(0, 4, 0)
  {
  }

  /** The type ids of the messages the codec looks into. */
  lemma WireIds(m: Message)
    ensures m.PluginDataTransmission? ==> TypeId(m) == 26
    ensures m.WebRtcSignal? ==> TypeId(m) == 120
    ensures m.PchatSenderKeyDistribution? ==> TypeId(m) == 121
    ensures m.FancyTypingIndicator? ==> TypeId(m) == 131
    ensures m.FancyWatchSync? ==> TypeId(m) == 134
  {
  }
}

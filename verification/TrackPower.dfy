/** apps/z21-sim/internal/server: how the simulator keeps its clients informed of
    the track power (xpressnet.go, broadcast.go, server.go, systemstate.go).
    Packets and control calls are handled one at a time; every datagram sent is
    taken to arrive, so an address's inbox is what was sent to it. */
module TrackPower {
  import opened Basics
  import opened Wire

  type Addr = string

  const TRACK_VOLTAGE_OFF: uint8 := 0x02
  const GET_VERSION: uint8 := 0x21
  const GET_STATUS: uint8 := 0x24
  const POWER_OFF: uint8 := 0x80
  const POWER_ON: uint8 := 0x81
  const GET_FIRMWARE: uint8 := 0xF1
  const FIRMWARE_DB0: uint8 := 0x0A
  const FIRMWARE_REPLY: uint8 := 0xF3
  const STATUS_REPLY: uint8 := 0x62
  const STATUS_DB0: uint8 := 0x22
  const BROADCAST: uint8 := 0x61
  const FIRMWARE_VERSION: uint32 := 0x0000_0120

  // ---- what the server says ----

  function CentralState(power: bool): uint8 {
    if power then 0 else TRACK_VOLTAGE_OFF
  }

  function PowerMessage(on: bool): Message {
    Packet(LanX, WithChecksum([BROADCAST, if on then 0x01 else 0x00]))
  }

  function StatusMessage(power: bool): Message {
    Packet(LanX, WithChecksum([STATUS_REPLY, STATUS_DB0, CentralState(power)]))
  }

  function FirmwareMessage(): Message {
    Packet(LanX, WithChecksum([FIRMWARE_REPLY, FIRMWARE_DB0, 0x01, 0x20]))
  }

  function StateMessage(power: bool): Message {
    Packet(SystemStateDataChanged,
           Put16(100) + [0, 0] + Put16(80) + Put16(42) + Put16(10000) + Put16(1000) + [CentralState(power), 0, 0, 0x31])
  }

  /** The track power a client reads off a message: a power broadcast or reply,
      a status reply, or a system state; nothing else speaks of it. */
  function PowerIn(m: Message): Option<bool> {
    if !m.Packet? then None
    else
      match m.header
      case LanX =>
        if |m.data| >= 2 && m.data[0] == BROADCAST && m.data[1] <= 1 then Some(m.data[1] == 1)
        else if |m.data| >= 3 && m.data[0] == STATUS_REPLY && m.data[1] == STATUS_DB0 then Some(m.data[2] / 2 % 2 == 0)
        else None
      case SystemStateDataChanged => if |m.data| == 16 then Some(m.data[12] / 2 % 2 == 0) else None
      case _ => None
  }

  lemma PowerSpeaks(power: bool)
    ensures PowerIn(PowerMessage(power)) == Some(power)
  {}

  lemma StatusSpeaks(power: bool)
    ensures PowerIn(StatusMessage(power)) == Some(power)
  {}

  lemma FirmwareIsSilent()
    ensures PowerIn(FirmwareMessage()) == None
  {}

  lemma StateSpeaks(power: bool)
    ensures PowerIn(StateMessage(power)) == Some(power)
  {}

  /** The three messages about the power say what it is; the firmware reply says nothing of it. */
  lemma MessagesSpeak(power: bool)
    ensures PowerIn(PowerMessage(power)) == Some(power)
    ensures PowerIn(StatusMessage(power)) == Some(power)
    ensures PowerIn(StateMessage(power)) == Some(power)
    ensures PowerIn(FirmwareMessage()) == None
  {
    PowerSpeaks(power);
    StatusSpeaks(power);
    StateSpeaks(power);
    FirmwareIsSilent();
  }

  /** What a client that knew `v` knows after reading `msgs`. */
  function Known(v: bool, msgs: seq<Message>): bool {
    if msgs == [] then v
    else
      match PowerIn(msgs[|msgs| - 1])
      case Some(p) => p
      case None => Known(v, msgs[..|msgs| - 1])
  }

  lemma {:induction false} KnownAppend(v: bool, a: seq<Message>, b: seq<Message>)
    ensures Known(v, a + b) == Known(Known(v, a), b)
  {
    if b == [] {
      assert a + b == a;
    } else {
      assert (a + b)[..|a + b| - 1] == a + b[..|b| - 1];
      KnownAppend(v, a, b[..|b| - 1]);
    }
  }

  lemma KnownOne(v: bool, m: Message)
    ensures Known(v, [m]) == match PowerIn(m) case Some(p) => p case None => v
  {}

  // ---- the server's state ----

  /** Sessions are known by address; a session's flags are all it holds. */
  datatype State = State(power: bool, clients: map<Addr, uint32>, inbox: map<Addr, seq<Message>>)

  function Received(inbox: map<Addr, seq<Message>>, a: Addr): seq<Message> {
    if a in inbox then inbox[a] else []
  }

  function Inbox(st: State, a: Addr): seq<Message> {
    Received(st.inbox, a)
  }

  /** One datagram to each of a set of addresses. */
  function SendTo(inbox: map<Addr, seq<Message>>, to: set<Addr>, msgs: seq<Message>): map<Addr, seq<Message>> {
    map a | a in inbox.Keys + to :: Received(inbox, a) + (if a in to then msgs else [])
  }

  lemma SendToOneMore(inbox: map<Addr, seq<Message>>, to: set<Addr>, msgs: seq<Message>, a: Addr)
    requires a !in to
    ensures var sent := SendTo(inbox, to, msgs);
            sent[a := Received(sent, a) + msgs] == SendTo(inbox, to + {a}, msgs)
  {
    assert Received(inbox, a) + [] == Received(inbox, a);
  }

  /** Sending to one of those still to do. */
  lemma SendNext(inbox: map<Addr, seq<Message>>, to: set<Addr>, todo: set<Addr>, msgs: seq<Message>, a: Addr)
    requires todo <= to && a in todo
    ensures var sent := SendTo(inbox, to - todo, msgs);
            sent[a := Received(sent, a) + msgs] == SendTo(inbox, to - (todo - {a}), msgs)
  {
    SendToOneMore(inbox, to - todo, msgs, a);
    assert (to - todo) + {a} == to - (todo - {a});
  }

  lemma SendToNobody(inbox: map<Addr, seq<Message>>, msgs: seq<Message>)
    ensures SendTo(inbox, {}, msgs) == inbox
  {
    assert forall a :: Received(inbox, a) + [] == Received(inbox, a);
  }

  function Deliver(st: State, a: Addr, msgs: seq<Message>): State {
    st.(inbox := st.inbox[a := Inbox(st, a) + msgs])
  }

  predicate Subscribed(st: State, a: Addr, flag: uint32)
    requires flag > 0
  {
    a in st.clients && HasFlag(st.clients[a], flag)
  }

  function Recipients(st: State, flag: uint32, except: Option<Addr>): set<Addr>
    requires flag > 0
  {
    set a | a in st.clients && HasFlag(st.clients[a], flag) && except != Some(a)
  }

  /** One datagram to every subscriber but the excepted one. */
  function Broadcast(st: State, msgs: seq<Message>, flag: uint32, except: Option<Addr>): State
    requires flag > 0
  {
    st.(inbox := SendTo(st.inbox, Recipients(st, flag, except), msgs))
  }

  lemma AllButOne(st: State, flag: uint32, except: Option<Addr>)
    requires flag > 0
    ensures Recipients(st, flag, except)
         == Recipients(st, flag, None) - (if except.Some? then {except.value} else {})
  {}

  /** notifyTrackPowerChange: the XpressNet broadcast spares the requester, the system state does not. */
  function Notify(st: State, on: bool, except: Option<Addr>): State {
    var st1 := Broadcast(st, [PowerMessage(on), StatusMessage(st.power)], FLAG_XPRESSNET, except);
    Broadcast(st1, [StateMessage(st.power)], FLAG_SYSTEM_STATE, None)
  }

  /** A change of power is announced; setting the power it already has is not. */
  function SetPower(st: State, on: bool, requester: Option<Addr>): State {
    if st.power == on then st else Notify(st.(power := on), on, requester)
  }

  /** A LAN_X request: its reply, if it is one the simulator knows. */
  function HandleLanX(st: State, a: Addr, data: seq<uint8>): (State, Option<Message>) {
    if |data| < 2 then (st, None)
    else if data[0] == GET_FIRMWARE then (st, if data[1] == FIRMWARE_DB0 then Some(FirmwareMessage()) else None)
    else if data[0] == GET_VERSION then
      if data[1] == GET_STATUS then (st, Some(StatusMessage(st.power)))
      else if data[1] == POWER_OFF then (SetPower(st, false, Some(a)), Some(PowerMessage(false)))
      else if data[1] == POWER_ON then (SetPower(st, true, Some(a)), Some(PowerMessage(true)))
      else (st, None)
    else (st, None)
  }

  /** A packet being handled: the server, whether the session is still
      registered, its flags, and the replies collected so far. */
  datatype Handling = Handling(st: State, registered: bool, flags: uint32, replies: seq<Message>)

  function Begin(st: State, a: Addr): Handling {
    if a in st.clients then Handling(st, true, st.clients[a], [])
    else Handling(st.(clients := st.clients[a := 0]), true, 0, [])
  }

  function Reply(h: Handling, m: Message): Handling {
    h.(replies := h.replies + [m])
  }

  /** One message of a packet.  Logging off unregisters the session for the rest
      of the packet: flags set after it reach nobody. */
  function HandleMessage(h: Handling, a: Addr, m: Message, serial: uint32): Handling {
    if !m.Packet? then h
    else
      match m.header
      case GetHWInfo => Reply(h, Packet(GetHWInfo, Put32(0x201) + Put32(FIRMWARE_VERSION)))
      case GetSerialNumber => Reply(h, Packet(GetSerialNumber, Put32(serial)))
      case GetCode => Reply(h, Packet(GetCode, [0]))
      case Logoff => h.(st := h.st.(clients := h.st.clients - {a}), registered := false)
      case SetBroadcastFlags =>
        if |m.data| < 4 then h
        else
          var flags := Get32(m.data);
          h.(flags := flags,
             st := if h.registered then h.st.(clients := h.st.clients[a := flags]) else h.st)
      case GetBroadcastFlags => Reply(h, Packet(GetBroadcastFlags, Put32(h.flags)))
      case SystemStateGetData => Reply(h, StateMessage(h.st.power))
      case LanX =>
        var (st, reply) := HandleLanX(h.st, a, m.data);
        if reply.Some? then Reply(h.(st := st), reply.value) else h.(st := st)
      case _ => h
  }

  function HandleMessages(h: Handling, a: Addr, msgs: seq<Message>, serial: uint32): Handling {
    if msgs == [] then h
    else HandleMessage(HandleMessages(h, a, msgs[..|msgs| - 1], serial), a, msgs[|msgs| - 1], serial)
  }

  lemma HandleOneMore(h: Handling, a: Addr, msgs: seq<Message>, i: nat, serial: uint32)
    requires i < |msgs|
    ensures HandleMessages(h, a, msgs[..i + 1], serial)
         == HandleMessage(HandleMessages(h, a, msgs[..i], serial), a, msgs[i], serial)
  {
    assert msgs[..i + 1][..i] == msgs[..i];
  }

  function Finish(h: Handling, a: Addr): State {
    if h.replies == [] then h.st else Deliver(h.st, a, h.replies)
  }

  datatype Happening =
    | Malformed(from: Addr)
    | Packets(from: Addr, msgs: seq<Message>)
    | SetTrackPower(on: bool)
    | BroadcastState

  function Handle(st: State, e: Happening, serial: uint32): State {
    match e
    case Malformed(_) => st
    case Packets(a, msgs) => Finish(HandleMessages(Begin(st, a), a, msgs, serial), a)
    case SetTrackPower(on) => SetPower(st, on, None)
    case BroadcastState => Broadcast(st, [StateMessage(st.power)], FLAG_SYSTEM_STATE, None)
  }

  // ---- what an address is told ----

  /** Between two states an address was sent messages from which one who knew the
      power at the start knows it at the end. */
  ghost predicate Informs(st: State, st': State, a: Addr) {
    exists told :: Inbox(st', a) == Inbox(st, a) + told && Known(st.power, told) == st'.power
  }

  lemma InformsQuietly(st: State, st': State, a: Addr)
    requires Inbox(st', a) == Inbox(st, a) && st'.power == st.power
    ensures Informs(st, st', a)
  {
    assert Inbox(st', a) == Inbox(st, a) + [] && Known(st.power, []) == st'.power;
  }

  lemma InformsInTurn(st: State, mid: State, st': State, a: Addr)
    requires Informs(st, mid, a) && Informs(mid, st', a)
    ensures Informs(st, st', a)
  {
    var x :| Inbox(mid, a) == Inbox(st, a) + x && Known(st.power, x) == mid.power;
    var y :| Inbox(st', a) == Inbox(mid, a) + y && Known(mid.power, y) == st'.power;
    KnownAppend(st.power, x, y);
    assert Inbox(st', a) == Inbox(st, a) + (x + y);
  }

  /** Registered for either kind of power announcement. */
  predicate Watching(st: State, a: Addr) {
    Subscribed(st, a, FLAG_XPRESSNET) || Subscribed(st, a, FLAG_SYSTEM_STATE)
  }

  lemma BroadcastTells(st: State, msgs: seq<Message>, flag: uint32, except: Option<Addr>, a: Addr)
    requires flag > 0
    ensures var st' := Broadcast(st, msgs, flag, except);
            && st'.power == st.power && st'.clients == st.clients
            && Inbox(st', a) == Inbox(st, a) + (if Subscribed(st, a, flag) && except != Some(a) then msgs else [])
  {
    assert Inbox(st, a) + [] == Inbox(st, a);
  }

  /** What a change of power puts in an address's inbox. */
  function Announcement(st: State, on: bool, except: Option<Addr>, a: Addr): seq<Message> {
    (if Subscribed(st, a, FLAG_XPRESSNET) && except != Some(a) then [PowerMessage(on), StatusMessage(on)] else [])
    + (if Subscribed(st, a, FLAG_SYSTEM_STATE) then [StateMessage(on)] else [])
  }

  lemma NotifyTells(st: State, except: Option<Addr>, a: Addr)
    ensures var st' := Notify(st, st.power, except);
            && st'.power == st.power && st'.clients == st.clients
            && Inbox(st', a) == Inbox(st, a) + Announcement(st, st.power, except, a)
  {
    var on := st.power;
    var xnet, state := [PowerMessage(on), StatusMessage(on)], [StateMessage(on)];
    var st1 := Broadcast(st, xnet, FLAG_XPRESSNET, except);
    BroadcastTells(st, xnet, FLAG_XPRESSNET, except, a);
    BroadcastTells(st1, state, FLAG_SYSTEM_STATE, None, a);
    var first := if Subscribed(st, a, FLAG_XPRESSNET) && except != Some(a) then xnet else [];
    var second := if Subscribed(st, a, FLAG_SYSTEM_STATE) then state else [];
    assert (Inbox(st, a) + first) + second == Inbox(st, a) + (first + second);
  }

  /** An announcement speaks the new power, if it says anything. */
  lemma AnnouncementSpeaks(st: State, on: bool, except: Option<Addr>, a: Addr, v: bool)
    ensures Known(v, Announcement(st, on, except, a)) == if Announcement(st, on, except, a) == [] then v else on
  {
    var msgs := Announcement(st, on, except, a);
    MessagesSpeak(on);
    if msgs != [] { assert msgs[|msgs| - 1] == StateMessage(on) || msgs[|msgs| - 1] == StatusMessage(on); }
  }

  /** A change of power is announced to everyone who watches; the requester
      hears of it only through the system state.  Nothing else is sent. */
  lemma SetPowerTells(st: State, on: bool, except: Option<Addr>, a: Addr)
    ensures var st' := SetPower(st, on, except);
            && st'.power == on && st'.clients == st.clients
            && Inbox(st', a) == Inbox(st, a) + (if st.power == on then [] else Announcement(st, on, except, a))
            && (Watching(st, a) && except != Some(a) ==> Informs(st, st', a))
  {
    if st.power == on {
      InformsQuietly(st, st, a);
      assert Inbox(st, a) + [] == Inbox(st, a);
    } else {
      NotifyTells(st.(power := on), except, a);
      assert Announcement(st.(power := on), on, except, a) == Announcement(st, on, except, a);
      AnnouncementSpeaks(st, on, except, a, st.power);
    }
  }

  /** A system state sent on demand of the control plane reaches its subscribers, and nobody else anything. */
  lemma StateBroadcastTells(st: State, serial: uint32, a: Addr)
    ensures var st' := Handle(st, BroadcastState, serial);
            && st'.power == st.power && st'.clients == st.clients
            && Inbox(st', a) == Inbox(st, a) + (if Subscribed(st, a, FLAG_SYSTEM_STATE) then [StateMessage(st.power)] else [])
  {
    BroadcastTells(st, [StateMessage(st.power)], FLAG_SYSTEM_STATE, None, a);
  }

  // ---- packets ----

  /** A request to switch the power, and what it asks for. */
  predicate IsPowerRequest(m: Message) {
    m.Packet? && m.header == LanX && |m.data| >= 2 && m.data[0] == GET_VERSION
    && (m.data[1] == POWER_OFF || m.data[1] == POWER_ON)
  }

  predicate Asked(m: Message)
    requires IsPowerRequest(m)
  {
    m.data[1] == POWER_ON
  }

  /** A power request switches the power and is always answered with it. */
  lemma PowerRequest(h: Handling, a: Addr, m: Message, serial: uint32)
    requires IsPowerRequest(m)
    ensures HandleMessage(h, a, m, serial)
         == Handling(SetPower(h.st, Asked(m), Some(a)), h.registered, h.flags, h.replies + [PowerMessage(Asked(m))])
  {}

  /** At most one reply more, and if it speaks of the power, the truth. */
  ghost predicate Truthful(before: seq<Message>, after: seq<Message>, power: bool) {
    after == before || exists r :: after == before + [r] && (PowerIn(r).Some? ==> PowerIn(r).value == power)
  }

  lemma OneTrueReply(before: seq<Message>, m: Message, power: bool)
    requires PowerIn(m).Some? ==> PowerIn(m).value == power
    ensures Truthful(before, before + [m], power)
  {}

  lemma OtherLanX(h: Handling, a: Addr, m: Message, serial: uint32)
    requires !IsPowerRequest(m) && m.Packet? && m.header == LanX
    ensures var h' := HandleMessage(h, a, m, serial);
            h'.st == h.st && h'.flags == h.flags && Truthful(h.replies, h'.replies, h.st.power)
  {
    MessagesSpeak(h.st.power);
    OneTrueReply(h.replies, FirmwareMessage(), h.st.power);
    OneTrueReply(h.replies, StatusMessage(h.st.power), h.st.power);
  }

  predicate AboutSession(m: Message) {
    m.Packet? && (m.header == Logoff || m.header == SetBroadcastFlags)
  }

  lemma SessionRequest(h: Handling, a: Addr, m: Message, serial: uint32)
    requires AboutSession(m)
    ensures var h' := HandleMessage(h, a, m, serial);
            && h'.st == h.st.(clients := h'.st.clients) && h'.replies == h.replies
            && h'.st.clients - {a} == h.st.clients - {a}
  {}

  lemma Question(h: Handling, a: Addr, m: Message, serial: uint32)
    requires !AboutSession(m) && (m.Packet? ==> m.header != LanX)
    ensures var h' := HandleMessage(h, a, m, serial);
            h'.st == h.st && Truthful(h.replies, h'.replies, h.st.power)
  {
    StateSpeaks(h.st.power);
    var h' := HandleMessage(h, a, m, serial);
    if h'.replies != h.replies { OneTrueReply(h.replies, h'.replies[|h.replies|], h.st.power); }
  }

  /** Any other message leaves power and inboxes alone, leaves other sessions
      alone, and is answered, if at all, with the truth about the power. */
  lemma OtherRequest(h: Handling, a: Addr, m: Message, serial: uint32)
    requires !IsPowerRequest(m)
    ensures var h' := HandleMessage(h, a, m, serial);
            && h'.st.power == h.st.power && h'.st.inbox == h.st.inbox
            && h'.st.clients - {a} == h.st.clients - {a}
            && Truthful(h.replies, h'.replies, h.st.power)
  {
    if m.Packet? && m.header == LanX {
      OtherLanX(h, a, m, serial);
    } else if AboutSession(m) {
      SessionRequest(h, a, m, serial);
    } else {
      Question(h, a, m, serial);
    }
  }

  lemma OtherSessions(st: State, st': State, a: Addr, c: Addr)
    requires st'.clients - {a} == st.clients - {a} && c != a
    ensures Watching(st', c) <==> Watching(st, c)
  {
    assert c in st.clients <==> c in st.clients - {a};
    assert c in st'.clients <==> c in st'.clients - {a};
    assert c in st.clients ==> st.clients[c] == (st.clients - {a})[c] == (st'.clients - {a})[c] == st'.clients[c];
  }

  /** One message of a packet informs every other address that watches. */
  lemma MessageInforms(h: Handling, a: Addr, m: Message, serial: uint32, c: Addr)
    requires c != a && Watching(h.st, c)
    ensures var st' := HandleMessage(h, a, m, serial).st;
            Watching(st', c) && Informs(h.st, st', c)
  {
    if IsPowerRequest(m) {
      PowerRequest(h, a, m, serial);
      SetPowerTells(h.st, Asked(m), Some(a), c);
    } else {
      OtherRequest(h, a, m, serial);
      OtherSessions(h.st, HandleMessage(h, a, m, serial).st, a, c);
      InformsQuietly(h.st, HandleMessage(h, a, m, serial).st, c);
    }
  }

  lemma {:induction false} PacketInforms(st: State, a: Addr, msgs: seq<Message>, serial: uint32, c: Addr)
    requires c != a && Watching(st, c)
    ensures var st' := HandleMessages(Begin(st, a), a, msgs, serial).st;
            Watching(st', c) && Informs(st, st', c)
    decreases |msgs|
  {
    if msgs == [] {
      InformsQuietly(st, Begin(st, a).st, c);
    } else {
      var n := |msgs| - 1;
      var h := HandleMessages(Begin(st, a), a, msgs[..n], serial);
      PacketInforms(st, a, msgs[..n], serial, c);
      MessageInforms(h, a, msgs[n], serial, c);
      InformsInTurn(st, h.st, HandleMessage(h, a, msgs[n], serial).st, c);
    }
  }

  predicate LogsOff(msgs: seq<Message>) {
    exists i :: 0 <= i < |msgs| && msgs[i].Packet? && msgs[i].header == Logoff
  }

  /** The flags a session ends up with: the last ones it set, whole or not. */
  function LastFlags(flags: uint32, msgs: seq<Message>): uint32 {
    if msgs == [] then flags
    else
      var m := msgs[|msgs| - 1];
      if m.Packet? && m.header == SetBroadcastFlags && |m.data| >= 4 then Get32(m.data)
      else LastFlags(flags, msgs[..|msgs| - 1])
  }

  /** After a packet its sender is registered exactly if the packet nowhere logs
      off, even when it goes on to set flags; then it holds the flags it set last. */
  lemma SessionAfterPacket(st: State, a: Addr, msgs: seq<Message>, serial: uint32)
    ensures var after := Handle(st, Packets(a, msgs), serial);
            && (a in after.clients <==> !LogsOff(msgs))
            && (a in after.clients ==>
                  after.clients[a] == LastFlags(if a in st.clients then st.clients[a] else 0, msgs))
  {
    SessionDuring(st, a, msgs, serial);
  }

  lemma {:induction false} SessionDuring(st: State, a: Addr, msgs: seq<Message>, serial: uint32)
    ensures var h := HandleMessages(Begin(st, a), a, msgs, serial);
            && (a in h.st.clients <==> h.registered) && (h.registered <==> !LogsOff(msgs))
            && (h.registered ==> h.st.clients[a] == h.flags)
            && h.flags == LastFlags(if a in st.clients then st.clients[a] else 0, msgs)
    decreases |msgs|
  {
    if msgs != [] {
      var n := |msgs| - 1;
      SessionDuring(st, a, msgs[..n], serial);
      var h := HandleMessages(Begin(st, a), a, msgs[..n], serial);
      SessionNext(h, a, msgs[n], serial);
      assert msgs == msgs[..n] + [msgs[n]];
      assert LogsOff(msgs) <==> LogsOff(msgs[..n]) || (msgs[n].Packet? && msgs[n].header == Logoff) by {
        assert forall i :: 0 <= i < n ==> msgs[..n][i] == msgs[i];
      }
    }
  }

  lemma SessionNext(h: Handling, a: Addr, m: Message, serial: uint32)
    requires (a in h.st.clients <==> h.registered) && (h.registered ==> h.st.clients[a] == h.flags)
    ensures var h' := HandleMessage(h, a, m, serial);
            && (a in h'.st.clients <==> h'.registered) && (h'.registered ==> h'.st.clients[a] == h'.flags)
            && (h'.registered <==> h.registered && !(m.Packet? && m.header == Logoff))
            && h'.flags == if m.Packet? && m.header == SetBroadcastFlags && |m.data| >= 4 then Get32(m.data) else h.flags
  {
    if IsPowerRequest(m) {
      PowerRequest(h, a, m, serial);
      SetPowerTells(h.st, Asked(m), Some(a), a);
    }
  }

  // ---- replies, byte by byte ----

  /** The requests that only ask are answered and change nothing.  Status: the
      central state with the track voltage bit set exactly if the power is off;
      firmware: 1.20. */
  lemma LanXAnswered(h: Handling, a: Addr, rest: seq<uint8>, serial: uint32)
    ensures HandleMessage(h, a, Packet(LanX, [0x21, 0x24] + rest), serial)
         == Reply(h, Packet(LanX, WithChecksum([0x62, 0x22, if h.st.power then 0 else 2])))
    ensures HandleMessage(h, a, Packet(LanX, [0xF1, 0x0A] + rest), serial)
         == Reply(h, Packet(LanX, WithChecksum([0xF3, 0x0A, 0x01, 0x20])))
  {
    assert ([0x21, 0x24] + rest)[0] == 0x21 && ([0x21, 0x24] + rest)[1] == 0x24;
    assert ([0xF1, 0x0A] + rest)[0] == 0xF1 && ([0xF1, 0x0A] + rest)[1] == 0x0A;
  }

  /** Serial number, code, hardware and firmware: the server's own; system state:
      the power's; flags: the session's.  All numbers read back off the reply. */
  lemma QuestionsAnswered(h: Handling, a: Addr, data: seq<uint8>, serial: uint32)
    ensures Get32(Put32(serial)) == serial && Get32(Put32(h.flags)) == h.flags
    ensures HandleMessage(h, a, Packet(GetSerialNumber, data), serial) == Reply(h, Packet(GetSerialNumber, Put32(serial)))
    ensures HandleMessage(h, a, Packet(GetCode, data), serial) == Reply(h, Packet(GetCode, [0]))
    ensures HandleMessage(h, a, Packet(GetHWInfo, data), serial)
         == Reply(h, Packet(GetHWInfo, [0x01, 0x02, 0, 0, 0x20, 0x01, 0, 0]))
    ensures HandleMessage(h, a, Packet(SystemStateGetData, data), serial) == Reply(h, StateMessage(h.st.power))
    ensures HandleMessage(h, a, Packet(GetBroadcastFlags, data), serial) == Reply(h, Packet(GetBroadcastFlags, Put32(h.flags)))
  {
    Get32Put32(serial);
    Get32Put32(h.flags);
    assert Put32(0x201) + Put32(FIRMWARE_VERSION) == [0x01, 0x02, 0, 0, 0x20, 0x01, 0, 0];
  }

  /** The bytes that switch the power, and the bytes that answer. */
  lemma PowerBytes(h: Handling, a: Addr, rest: seq<uint8>, serial: uint32)
    ensures HandleMessage(h, a, Packet(LanX, [0x21, 0x80] + rest), serial)
         == Reply(h.(st := SetPower(h.st, false, Some(a))), Packet(LanX, WithChecksum([0x61, 0x00])))
    ensures HandleMessage(h, a, Packet(LanX, [0x21, 0x81] + rest), serial)
         == Reply(h.(st := SetPower(h.st, true, Some(a))), Packet(LanX, WithChecksum([0x61, 0x01])))
    ensures SetPower(h.st, false, Some(a)).power == false && SetPower(h.st, true, Some(a)).power == true
  {
    assert ([0x21, 0x80] + rest)[0] == 0x21 && ([0x21, 0x80] + rest)[1] == 0x80;
    assert ([0x21, 0x81] + rest)[0] == 0x21 && ([0x21, 0x81] + rest)[1] == 0x81;
  }

  /** The system state: main currents 100 and 80 mA, 42 degrees, 10000 and 1000
      mV, the central state with the track voltage bit, and the capabilities. */
  lemma StateLayout(power: bool)
    ensures StateMessage(power)
         == Packet(SystemStateDataChanged,
                   [100, 0, 0, 0, 80, 0, 42, 0, 0x10, 0x27, 0xE8, 0x03, if power then 0 else 2, 0, 0, 0x31])
  {
    Concatenated(Put16(100), Put16(80), Put16(42), Put16(10000), Put16(1000), CentralState(power));
  }

  lemma Concatenated(a: seq<uint8>, b: seq<uint8>, c: seq<uint8>, d: seq<uint8>, e: seq<uint8>, s: uint8)
    requires |a| == |b| == |c| == |d| == |e| == 2
    ensures a + [0, 0] + b + c + d + e + [s, 0, 0, 0x31]
         == [a[0], a[1], 0, 0, b[0], b[1], c[0], c[1], d[0], d[1], e[0], e[1], s, 0, 0, 0x31]
  {}

  /** Flags set in a packet are what a request for them later in it returns, byte for byte. */
  lemma FlagsReadBack(h: Handling, a: Addr, data: seq<uint8>, ask: seq<uint8>, serial: uint32)
    requires |data| >= 4
    ensures var h1 := HandleMessage(h, a, Packet(SetBroadcastFlags, data), serial);
            && HandleMessage(h1, a, Packet(GetBroadcastFlags, ask), serial) == Reply(h1, Packet(GetBroadcastFlags, data[..4]))
            && h1.flags == Get32(data)
            && (h.registered ==> a in h1.st.clients && h1.st.clients[a] == Get32(data))
  {
    Put32Get32(data);
  }

  // ---- the requester ----

  ghost predicate OnlyStates(msgs: seq<Message>) {
    forall m :: m in msgs ==> m.Packet? && m.header == SystemStateDataChanged
  }

  /** Between two states an address was sent system states and nothing else. */
  ghost predicate HeardOnlyStates(st: State, st': State, a: Addr) {
    exists states :: OnlyStates(states) && Inbox(st', a) == Inbox(st, a) + states
  }

  lemma HeardNothing(st: State, st': State, a: Addr)
    requires Inbox(st', a) == Inbox(st, a)
    ensures HeardOnlyStates(st, st', a)
  {
    assert OnlyStates([]) && Inbox(st', a) == Inbox(st, a) + [];
  }

  lemma HeardInTurn(st: State, mid: State, st': State, a: Addr)
    requires HeardOnlyStates(st, mid, a) && HeardOnlyStates(mid, st', a)
    ensures HeardOnlyStates(st, st', a)
  {
    var x :| OnlyStates(x) && Inbox(mid, a) == Inbox(st, a) + x;
    var y :| OnlyStates(y) && Inbox(st', a) == Inbox(mid, a) + y;
    assert OnlyStates(x + y) && Inbox(st', a) == Inbox(st, a) + (x + y);
  }

  lemma RequesterHearsNext(h: Handling, a: Addr, m: Message, serial: uint32)
    ensures HeardOnlyStates(h.st, HandleMessage(h, a, m, serial).st, a)
  {
    if IsPowerRequest(m) {
      PowerRequest(h, a, m, serial);
      SetPowerTells(h.st, Asked(m), Some(a), a);
      assert OnlyStates([]) && OnlyStates(Announcement(h.st, Asked(m), Some(a), a));
    } else {
      OtherRequest(h, a, m, serial);
      HeardNothing(h.st, HandleMessage(h, a, m, serial).st, a);
    }
  }

  lemma {:induction false} RequesterHearsOnlyStates(st: State, a: Addr, msgs: seq<Message>, serial: uint32)
    ensures HeardOnlyStates(st, HandleMessages(Begin(st, a), a, msgs, serial).st, a)
    decreases |msgs|
  {
    if msgs == [] {
      HeardNothing(st, Begin(st, a).st, a);
    } else {
      var n := |msgs| - 1;
      var h := HandleMessages(Begin(st, a), a, msgs[..n], serial);
      RequesterHearsOnlyStates(st, a, msgs[..n], serial);
      RequesterHearsNext(h, a, msgs[n], serial);
      HeardInTurn(st, h.st, HandleMessage(h, a, msgs[n], serial).st, a);
    }
  }

  /** The requester gets its replies, last, and never the XpressNet broadcast of
      its own change: whatever else it is sent meanwhile is a system state. */
  lemma RequesterGetsItsReplies(st: State, a: Addr, msgs: seq<Message>, serial: uint32)
    ensures var h := HandleMessages(Begin(st, a), a, msgs, serial);
            && HeardOnlyStates(st, h.st, a)
            && Inbox(Handle(st, Packets(a, msgs), serial), a) == Inbox(h.st, a) + h.replies
  {
    RequesterHearsOnlyStates(st, a, msgs, serial);
    var h := HandleMessages(Begin(st, a), a, msgs, serial);
    if h.replies == [] {
      assert Inbox(h.st, a) + [] == Inbox(h.st, a);
    }
  }

  /** The exception is real: a requester registered for system states is sent
      one about the change it made itself, ahead of its reply. */
  lemma RequesterHearsSystemState(st: State, a: Addr, m: Message, serial: uint32)
    requires IsPowerRequest(m) && Asked(m) != st.power && Subscribed(st, a, FLAG_SYSTEM_STATE)
    ensures Inbox(Handle(st, Packets(a, [m]), serial), a)
         == Inbox(st, a) + [StateMessage(Asked(m)), PowerMessage(Asked(m))]
  {
    var h, on := Begin(st, a), Asked(m);
    RequesterGetsItsReplies(st, a, [m], serial);
    OneMessage(h, a, m, serial);
    PowerRequest(h, a, m, serial);
    SetPowerTells(st, on, Some(a), a);
    OwnAnnouncement(st, on, a);
    assert HandleMessage(h, a, m, serial).replies == [PowerMessage(on)];
    assert (Inbox(st, a) + [StateMessage(on)]) + [PowerMessage(on)]
        == Inbox(st, a) + [StateMessage(on), PowerMessage(on)];
  }

  lemma OneMessage(h: Handling, a: Addr, m: Message, serial: uint32)
    ensures HandleMessages(h, a, [m], serial) == HandleMessage(h, a, m, serial)
  {
    assert [m][..0] == [];
  }

  lemma OwnAnnouncement(st: State, on: bool, a: Addr)
    requires Subscribed(st, a, FLAG_SYSTEM_STATE)
    ensures Announcement(st, on, Some(a), a) == [StateMessage(on)]
  {}

  // ---- runs ----

  /** What the sender of a packet knows once its replies so far are read after
      the system states it was sent meanwhile. */
  ghost predicate SenderKnows(st: State, h: Handling, a: Addr) {
    exists told :: Inbox(h.st, a) == Inbox(st, a) + told && Known(Known(st.power, told), h.replies) == h.st.power
  }

  lemma KnownSnoc(v: bool, msgs: seq<Message>, m: Message)
    ensures Known(v, msgs + [m]) == match PowerIn(m) case Some(p) => p case None => Known(v, msgs)
  {
    assert (msgs + [m])[..|msgs|] == msgs;
  }

  /** More is sent and one more reply given, after which the power is known. */
  lemma SenderKnowsMore(st: State, h: Handling, a: Addr, h': Handling, more: seq<Message>)
    requires SenderKnows(st, h, a) && Inbox(h'.st, a) == Inbox(h.st, a) + more
    requires forall v :: Known(v, h'.replies) == h'.st.power
    ensures SenderKnows(st, h', a)
  {
    var told :| Inbox(h.st, a) == Inbox(st, a) + told && Known(Known(st.power, told), h.replies) == h.st.power;
    assert Inbox(h'.st, a) == Inbox(st, a) + (told + more);
  }

  lemma SenderKnowsRequest(st: State, h: Handling, a: Addr, on: bool, h': Handling)
    requires SenderKnows(st, h, a)
    requires h'.st == SetPower(h.st, on, Some(a)) && h'.replies == h.replies + [PowerMessage(on)]
    ensures SenderKnows(st, h', a)
  {
    SetPowerTells(h.st, on, Some(a), a);
    PowerSpeaks(on);
    forall v ensures Known(v, h'.replies) == on { KnownSnoc(v, h.replies, PowerMessage(on)); }
    SenderKnowsMore(st, h, a, h', if h.st.power == on then [] else Announcement(h.st, on, Some(a), a));
  }

  lemma SenderKnowsOther(st: State, h: Handling, a: Addr, h': Handling)
    requires SenderKnows(st, h, a)
    requires h'.st.power == h.st.power && Inbox(h'.st, a) == Inbox(h.st, a)
    requires Truthful(h.replies, h'.replies, h.st.power)
    ensures SenderKnows(st, h', a)
  {
    var told :| Inbox(h.st, a) == Inbox(st, a) + told && Known(Known(st.power, told), h.replies) == h.st.power;
    if h'.replies != h.replies {
      var r :| h'.replies == h.replies + [r] && (PowerIn(r).Some? ==> PowerIn(r).value == h.st.power);
      KnownSnoc(Known(st.power, told), h.replies, r);
    }
    assert Inbox(h'.st, a) == Inbox(st, a) + told;
  }

  lemma SenderKnowsNext(st: State, h: Handling, a: Addr, m: Message, serial: uint32)
    requires SenderKnows(st, h, a)
    ensures SenderKnows(st, HandleMessage(h, a, m, serial), a)
  {
    if IsPowerRequest(m) {
      PowerRequest(h, a, m, serial);
      SenderKnowsRequest(st, h, a, Asked(m), HandleMessage(h, a, m, serial));
    } else {
      OtherRequest(h, a, m, serial);
      SenderKnowsOther(st, h, a, HandleMessage(h, a, m, serial));
    }
  }

  lemma {:induction false} SenderKnowsAll(st: State, a: Addr, msgs: seq<Message>, serial: uint32)
    ensures SenderKnows(st, HandleMessages(Begin(st, a), a, msgs, serial), a)
    decreases |msgs|
  {
    if msgs == [] {
      assert Inbox(Begin(st, a).st, a) == Inbox(st, a) + [];
    } else {
      var n := |msgs| - 1;
      SenderKnowsAll(st, a, msgs[..n], serial);
      SenderKnowsNext(st, HandleMessages(Begin(st, a), a, msgs[..n], serial), a, msgs[n], serial);
    }
  }

  /** A packet informs its own sender, watching or not: its replies have the last word. */
  lemma SenderInformed(st: State, a: Addr, msgs: seq<Message>, serial: uint32)
    ensures Informs(st, Handle(st, Packets(a, msgs), serial), a)
  {
    SenderKnowsAll(st, a, msgs, serial);
    FinishInforms(st, HandleMessages(Begin(st, a), a, msgs, serial), a);
  }

  lemma FinishInforms(st: State, h: Handling, a: Addr)
    requires SenderKnows(st, h, a)
    ensures Informs(st, Finish(h, a), a)
  {
    var told :| Inbox(h.st, a) == Inbox(st, a) + told && Known(Known(st.power, told), h.replies) == h.st.power;
    KnownAppend(st.power, told, h.replies);
    assert Inbox(h.st, a) + h.replies == Inbox(st, a) + (told + h.replies);
    assert h.replies == [] ==> Inbox(h.st, a) + h.replies == Inbox(h.st, a);
    assert Inbox(Finish(h, a), a) == Inbox(st, a) + (told + h.replies);
  }

  /** Whatever happens informs every address that watches. */
  lemma StepInforms(st: State, e: Happening, serial: uint32, c: Addr)
    requires Watching(st, c)
    ensures Informs(st, Handle(st, e, serial), c)
  {
    match e
    case Malformed(_) => InformsQuietly(st, st, c);
    case SetTrackPower(on) => SetPowerTells(st, on, None, c);
    case BroadcastState =>
      BroadcastTells(st, [StateMessage(st.power)], FLAG_SYSTEM_STATE, None, c);
      StateSpeaks(st.power);
      KnownOne(st.power, StateMessage(st.power));
      assert Known(st.power, []) == st.power;
    case Packets(a, msgs) =>
      if c == a {
        SenderInformed(st, a, msgs, serial);
      } else {
        var h := HandleMessages(Begin(st, a), a, msgs, serial);
        PacketInforms(st, a, msgs, serial, c);
        InformsQuietly(h.st, Finish(h, a), c);
        InformsInTurn(st, h.st, Finish(h, a), c);
      }
  }

  function After(st: State, es: seq<Happening>, serial: uint32): State {
    if es == [] then st else Handle(After(st, es[..|es| - 1], serial), es[|es| - 1], serial)
  }

  lemma {:induction false} RunInforms(st: State, es: seq<Happening>, serial: uint32, c: Addr)
    requires forall k :: 0 <= k < |es| ==> Watching(After(st, es[..k], serial), c)
    ensures Informs(st, After(st, es, serial), c)
    decreases |es|
  {
    if es == [] {
      InformsQuietly(st, st, c);
    } else {
      var n := |es| - 1;
      assert forall k :: 0 <= k < n ==> es[..n][..k] == es[..k];
      RunInforms(st, es[..n], serial, c);
      StepInforms(After(st, es[..n], serial), es[n], serial, c);
      InformsInTurn(st, After(st, es[..n], serial), After(st, es, serial), c);
    }
  }

  predicate Speaks(msgs: seq<Message>) {
    exists i :: 0 <= i < |msgs| && PowerIn(msgs[i]).Some?
  }

  /** Messages that speak of the power leave the same knowledge whatever was known before; others leave it alone. */
  lemma {:induction false} SpeakingDecides(v: bool, w: bool, msgs: seq<Message>)
    ensures if Speaks(msgs) then Known(v, msgs) == Known(w, msgs) else Known(v, msgs) == v
  {
    if msgs != [] {
      var n := |msgs| - 1;
      SpeakingDecides(v, w, msgs[..n]);
      assert forall i :: 0 <= i < n ==> msgs[..n][i] == msgs[i];
      if PowerIn(msgs[n]).None? && Speaks(msgs) {
        var i :| 0 <= i < |msgs| && PowerIn(msgs[i]).Some?;
        assert PowerIn(msgs[..n][i]).Some?;
      }
    }
  }

  /** Agreement.  Take any run of packets and control calls during which a client
      stays registered for either kind of power announcement.  If any power value
      reached it, the last one is the server's power, whatever the client
      believed before and whoever made the changes; if none did, the power is
      what it was. */
  lemma WatchersAgree(st: State, es: seq<Happening>, serial: uint32, c: Addr)
    requires forall k :: 0 <= k < |es| ==> Watching(After(st, es[..k], serial), c)
    ensures var st' := After(st, es, serial);
            exists told :: Inbox(st', c) == Inbox(st, c) + told
              && (Speaks(told) ==> Known(true, told) == st'.power && Known(false, told) == st'.power)
              && (!Speaks(told) ==> st'.power == st.power)
  {
    RunInforms(st, es, serial, c);
    var st' := After(st, es, serial);
    var told :| Inbox(st', c) == Inbox(st, c) + told && Known(st.power, told) == st'.power;
    SpeakingDecides(st.power, true, told);
    SpeakingDecides(st.power, false, told);
  }
}

/** apps/z21-sim/internal/server: the simulator's packet handling as it runs,
    over sessions shared between the client table and the packet in hand. */
module SimServer {
  import opened Basics
  import opened Wire
  import Spec = TrackPower
  import opened TrackPower

  class ClientSession {
    const addr: Addr
    var broadcastFlags: uint32

    constructor (addr: Addr)
      ensures this.addr == addr && broadcastFlags == 0
    {
      this.addr, broadcastFlags := addr, 0;
    }
  }

  class Server {
    const serial: uint32
    var trackPower: bool
    var clients: map<Addr, ClientSession>
    var inbox: map<Addr, seq<Message>>

    ghost function View(): State
      reads this, clients.Values
    {
      State(trackPower, map a | a in clients :: clients[a].broadcastFlags, inbox)
    }

    /** Each client has a session of its own. */
    ghost predicate Valid()
      reads this, clients.Values
    {
      && (forall a :: a in clients ==> clients[a].addr == a)
      && (forall a, b :: a in clients && b in clients && clients[a] == clients[b] ==> a == b)
    }

    constructor (serial: uint32)
      ensures Valid() && this.serial == serial && View() == State(true, map[], map[])
    {
      this.serial := serial;
      trackPower, clients, inbox := true, map[], map[];
    }

    method Send(a: Addr, msgs: seq<Message>)
      modifies this`inbox
      ensures inbox == old(inbox)[a := Received(old(inbox), a) + msgs]
    {
      inbox := inbox[a := Received(inbox, a) + msgs];
    }

    method SubscriberAddrs(flag: uint32) returns (out: set<Addr>)
      requires Valid() && flag > 0
      ensures out == Recipients(View(), flag, None)
    {
      out := {};
      var todo := clients.Keys;
      while todo != {}
        invariant todo <= clients.Keys
        invariant forall a :: a in out <==> a in clients.Keys - todo && HasFlag(clients[a].broadcastFlags, flag)
        decreases todo
      {
        var a :| a in todo;
        if HasFlag(clients[a].broadcastFlags, flag) { out := out + {clients[a].addr}; }
        todo := todo - {a};
      }
    }

    /** One datagram to each recipient, in no particular order; the number sent. */
    method BroadcastMany(msgs: seq<Message>, flag: uint32, except: Option<Addr>) returns (sent: nat)
      requires Valid() && flag > 0
      modifies this`inbox
      ensures Valid() && View() == if msgs == [] then old(View()) else Broadcast(old(View()), msgs, flag, except)
      ensures sent == if msgs == [] then 0 else |Recipients(old(View()), flag, except)|
    {
      if msgs == [] { return 0; }
      var recipients := RecipientAddrs(flag, except);
      sent := SendAll(recipients, msgs);
    }

    method RecipientAddrs(flag: uint32, except: Option<Addr>) returns (out: set<Addr>)
      requires Valid() && flag > 0
      ensures out == Recipients(View(), flag, except)
    {
      out := SubscriberAddrs(flag);
      AllButOne(View(), flag, except);
      if except.Some? { out := out - {except.value}; }
    }

    method SendAll(recipients: set<Addr>, msgs: seq<Message>) returns (sent: nat)
      modifies this`inbox
      ensures sent == |recipients|
      ensures View() == old(View()).(inbox := SendTo(old(inbox), recipients, msgs))
    {
      ghost var before := inbox;
      var todo := recipients;
      sent := 0;
      assert recipients - todo == {};
      SendToNobody(inbox, msgs);
      while todo != {}
        invariant todo <= recipients && sent == |recipients| - |todo|
        invariant inbox == SendTo(before, recipients - todo, msgs)
        decreases todo
      {
        var a :| a in todo;
        SendNext(before, recipients, todo, msgs, a);
        Send(a, msgs);
        sent := sent + 1;
        todo := todo - {a};
      }
      assert recipients - {} == recipients;
    }

    method SetPowerField(on: bool) returns (changed: bool)
      modifies this`trackPower
      ensures trackPower == on && changed == (old(trackPower) != on)
    {
      if trackPower == on { return false; }
      trackPower := on;
      return true;
    }

    method NotifyTrackPowerChange(on: bool, except: Option<Addr>)
      requires Valid()
      modifies this`inbox
      ensures Valid() && View() == Notify(old(View()), on, except)
    {
      var sent := BroadcastMany([PowerMessage(on), StatusMessage(trackPower)], FLAG_XPRESSNET, except);
      sent := BroadcastMany([StateMessage(trackPower)], FLAG_SYSTEM_STATE, None);
    }

    /** The control plane's switch: tells whether the power changed. */
    method SetTrackPowerAndNotify(on: bool) returns (changed: bool)
      requires Valid()
      modifies this`trackPower, this`inbox
      ensures Valid() && View() == Handle(old(View()), SetTrackPower(on), serial)
      ensures changed <==> old(trackPower) != on
    {
      ghost var st := View();
      changed := SetPowerField(on);
      assert View() == st.(power := on);
      if !changed { return false; }
      NotifyTrackPowerChange(on, None);
      return true;
    }

    method BroadcastSystemState() returns (sent: nat)
      requires Valid()
      modifies this`inbox
      ensures Valid() && View() == Handle(old(View()), BroadcastState, serial)
      ensures sent == |Recipients(old(View()), FLAG_SYSTEM_STATE, None)|
    {
      sent := BroadcastMany([StateMessage(trackPower)], FLAG_SYSTEM_STATE, None);
    }

    method HandleLANX(a: Addr, data: seq<uint8>) returns (reply: Option<Message>)
      requires Valid()
      modifies this`trackPower, this`inbox
      ensures Valid()
      ensures (View(), reply) == HandleLanX(old(View()), a, data)
    {
      if |data| < 2 { return None; }
      if data[0] == GET_FIRMWARE {
        if data[1] == FIRMWARE_DB0 { return Some(FirmwareMessage()); }
      } else if data[0] == GET_VERSION {
        if data[1] == GET_STATUS { return Some(StatusMessage(trackPower)); }
        if data[1] == POWER_OFF || data[1] == POWER_ON {
          var on := data[1] == POWER_ON;
          ghost var st := View();
          var changed := SetPowerField(on);
          assert View() == st.(power := on);
          if changed { NotifyTrackPowerChange(on, Some(a)); }
          return Some(PowerMessage(on));
        }
      }
      return None;
    }

    /** The session of an address, created without flags on its first packet. */
    method SessionFor(a: Addr) returns (session: ClientSession)
      requires Valid()
      modifies this`clients
      ensures Valid() && View() == Begin(old(View()), a).st
      ensures Owns(a, session) && Progress(a, session, []) == Begin(old(View()), a)
      ensures clients == old(clients) || (a !in old(clients) && clients == old(clients)[a := session] && fresh(session))
    {
      if a in clients { return clients[a]; }
      session := NewSession(a);
    }

    method NewSession(a: Addr) returns (session: ClientSession)
      requires Valid() && a !in clients
      modifies this`clients
      ensures Valid() && Owns(a, session) && fresh(session) && clients == old(clients)[a := session]
      ensures session.broadcastFlags == 0
      ensures View() == old(View()).(clients := old(View()).clients[a := 0])
    {
      session := new ClientSession(a);
      AddSession(a, session);
    }

    method AddSession(a: Addr, session: ClientSession)
      requires Valid() && a !in clients && session.addr == a && session.broadcastFlags == 0
      requires forall b :: b in clients ==> clients[b] != session
      modifies this`clients
      ensures Valid() && Owns(a, session) && clients == old(clients)[a := session]
      ensures View() == old(View()).(clients := old(View()).clients[a := 0])
    {
      clients := clients[a := session];
    }

    /** What handling has come to, with `session` the one it began with. */
    ghost function Progress(a: Addr, session: ClientSession, replies: seq<Message>): Handling
      reads this, clients.Values, session
    {
      Handling(View(), a in clients && clients[a] == session, session.broadcastFlags, replies)
    }

    /** `session` is registered under `a` or not at all. */
    ghost predicate Owns(a: Addr, session: ClientSession)
      reads this
    {
      forall b :: b in clients && (b == a || clients[b] == session) ==> b == a && clients[b] == session
    }

    method RemoveClient(a: Addr, session: ClientSession)
      requires Valid() && Owns(a, session)
      modifies this`clients
      ensures Valid() && Owns(a, session) && clients == old(clients) - {a}
      ensures View() == old(View()).(clients := old(View()).clients - {a})
    {
      clients := clients - {a};
    }

    /** The flags reach the client table only if the session is still in it. */
    method SetFlags(a: Addr, session: ClientSession, flags: uint32)
      requires Valid() && Owns(a, session)
      modifies session
      ensures Valid() && Owns(a, session) && session.broadcastFlags == flags
      ensures View() == if a in clients then old(View()).(clients := old(View()).clients[a := flags]) else old(View())
    {
      session.broadcastFlags := flags;
    }

    /** One message of a packet, with the replies collected so far. */
    method HandleOne(a: Addr, session: ClientSession, m: Message, replies: seq<Message>) returns (out: seq<Message>)
      requires Valid() && Owns(a, session)
      modifies this, session
      ensures Valid() && Owns(a, session) && clients.Values <= old(clients.Values)
      ensures Progress(a, session, out) == HandleMessage(old(Progress(a, session, replies)), a, m, serial)
    {
      out := replies;
      if !m.Packet? { return; }
      if m.header == Logoff {
        RemoveClient(a, session);
      } else if m.header == SetBroadcastFlags {
        if |m.data| >= 4 { SetFlags(a, session, Get32(m.data)); }
      } else if m.header == LanX {
        var reply := HandleLANX(a, m.data);
        if reply.Some? { out := replies + [reply.value]; }
      } else {
        out := Answer(session, m, replies);
      }
    }

    /** The requests that only ask. */
    method Answer(session: ClientSession, m: Message, replies: seq<Message>) returns (out: seq<Message>)
      requires Valid() && m.Packet? && m.header != Logoff && m.header != SetBroadcastFlags && m.header != LanX
      ensures forall a, registered :: Handling(View(), registered, session.broadcastFlags, out)
                == HandleMessage(Handling(View(), registered, session.broadcastFlags, replies), a, m, serial)
    {
      out := replies;
      match m.header {
        case GetHWInfo => out := replies + [Packet(GetHWInfo, Put32(0x201) + Put32(FIRMWARE_VERSION))];
        case GetSerialNumber => out := replies + [Packet(GetSerialNumber, Put32(serial))];
        case GetCode => out := replies + [Packet(GetCode, [0])];
        case GetBroadcastFlags => out := replies + [Packet(GetBroadcastFlags, Put32(session.broadcastFlags))];
        case SystemStateGetData => out := replies + [StateMessage(trackPower)];
        case _ =>
      }
    }

    /** One packet, nothing if it does not parse: its messages in order, then one datagram of replies. */
    method HandlePacket(a: Addr, parsed: Option<seq<Message>>)
      requires Valid()
      modifies this, clients.Values
      ensures Valid()
      ensures View() == Handle(old(View()), if parsed.Some? then Packets(a, parsed.value) else Malformed(a), serial)
    {
      if parsed.None? { return; }
      var session := SessionFor(a);
      var replies := HandleAll(a, session, parsed.value);
      SendReplies(a, replies);
    }

    method SendReplies(a: Addr, replies: seq<Message>)
      requires Valid()
      modifies this`inbox
      ensures Valid() && View() == if replies == [] then old(View()) else Deliver(old(View()), a, replies)
    {
      if replies != [] { Send(a, replies); }
    }

    method HandleAll(a: Addr, session: ClientSession, msgs: seq<Message>) returns (replies: seq<Message>)
      requires Valid() && Owns(a, session)
      modifies this, session
      ensures Valid() && Owns(a, session)
      ensures Progress(a, session, replies) == HandleMessages(old(Progress(a, session, [])), a, msgs, serial)
    {
      ghost var h := Progress(a, session, []);
      replies := [];
      var i := 0;
      while i < |msgs|
        invariant 0 <= i <= |msgs|
        invariant Valid() && Owns(a, session)
        invariant Progress(a, session, replies) == HandleMessages(h, a, msgs[..i], serial)
      {
        HandleOneMore(h, a, msgs, i, serial);
        replies := HandleOne(a, session, msgs[i], replies);
        i := i + 1;
      }
      assert msgs[..i] == msgs;
    }
  }
}

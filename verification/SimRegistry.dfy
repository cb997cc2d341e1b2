/** apps/z21-sim/internal/server/can.go: the simulated CAN modules. */
module SimRegistry {
  import opened Basics
  import opened Wire

  const FREE_WITH_VOLTAGE: uint16 := 0x0100
  const NAME_LENGTH: nat := 16

  datatype Kind = NoKind | DetectorKind | BoosterKind

  /** Ports carry one occupancy value each; boosters have none. */
  datatype Device = Device(kind: Kind, netID: uint16, name: seq<uint8>, moduleAddr: uint16, ports: seq<uint16>)

  type Registry = map<uint16, Device>

  /** `uint16(x)` of a wider parameter. */
  function Trunc16(x: uint32): uint16 {
    x % 0x1_0000
  }

  function NewDetector(netID: uint16, name: seq<uint8>, moduleAddr: uint16, portCount: uint16): Device {
    var n := if portCount == 0 then 1 else portCount;
    Device(DetectorKind, netID, name, if moduleAddr == 0 then 1 else moduleAddr, seq(n, _ => FREE_WITH_VOLTAGE))
  }

  function NewBooster(netID: uint16, name: seq<uint8>): Device {
    Device(BoosterKind, netID, name, 0, [])
  }

  /** BuildCANDevice: the network id must be a non-zero 16-bit value and the kind known. */
  function Build(netID: uint32, kind: Kind, name: seq<uint8>, moduleAddr: uint32, portCount: uint32): Option<Device> {
    if netID == 0 || netID > 0xFFFF then None
    else
      match kind
      case DetectorKind => Some(NewDetector(Trunc16(netID), name, Trunc16(moduleAddr), Trunc16(portCount)))
      case BoosterKind => Some(NewBooster(Trunc16(netID), name))
      case NoKind => None
  }

  function Register(reg: Registry, d: Device): Registry {
    reg[d.netID := d]
  }

  function Repeat(x: uint8, n: nat): seq<uint8> {
    seq(n, _ => x)
  }

  /** A name cut or zero-padded to its field. */
  function EncodeName(name: seq<uint8>): seq<uint8> {
    if |name| >= NAME_LENGTH then name[..NAME_LENGTH] else name + Repeat(0, NAME_LENGTH - |name|)
  }

  function EncodeDescription(netID: uint16, name: seq<uint8>): seq<uint8> {
    Put16(netID) + EncodeName(name)
  }

  function ParseName(raw: seq<uint8>): seq<uint8> {
    if raw == [] || raw[0] == 0 then [] else [raw[0]] + ParseName(raw[1..])
  }

  /** The answer to a request for a description: the id back, and the device's name if there is one. */
  function Describe(reg: Registry, data: seq<uint8>): Option<Message> {
    if |data| < 2 then None
    else
      var n := Get16(data[0..2]);
      Some(Packet(CanGetDescription, EncodeDescription(n, if n in reg then reg[n].name else [])))
  }

  /** The device a description names, created without a kind if unknown. */
  function SetDescription(reg: Registry, netID: uint16, name: seq<uint8>): Registry {
    reg[netID := if netID in reg then reg[netID].(name := name) else Device(NoKind, netID, name, 0, [])]
  }

  function ReportMessage(d: Device, port: nat): Message
    requires port < |d.ports|
  {
    Packet(CanDetector, EncodeReport(Report(d.netID, d.moduleAddr, port % 0x100, OCCUPANCY, d.ports[port], 0)))
  }

  /** One report per port; the port number on the wire is a byte. */
  function Reports(d: Device): seq<Message> {
    seq(|d.ports|, i requires 0 <= i < |d.ports| => ReportMessage(d, i))
  }

  /** A maintenance command readdresses a detector the registry knows. */
  function Readdress(reg: Registry, netID: uint16, addr: uint16): Registry {
    if netID in reg && reg[netID].kind == DetectorKind then reg[netID := reg[netID].(moduleAddr := addr)] else reg
  }

  /** What happens to the registry, apart from registration. */
  function HandleState(reg: Registry, msg: Message): Registry {
    match msg
    case SetModuleAddress(netID, addr) => Readdress(reg, netID, addr)
    case Packet(CanSetDescription, data) =>
      if |data| < 2 + NAME_LENGTH then reg
      else SetDescription(reg, Get16(data[0..2]), ParseName(data[2..2 + NAME_LENGTH]))
    case _ => reg
  }

  /** The devices a poll asks for. */
  predicate Polled(reg: Registry, asked: uint16, netID: uint16) {
    netID in reg && reg[netID].kind == DetectorKind && (asked == POLL_ALL || asked == netID)
  }

  /** `msgs` is a full set of answers to a poll: each report of each polled
      device, in any order, and nothing else. */
  ghost predicate IsPollReply(reg: Registry, asked: uint16, msgs: seq<Message>) {
    && (forall m :: m in msgs ==>
          exists n, i :: Polled(reg, asked, n) && 0 <= i < |reg[n].ports| && m == ReportMessage(reg[n], i))
    && (forall n, i :: Polled(reg, asked, n) && 0 <= i < |reg[n].ports| ==> ReportMessage(reg[n], i) in msgs)
  }

  /** Devices sit under their own ids, and every detector has a port. */
  ghost predicate RegistryInv(reg: Registry) {
    forall n :: n in reg ==> reg[n].netID == n && (reg[n].kind == DetectorKind ==> |reg[n].ports| > 0)
  }

  class Simulator {
    var canDevices: Registry

    constructor ()
      ensures canDevices == map[]
    {
      canDevices := map[];
    }

    method RegisterCANDevice(d: Device)
      modifies this
      ensures canDevices == Register(old(canDevices), d)
    {
      canDevices := canDevices[d.netID := d];
    }

    method SetCANDescription(data: seq<uint8>) returns (ok: bool)
      modifies this
      ensures canDevices == HandleState(old(canDevices), Packet(CanSetDescription, data))
      ensures ok <==> |data| >= 2 + NAME_LENGTH
    {
      if |data| < 2 + NAME_LENGTH { return false; }
      var netID := Get16(data[0..2]);
      var name := ParseName(data[2..2 + NAME_LENGTH]);
      var device := if netID in canDevices then canDevices[netID] else Device(NoKind, netID, name, 0, []);
      canDevices := canDevices[netID := device.(name := name)];
      return true;
    }

    method GetCANDescription(data: seq<uint8>) returns (reply: Option<Message>)
      ensures reply == Describe(canDevices, data)
    {
      if |data| < 2 { return None; }
      var netID := Get16(data[0..2]);
      var name := if netID in canDevices then canDevices[netID].name else [];
      return Some(Packet(CanGetDescription, EncodeDescription(netID, name)));
    }

    method Maintain(msg: Message)
      requires !msg.Packet?
      modifies this
      ensures canDevices == HandleState(old(canDevices), msg)
    {
      if msg.BadMaintenance? { return; }
      if msg.netID !in canDevices || canDevices[msg.netID].kind != DetectorKind { return; }
      var device := canDevices[msg.netID];
      canDevices := canDevices[msg.netID := device.(moduleAddr := msg.addr)];
    }

    method DetectorReports(d: Device) returns (out: seq<Message>)
      ensures out == Reports(d)
    {
      out := [];
      for port := 0 to |d.ports|
        invariant out == Reports(d)[..port]
      {
        out := out + [ReportMessage(d, port)];
      }
    }

    /** A poll that is malformed goes unanswered; otherwise every polled detector reports each port. */
    method Poll(data: seq<uint8>) returns (out: Option<seq<Message>>)
      ensures out.None? <==> |data| < 3 || data[0] != 0
      ensures out.Some? ==> IsPollReply(canDevices, Get16(data[1..3]), out.value)
    {
      if |data| < 3 || data[0] != 0 { return None; }
      var netID := Get16(data[1..3]);
      var todo: set<uint16>;
      if netID == POLL_ALL {
        todo := set n | n in canDevices && canDevices[n].kind == DetectorKind;
      } else if netID in canDevices && canDevices[netID].kind == DetectorKind {
        todo := {netID};
      } else {
        todo := {};
      }
      assert forall n :: n in todo <==> Polled(canDevices, netID, n);
      var reports: seq<Message> := [];
      ghost var all := todo;
      while todo != {}
        invariant todo <= all
        invariant forall m :: m in reports <==>
                    exists n, i :: n in all - todo && 0 <= i < |canDevices[n].ports| && m == ReportMessage(canDevices[n], i)
        decreases todo
      {
        var n :| n in todo;
        var more := DetectorReports(canDevices[n]);
        ReportsMembers(canDevices[n]);
        reports := reports + more;
        todo := todo - {n};
      }
      return Some(reports);
    }
  }

  lemma ReportsMembers(d: Device)
    ensures forall m :: m in Reports(d) <==> exists i :: 0 <= i < |d.ports| && m == ReportMessage(d, i)
  {
    forall i | 0 <= i < |d.ports| ensures ReportMessage(d, i) in Reports(d) {
      assert Reports(d)[i] == ReportMessage(d, i);
    }
  }

  // ---- every registry the simulator can have ----

  datatype RegistryStep =
    | DoRegister(netID: uint32, kind: Kind, name: seq<uint8>, moduleAddr: uint32, portCount: uint32)
    | DoMessage(msg: Message)

  function ApplyToRegistry(reg: Registry, step: RegistryStep): Registry {
    match step
    case DoRegister(n, kind, name, a, ports) =>
      (match Build(n, kind, name, a, ports) case Some(d) => Register(reg, d) case None => reg)
    case DoMessage(msg) => HandleState(reg, msg)
  }

  function RegistryAfter(steps: seq<RegistryStep>): Registry {
    if steps == [] then map[] else ApplyToRegistry(RegistryAfter(steps[..|steps| - 1]), steps[|steps| - 1])
  }

  /** In every registry the control plane and the LAN can bring about, devices
      sit under their own non-ambiguous ids and every detector has a port. */
  lemma {:induction false} RegistriesAreSound(steps: seq<RegistryStep>)
    ensures RegistryInv(RegistryAfter(steps))
  {
    if steps != [] { RegistriesAreSound(steps[..|steps| - 1]); }
  }

  /** A description read back is the name that was set, exactly if the name fits
      its field and contains no zero byte. */
  lemma DescriptionRoundTrip(name: seq<uint8>)
    ensures ParseName(EncodeName(name)) == name <==> |name| <= NAME_LENGTH && 0 !in name
  {
    ParseNameIsZeroFree(EncodeName(name));
    if |name| <= NAME_LENGTH && 0 !in name {
      if |name| == NAME_LENGTH {
        assert EncodeName(name) == name + Repeat(0, 0);
      }
      ParsePadded(name, NAME_LENGTH - |name|);
    }
  }

  /** A name too long for its field is read back cut to it. */
  lemma LongNamesAreCut(name: seq<uint8>)
    requires |name| >= 16 && 0 !in name
    ensures ParseName(EncodeName(name)) == name[..16]
  {
    assert name[..16] + Repeat(0, 0) == name[..16];
    ParsePadded(name[..16], 0);
  }

  /** What a command to take an address changes: that of the detector it names, and nothing else. */
  lemma CommandExactly(reg: Registry, netID: uint16, addr: uint16)
    ensures var reg' := HandleState(reg, SetModuleAddress(netID, addr));
            && reg'.Keys == reg.Keys
            && (forall n :: n in reg && (n != netID || reg[n].kind != DetectorKind) ==> reg'[n] == reg[n])
            && (netID in reg && reg[netID].kind == DetectorKind ==>
                  && reg'[netID].moduleAddr == addr && reg'[netID].kind == DetectorKind
                  && reg'[netID].netID == reg[netID].netID && reg'[netID].name == reg[netID].name
                  && reg'[netID].ports == reg[netID].ports)
  {}

  lemma {:induction false} ParsePadded(name: seq<uint8>, n: nat)
    requires 0 !in name
    ensures ParseName(name + Repeat(0, n)) == name
  {
    if name != [] {
      assert (name + Repeat(0, n))[1..] == name[1..] + Repeat(0, n);
      ParsePadded(name[1..], n);
    }
  }

  lemma {:induction false} ParseNameIsZeroFree(raw: seq<uint8>)
    ensures 0 !in ParseName(raw) && |ParseName(raw)| <= |raw|
  {
    if raw != [] && raw[0] != 0 { ParseNameIsZeroFree(raw[1..]); }
  }

  /** The name in the answer to a request for the description of `n`. */
  function NameTold(reg: Registry, n: uint16): seq<uint8> {
    match Describe(reg, Put16(n))
    case Some(Packet(_, data)) => if |data| >= 18 then ParseName(data[2..18]) else []
    case _ => []
  }

  lemma NameToldIs(reg: Registry, n: uint16)
    ensures Describe(reg, Put16(n)).Some? && Describe(reg, Put16(n)).value.data[..2] == Put16(n)
    ensures NameTold(reg, n) == ParseName(EncodeName(if n in reg then reg[n].name else []))
  {
    var name := if n in reg then reg[n].name else [];
    Get16Put16(n);
    assert Put16(n)[0..2] == Put16(n);
    assert |EncodeName(name)| == 16;
    assert EncodeDescription(n, name)[2..18] == EncodeName(name) && EncodeDescription(n, name)[..2] == Put16(n);
  }

  /** Naming.  A name of at most 16 bytes without a zero among them, set by a
      message or given at registration, is what a request for the description
      then returns; setting it keeps the device's kind, address and ports, and
      all other devices; a device not known before becomes one of no kind, which
      answers no poll. */
  lemma NameReadBack(reg: Registry, n: uint16, name: seq<uint8>, d: Device)
    requires |name| <= 16 && 0 !in name && d.netID == n && d.name == name
    ensures NameTold(Register(reg, d), n) == name
    ensures var reg' := HandleState(reg, Packet(CanSetDescription, Put16(n) + EncodeName(name)));
            && NameTold(reg', n) == name
            && n in reg' && reg' - {n} == reg - {n}
            && (n in reg ==> reg'[n].kind == reg[n].kind && reg'[n].moduleAddr == reg[n].moduleAddr
                             && reg'[n].ports == reg[n].ports && reg'[n].netID == reg[n].netID)
            && (n !in reg ==> forall asked :: !Polled(reg', asked, n))
  {
    DescriptionRoundTrip(name);
    NameToldIs(Register(reg, d), n);
    NamedDevice(reg, n, name);
    NameToldIs(SetDescription(reg, n, name), n);
  }

  lemma NamedDevice(reg: Registry, n: uint16, name: seq<uint8>)
    requires |name| <= 16 && 0 !in name
    ensures HandleState(reg, Packet(CanSetDescription, Put16(n) + EncodeName(name))) == SetDescription(reg, n, name)
  {
    var data := Put16(n) + EncodeName(name);
    Get16Put16(n);
    DescriptionRoundTrip(name);
    assert |EncodeName(name)| == 16;
    assert data[0..2] == Put16(n) && data[2..2 + 16] == EncodeName(name);
  }

  /** What the control plane's parameters make of a detector: an id of 16 bits,
      not zero, is needed; address and port count are cut to 16 bits and are 1 if
      that leaves nothing; every port reports free, with track voltage. */
  lemma BuiltDetector(netID: uint32, name: seq<uint8>, moduleAddr: uint32, portCount: uint32)
    ensures var d := Build(netID, DetectorKind, name, moduleAddr, portCount);
            && (d.Some? <==> 0 < netID < 65536)
            && (d.Some? ==>
                  && d.value.netID == netID && d.value.kind == DetectorKind && d.value.name == name
                  && d.value.moduleAddr == (if moduleAddr % 65536 == 0 then 1 else moduleAddr % 65536)
                  && |d.value.ports| == (if portCount % 65536 == 0 then 1 else portCount % 65536)
                  && forall i :: 0 <= i < |d.value.ports| ==> d.value.ports[i] == 0x0100)
    ensures Build(netID, NoKind, name, moduleAddr, portCount).None?
  {}

  /** Report `b` as the bytes of the wire. */
  ghost predicate SaysOf(b: seq<uint8>, d: Device, i: nat)
    requires i < |d.ports|
  {
    && |b| == 10 && Little(b[0], b[1]) == d.netID && Little(b[2], b[3]) == d.moduleAddr
    && b[4] == i % 256 && b[5] == 1 && Little(b[6], b[7]) == d.ports[i] && Little(b[8], b[9]) == 0
  }

  /** A detector's reports, one per port, in order. */
  lemma ReportsSay(d: Device, i: nat)
    requires i < |d.ports|
    ensures |Reports(d)| == |d.ports| && Reports(d)[i].Packet? && Reports(d)[i].header == CanDetector
    ensures SaysOf(Reports(d)[i].data, d, i)
  {
    var m := ReportMessage(d, i);
    assert Reports(d)[i] == m;
    OneReportSays(d, i, m);
  }

  lemma OneReportSays(d: Device, i: nat, m: Message)
    requires i < |d.ports| && m == ReportMessage(d, i)
    ensures m.Packet? && m.header == CanDetector && SaysOf(m.data, d, i)
  {
    var r := Report(d.netID, d.moduleAddr, i % 0x100, OCCUPANCY, d.ports[i], 0);
    assert m == Packet(CanDetector, EncodeReport(r));
    ReportBytes(r, EncodeReport(r), d, i);
  }

  lemma ReportBytes(r: Report, b: seq<uint8>, d: Device, i: nat)
    requires i < |d.ports| && b == EncodeReport(r)
    requires r.netID == d.netID && r.addr == d.moduleAddr && r.port == i % 256 && r.kind == 1
    requires r.value1 == d.ports[i] && r.value2 == 0
    ensures SaysOf(b, d, i)
  {
    ReportLayout(r);
  }
}

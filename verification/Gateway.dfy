/** apps/z21-gateway/internal/detector/manager.go: the gateway's two passes, one
    recording the addresses modules report, the other pushing desired addresses
    to the modules.  The hardware is the simulator of SimRegistry; all its
    answers are taken to arrive. */
module Gateway {
  import opened Basics
  import opened PoolConfig
  import opened Detectors
  import opened DetectorProtocol
  import opened Reconciler
  import opened Wire
  import opened SimRegistry
  import Disc = Discovery
  import opened Discovery

  // ---- names ----

  function HexDigit(d: nat): char
    requires d < 16
  {
    if d < 10 then ('0' as int + d) as char else ('a' as int + d - 10) as char
  }

  function HexValue(c: char): Option<nat> {
    if '0' <= c <= '9' then Some(c as int - '0' as int)
    else if 'a' <= c <= 'f' then Some(c as int - 'a' as int + 10)
    else if 'A' <= c <= 'F' then Some(c as int - 'A' as int + 10)
    else None
  }

  function Hex4(n: uint16): (s: string)
    ensures |s| == 4
  {
    [HexDigit(n / 0x1000), HexDigit(n / 0x100 % 16), HexDigit(n / 16 % 16), HexDigit(n % 16)]
  }

  /** A hexadecimal number of any positive length. */
  function ParseHex(s: string): Option<nat> {
    if s == "" then None
    else
      var last := HexValue(s[|s| - 1]);
      if last.None? then None
      else if |s| == 1 then last
      else
        match ParseHex(s[..|s| - 1])
        case None => None
        case Some(n) => Some(16 * n + last.value)
  }

  const PREFIX := "detector-"

  function DetectorName(netID: uint16): string {
    PREFIX + Hex4(netID)
  }

  function NormalizeDetectorName(name: string): Option<uint16> {
    if |name| < |PREFIX| || name[..|PREFIX|] != PREFIX then None
    else
      match ParseHex(name[|PREFIX|..])
      case Some(n) => if n <= 0xFFFF then Some(n) else None
      case None => None
  }

  lemma ParseHex4(n: uint16)
    ensures ParseHex(Hex4(n)) == Some(n)
  {
    var a, b, c, d := n / 0x1000, n / 0x100 % 16, n / 16 % 16, n % 16;
    var ab, abc := n / 0x100, n / 16;
    HexPlaces(n);
    var s1 := [HexDigit(a)];
    ParseHexSnoc(s1, b, a);
    ParseHexSnoc(s1 + [HexDigit(b)], c, ab);
    ParseHexSnoc(s1 + [HexDigit(b)] + [HexDigit(c)], d, abc);
    assert Hex4(n) == s1 + [HexDigit(b)] + [HexDigit(c)] + [HexDigit(d)];
  }

  lemma HexPlaces(n: uint16)
    ensures n / 0x1000 < 16 && n / 0x100 == 16 * (n / 0x1000) + n / 0x100 % 16
    ensures n / 16 == 16 * (n / 0x100) + n / 16 % 16 && n == 16 * (n / 16) + n % 16
  {}

  lemma ParseHexSnoc(s: string, d: nat, n: nat)
    requires s != "" && d < 16 && ParseHex(s) == Some(n)
    ensures ParseHex(s + [HexDigit(d)]) == Some(16 * n + d)
  {}

  /** The network id can be read back off the name, so names are distinct. */
  lemma DetectorNameRoundTrip(n: uint16)
    ensures NormalizeDetectorName(DetectorName(n)) == Some(n)
  {
    ParseHex4(n);
    assert DetectorName(n)[|PREFIX|..] == Hex4(n);
  }

  lemma DetectorNameInjective(a: uint16, b: uint16)
    ensures DetectorName(a) == DetectorName(b) <==> a == b
  {
    DetectorNameRoundTrip(a);
    DetectorNameRoundTrip(b);
  }

  /** Names are four lower-case hexadecimal digits after the prefix, the most
      significant first; either case is read. */
  lemma NamesLookLike(d: nat, n: uint16)
    requires d < 16
    ensures HexDigit(d) == "0123456789abcdef"[d] && HexValue("0123456789abcdef"[d]) == Some(d)
    ensures HexValue("0123456789ABCDEF"[d]) == Some(d) && HexValue('g').None? && HexValue('G').None?
    ensures DetectorName(n)[..9] == "detector-" && |DetectorName(n)| == 13
    ensures DetectorName(n)[9] == HexDigit(n / 4096) && DetectorName(n)[10] == HexDigit(n / 256 % 16)
    ensures DetectorName(n)[11] == HexDigit(n / 16 % 16) && DetectorName(n)[12] == HexDigit(n % 16)
  {}

  // ---- recording what was discovered ----

  /** Which gateway: its namespace and the device it serves. */
  datatype Identity = Identity(ns: string, device: string)

  function KeyOf(g: Identity, netID: uint16): Key {
    Key(g.ns, DetectorName(netID))
  }

  /** The record a discovery leaves: created if there was none, else relabelled,
      its missing reference and adoption flag filled in, its addresses kept. */
  function Upserted(g: Identity, e: Discovered, current: Option<Detector>): Detector {
    var c := match current
      case None => Detector(KeyOf(g, e.netID), map[LABEL_DEVICE_NAME := g.device], g.device, e.netID, None, Some(true),
                            None, None, Unset, NoMessage)
      case Some(c) => c.(labels := map[LABEL_DEVICE_NAME := g.device], netID := e.netID,
                         deviceRef := if c.deviceRef == "" then g.device else c.deviceRef,
                         adopt := if c.adopt.None? then Some(true) else c.adopt);
    c.(observedAddr := Some(e.addr), phase := if c.phase == Unset then Pending else c.phase)
  }

  function Lookup(s: Store, k: Key): Option<Detector> {
    if k in s then Some(s[k]) else None
  }

  function Upsert(g: Identity, s: Store, e: Discovered): Store {
    s[KeyOf(g, e.netID) := Upserted(g, e, Lookup(s, KeyOf(g, e.netID)))]
  }

  /** All entries recorded, one after the other. */
  function UpsertAll(g: Identity, s: Store, found: seq<Discovered>): Store {
    if found == [] then s else Upsert(g, UpsertAll(g, s, found[..|found| - 1]), found[|found| - 1])
  }

  ghost predicate Names(g: Identity, summary: Summary, k: Key) {
    exists n :: n in summary && k == KeyOf(g, n)
  }

  /** `s'` is `s` with every entry of the summary recorded, and nothing else changed. */
  ghost predicate IsRecorded(g: Identity, s: Store, summary: Summary, s': Store) {
    && (forall n :: n in summary ==>
          KeyOf(g, n) in s' && s'[KeyOf(g, n)] == Upserted(g, summary[n], Lookup(s, KeyOf(g, n))))
    && (forall k :: !Names(g, summary, k) ==> Lookup(s', k) == Lookup(s, k))
  }

  /** The protocol step one upsert amounts to. */
  function UpsertStep(g: Identity, e: Discovered, s: Store): Step {
    var d := Upserted(g, e, Lookup(s, KeyOf(g, e.netID)));
    if KeyOf(g, e.netID) in s then Touch(d) else Create(d)
  }

  /** An upsert is a step of the allocation protocol: a creation, or a touch that leaves both addresses alone. */
  lemma UpsertIsProtocolStep(env: Env, g: Identity, e: Discovered, s: Store)
    requires WellKeyed(s) && '/' !in g.ns
    ensures Enabled(s, UpsertStep(g, e, s))
    ensures ApplyStep(env, s, UpsertStep(g, e, s)) == Upsert(g, s, e)
  {}

  // ---- applying desired addresses ----

  /** The address the module `netID` answers a poll with, if there is such a detector. */
  function Reported(reg: Registry, netID: uint16): Option<uint16> {
    if netID in reg && reg[netID].kind == DetectorKind && |reg[netID].ports| > 0 then Some(reg[netID].moduleAddr) else None
  }

  /** A record whose module already has the desired address. */
  function MarkedApplied(d: Detector): Detector {
    if d.phase == Applied then d else d.(phase := Applied, message := NoMessage)
  }

  /** The record after the module answered `observed` to its new address. */
  function AfterApply(d: Detector, observed: uint16): Detector
    requires d.desiredAddr.Some?
  {
    if observed == d.desiredAddr.value then d.(observedAddr := Some(observed), phase := Applied, message := NoMessage)
    else d.(observedAddr := Some(observed), phase := Allocated, message := StillReports(observed))
  }

  /** The records of this gateway's device. */
  ghost predicate Ours(g: Identity, s: Store, k: Key) {
    k in s && k.ns == g.ns && s[k].deviceRef == g.device
  }

  predicate Mine(g: Identity, d: Detector) {
    d.key.ns == g.ns && d.deviceRef == g.device
  }

  /** A record whose module has to be told, as far as the record shows. */
  predicate NeedsCommand(d: Detector) {
    d.desiredAddr.Some? && d.observedAddr != d.desiredAddr
  }

  datatype Outcome = Outcome(store: Store, reg: Registry, ok: bool)

  /** One record: nothing without a desired address, a mark if it already
      matches, else a command to the module and a look at the answer. */
  function ApplyOne(s: Store, reg: Registry, d: Detector): Outcome {
    if d.desiredAddr.None? then Outcome(s, reg, true)
    else if d.observedAddr == d.desiredAddr then Outcome(s[d.key := MarkedApplied(d)], reg, true)
    else
      var reg' := Readdress(reg, d.netID, d.desiredAddr.value);
      match Reported(reg', d.netID)
      case None => Outcome(s, reg', false)
      case Some(a) => Outcome(s[d.key := AfterApply(d, a)], reg', true)
  }

  /** One more listed record: nothing after a failure, or if it is not ours. */
  function ApplyNext(g: Identity, o: Outcome, d: Detector): Outcome {
    if !o.ok || !Mine(g, d) then o else ApplyOne(o.store, o.reg, d)
  }

  /** The first `n` listed records. */
  function ApplyUpTo(g: Identity, s: Store, reg: Registry, items: seq<Detector>, n: nat): Outcome
    requires n <= |items|
  {
    if n == 0 then Outcome(s, reg, true) else ApplyNext(g, ApplyUpTo(g, s, reg, items, n - 1), items[n - 1])
  }

  /** Our records carry the names the gateway gives, and so distinct network ids. */
  ghost predicate GatewayNamed(g: Identity, s: Store) {
    forall k :: Ours(g, s, k) ==> k.name == DetectorName(s[k].netID)
  }

  /** The modules our records with a desired address are about exist. */
  ghost predicate Present(g: Identity, s: Store, reg: Registry) {
    forall k :: Ours(g, s, k) && s[k].desiredAddr.Some? ==> Reported(reg, s[k].netID).Some? && s[k].netID != POLL_ALL
  }

  /** No other record of ours is about the same module. */
  ghost predicate Alone(g: Identity, s: Store, k: Key)
    requires k in s
  {
    forall j :: Ours(g, s, j) && j != k ==> s[j].netID != s[k].netID
  }

  /** A record that claims its module has the desired address is right. */
  ghost predicate Truthful(d: Detector, reg: Registry) {
    d.desiredAddr.Some? && d.observedAddr == d.desiredAddr ==> Reported(reg, d.netID) == d.desiredAddr
  }

  /** Module, record and desire agree. */
  ghost predicate InForce(d: Detector, reg: Registry) {
    d.desiredAddr.Some? ==>
      d.phase == Applied && d.observedAddr == d.desiredAddr && Reported(reg, d.netID) == d.desiredAddr
  }

  /** `d'` is `d` but for what was observed and reported of it. */
  ghost predicate SameSpec(d: Detector, d': Detector) {
    d' == d.(observedAddr := d'.observedAddr, phase := d'.phase, message := d'.message)
  }

  class Manager {
    const id: Identity

    constructor (ns: string, device: string)
      ensures id == Identity(ns, device)
    {
      id := Identity(ns, device);
    }

    method UpsertDiscovered(api: ApiServer, e: Discovered)
      modifies api`detectors
      ensures api.detectors == Upsert(id, old(api.detectors), e)
    {
      var key := KeyOf(id, e.netID);
      var current;
      if key !in api.detectors {
        current := Detector(key, map[LABEL_DEVICE_NAME := id.device], id.device, e.netID, None, Some(true),
                            None, None, Unset, NoMessage);
      } else {
        current := api.detectors[key];
        current := current.(labels := map[LABEL_DEVICE_NAME := id.device], netID := e.netID);
        if current.deviceRef == "" { current := current.(deviceRef := id.device); }
        if current.adopt.None? { current := current.(adopt := Some(true)); }
      }
      api.detectors := api.detectors[key := current];

      if current.observedAddr == Some(e.addr) && current.phase != Unset { return; }
      current := current.(observedAddr := Some(e.addr));
      if current.phase == Unset { current := current.(phase := Pending); }
      api.detectors := api.detectors[key := current];
    }

    /** A discovery pass records, for every detector of the simulator, the address it has. */
    method SyncDiscovery(api: ApiServer, sim: Simulator)
      requires RegistryInv(sim.canDevices)
      modifies api`detectors
      ensures IsRecorded(id, old(api.detectors), Expected(sim.canDevices), api.detectors)
    {
      var request: seq<uint8> := [0] + Put16(POLL_ALL);
      Get16Put16(POLL_ALL);
      assert request[1..3] == Put16(POLL_ALL);
      var msgs := sim.Poll(request);
      DiscoveryIsExact(sim.canDevices, msgs.value);
      var found := SummarizeDiscovery(msgs.value);
      Record(api, found.value, Expected(sim.canDevices));
    }

    method Record(api: ApiServer, found: seq<Discovered>, ghost summary: Summary)
      requires IsEnumeration(found, summary)
      modifies api`detectors
      ensures IsRecorded(id, old(api.detectors), summary, api.detectors)
    {
      ghost var s := api.detectors;
      var i := 0;
      while i < |found|
        invariant 0 <= i <= |found|
        invariant api.detectors == UpsertAll(id, s, found[..i])
        modifies api`detectors
      {
        assert found[..i + 1][..i] == found[..i];
        UpsertDiscovered(api, found[i]);
        i := i + 1;
      }
      assert found[..i] == found;
      UpsertAllRecords(id, s, found, summary);
    }

    /** The poll of one module, and the address in its first report; an
        unreadable report would spoil the whole answer. */
    method PollModuleAddress(sim: Simulator, netID: uint16) returns (observed: Option<uint16>)
      requires RegistryInv(sim.canDevices)
      ensures observed == Reported(sim.canDevices, netID)
    {
      var request: seq<uint8> := [0] + Put16(netID);
      Get16Put16(netID);
      assert request[1..3] == Put16(netID);
      var msgs := sim.Poll(request);
      PollAnswers(sim.canDevices, netID, msgs.value);
      var reports := ReportsFromMessages(msgs.value);
      if reports.None? { return None; }
      assert forall i :: 0 <= i < |reports.value| ==> reports.value[i] in reports.value;
      observed := FirstAddress(reports.value, netID);
    }

    /** The reports among the messages, in order; none at all if one is unreadable. */
    method ReportsFromMessages(msgs: seq<Wire.Message>) returns (out: Option<seq<Report>>)
      ensures out.None? <==> exists m :: m in msgs && IsReport(m) && ParseReport(m.data).None?
      ensures out.Some? ==> forall r :: r in out.value <==> exists m :: m in msgs && Carries(m, r)
    {
      var reports: seq<Report> := [];
      for i := 0 to |msgs|
        invariant forall m :: m in msgs[..i] && IsReport(m) ==> ParseReport(m.data).Some?
        invariant forall r :: r in reports <==> exists m :: m in msgs[..i] && Carries(m, r)
      {
        var m := msgs[i];
        assert msgs[..i + 1] == msgs[..i] + [m] && m in msgs;
        if !m.Packet? || m.header != CanDetector { continue; }
        var r := ParseReport(m.data);
        if r.None? { return None; }
        assert Carries(m, r.value);
        reports := reports + [r.value];
      }
      assert msgs[..|msgs|] == msgs;
      return Some(reports);
    }

    /** The address in the first report of one module. */
    method FirstAddress(reports: seq<Report>, netID: uint16) returns (addr: Option<uint16>)
      ensures addr.None? <==> forall r :: r in reports ==> r.netID != netID
      ensures addr.Some? ==> exists i :: 0 <= i < |reports| && reports[i].netID == netID && addr == Some(reports[i].addr)
                                         && forall j :: 0 <= j < i ==> reports[j].netID != netID
    {
      for i := 0 to |reports|
        invariant forall r :: r in reports[..i] ==> r.netID != netID
        invariant forall j :: 0 <= j < i ==> reports[j].netID != netID
      {
        assert reports[..i + 1] == reports[..i] + [reports[i]] && reports[i] in reports;
        if reports[i].netID == netID { return Some(reports[i].addr); }
      }
      assert reports[..|reports|] == reports;
      return None;
    }

    /** One record of ours. */
    method ReconcileOne(api: ApiServer, sim: Simulator, det: Detector) returns (ok: bool)
      requires RegistryInv(sim.canDevices) && det.key in api.detectors && api.detectors[det.key] == det
      modifies api`detectors, sim
      ensures Outcome(api.detectors, sim.canDevices, ok) == ApplyOne(old(api.detectors), old(sim.canDevices), det)
      ensures RegistryInv(sim.canDevices)
    {
      if det.desiredAddr.None? { return true; }
      var desired := det.desiredAddr.value;
      if det.observedAddr == Some(desired) {
        MarkApplied(api, det);
        return true;
      }
      sim.Maintain(SetModuleAddress(det.netID, desired));
      var observed := PollModuleAddress(sim, det.netID);
      if observed.None? { return false; }
      api.detectors := api.detectors[det.key := AfterApply(det, observed.value)];
      return true;
    }

    method MarkApplied(api: ApiServer, det: Detector)
      requires det.key in api.detectors && api.detectors[det.key] == det
      modifies api`detectors
      ensures api.detectors == old(api.detectors)[det.key := MarkedApplied(det)]
    {
      if det.phase == Applied { return; }
      api.detectors := api.detectors[det.key := det.(phase := Applied, message := NoMessage)];
    }

    /** The apply pass over a listing, ended by the first module that does not answer. */
    method ReconcileAddresses(api: ApiServer, sim: Simulator) returns (ok: bool, ghost items: seq<Detector>)
      requires WellKeyed(api.detectors) && RegistryInv(sim.canDevices)
      modifies api`detectors, sim
      ensures IsListing(items, old(api.detectors)) && RegistryInv(sim.canDevices)
      ensures Outcome(api.detectors, sim.canDevices, ok)
           == ApplyUpTo(id, old(api.detectors), old(sim.canDevices), items, |items|)
    {
      ghost var s, reg := api.detectors, sim.canDevices;
      var list := api.List();
      items := list;
      ghost var o := Outcome(s, reg, true);
      var i := 0;
      while i < |list|
        invariant 0 <= i <= |list| && RegistryInv(sim.canDevices)
        invariant o == ApplyUpTo(id, s, reg, list, i) && o == Outcome(api.detectors, sim.canDevices, true)
        invariant StillListed(list, i, api.detectors)
        modifies api`detectors, sim
      {
        var done := ReconcileListed(api, sim, list[i]);
        ghost var o' := Outcome(api.detectors, sim.canDevices, done);
        OneMoreApplied(id, s, reg, list, i, o, o');
        i := i + 1;
        if !done {
          FailureStays(id, s, reg, list, i, |list|);
          return false, items;
        }
        OthersStillListed(list, i - 1, o.store, o'.store);
        o := o';
      }
      return true, items;
    }

    /** One listed record, ours or not. */
    method ReconcileListed(api: ApiServer, sim: Simulator, det: Detector) returns (ok: bool)
      requires RegistryInv(sim.canDevices) && det.key in api.detectors && api.detectors[det.key] == det
      modifies api`detectors, sim
      ensures Outcome(api.detectors, sim.canDevices, ok)
           == ApplyNext(id, Outcome(old(api.detectors), old(sim.canDevices), true), det)
      ensures RegistryInv(sim.canDevices)
      ensures det.key in api.detectors && api.detectors == old(api.detectors)[det.key := api.detectors[det.key]]
    {
      ghost var s, reg := api.detectors, sim.canDevices;
      if det.key.ns != id.ns || det.deviceRef != id.device {
        assert s[det.key := s[det.key]] == s;
        return true;
      }
      OneApplied(s, reg, det);
      ok := ReconcileOne(api, sim, det);
    }

    /** A discovery pass and then an apply pass. */
    method Pass(api: ApiServer, sim: Simulator) returns (ok: bool, ghost mid: Store, ghost items: seq<Detector>)
      requires WellKeyed(api.detectors) && RegistryInv(sim.canDevices) && '/' !in id.ns
      modifies api`detectors, sim
      ensures IsRecorded(id, old(api.detectors), Expected(old(sim.canDevices)), mid) && IsListing(items, mid)
      ensures Outcome(api.detectors, sim.canDevices, ok) == ApplyUpTo(id, mid, old(sim.canDevices), items, |items|)
      ensures RegistryInv(sim.canDevices)
    {
      ghost var s := api.detectors;
      SyncDiscovery(api, sim);
      mid := api.detectors;
      RecordingKeepsKeys(id, s, sim.canDevices, mid);
      ok, items := ReconcileAddresses(api, sim);
    }
  }

  /** The listed records from the `i`th on are stored as listed. */
  ghost predicate StillListed(items: seq<Detector>, i: nat, s: Store) {
    forall j :: i <= j < |items| ==> items[j].key in s && s[items[j].key] == items[j]
  }

  lemma OneMoreApplied(g: Identity, s: Store, reg: Registry, items: seq<Detector>, n: nat, o: Outcome, o': Outcome)
    requires n < |items| && o == ApplyUpTo(g, s, reg, items, n) && o' == ApplyNext(g, o, items[n])
    ensures o' == ApplyUpTo(g, s, reg, items, n + 1)
  {}

  lemma OthersStillListed(items: seq<Detector>, i: nat, before: Store, now: Store)
    requires i < |items| && DetectorProtocol.Keyed(items) && StillListed(items, i, before)
    requires items[i].key in now && now == before[items[i].key := now[items[i].key]]
    ensures StillListed(items, i + 1, now)
  {
    assert forall j :: i < j < |items| ==> items[j].key != items[i].key;
  }

  lemma {:induction false} FailureStays(g: Identity, s: Store, reg: Registry, items: seq<Detector>, i: nat, n: nat)
    requires i <= n <= |items| && !ApplyUpTo(g, s, reg, items, i).ok
    ensures ApplyUpTo(g, s, reg, items, n) == ApplyUpTo(g, s, reg, items, i)
  {
    if i < n { FailureStays(g, s, reg, items, i, n - 1); }
  }

  /** Recording a list leaves a key alone that no entry goes by. */
  lemma {:induction false} UpsertAllMisses(g: Identity, s: Store, found: seq<Discovered>, k: Key)
    requires forall i :: 0 <= i < |found| ==> KeyOf(g, found[i].netID) != k
    ensures Lookup(UpsertAll(g, s, found), k) == Lookup(s, k)
  {
    if found != [] {
      var n := |found| - 1;
      UpsertAllMisses(g, s, found[..n], k);
      UpsertAt(g, UpsertAll(g, s, found[..n]), found[n], k);
    }
  }

  /** Of a list without repeated ids, each entry is recorded as if it were alone. */
  lemma {:induction false} UpsertAllHits(g: Identity, s: Store, found: seq<Discovered>, i: nat)
    requires forall i, j :: 0 <= i < j < |found| ==> found[i].netID != found[j].netID
    requires i < |found|
    ensures var k := KeyOf(g, found[i].netID);
            Lookup(UpsertAll(g, s, found), k) == Some(Upserted(g, found[i], Lookup(s, k)))
  {
    var n := |found| - 1;
    var k, es := KeyOf(g, found[i].netID), found[..n];
    UpsertAt(g, UpsertAll(g, s, es), found[n], k);
    if i == n {
      forall j | 0 <= j < n ensures KeyOf(g, es[j].netID) != k { DetectorNameInjective(es[j].netID, found[n].netID); }
      UpsertAllMisses(g, s, es, k);
    } else {
      DetectorNameInjective(found[i].netID, found[n].netID);
      UpsertAllHits(g, s, es, i);
    }
  }

  lemma UpsertAt(g: Identity, s: Store, e: Discovered, k: Key)
    ensures Lookup(Upsert(g, s, e), k) ==
              if KeyOf(g, e.netID) == k then Some(Upserted(g, e, Lookup(s, k))) else Lookup(s, k)
  {}

  lemma UpsertAllRecords(g: Identity, s: Store, found: seq<Discovered>, summary: Summary)
    requires IsEnumeration(found, summary)
    ensures IsRecorded(g, s, summary, UpsertAll(g, s, found))
  {
    var s' := UpsertAll(g, s, found);
    forall n | n in summary
      ensures KeyOf(g, n) in s' && s'[KeyOf(g, n)] == Upserted(g, summary[n], Lookup(s, KeyOf(g, n)))
    {
      EnumerationKeyed(found, summary, n);
      assert summary[n] in found;
      var i :| 0 <= i < |found| && found[i] == summary[n];
      UpsertAllHits(g, s, found, i);
    }
    forall k | !Names(g, summary, k) ensures Lookup(s', k) == Lookup(s, k) {
      forall i | 0 <= i < |found| ensures KeyOf(g, found[i].netID) != k {
        assert found[i] in found;
      }
      UpsertAllMisses(g, s, found, k);
    }
  }

  lemma EnumerationKeyed(found: seq<Discovered>, summary: Summary, n: uint16)
    requires IsEnumeration(found, summary) && n in summary
    ensures summary[n].netID == n && summary[n] in found
  {}

  // ---- what the answers to a poll say ----

  predicate IsReport(m: Wire.Message) {
    m.Packet? && m.header == CanDetector
  }

  predicate Carries(m: Wire.Message, r: Report) {
    IsReport(m) && ParseReport(m.data) == Some(r)
  }

  /** What the answers to the poll of one module say. */
  lemma PollAnswers(reg: Registry, netID: uint16, msgs: seq<Wire.Message>)
    requires RegistryInv(reg) && IsPollReply(reg, netID, msgs)
    ensures forall m :: m in msgs && IsReport(m) ==> ParseReport(m.data).Some?
    ensures Reported(reg, netID).Some? <==> exists m, r :: m in msgs && Carries(m, r) && r.netID == netID
    ensures forall m, r :: m in msgs && Carries(m, r) && r.netID == netID ==> Reported(reg, netID) == Some(r.addr)
  {
    forall m | m in msgs
      ensures IsReport(m) ==> ParseReport(m.data).Some?
      ensures IsReport(m) && ParseReport(m.data).value.netID == netID ==>
                Reported(reg, netID) == Some(ParseReport(m.data).value.addr)
    {
      var n, i :| Polled(reg, netID, n) && 0 <= i < |reg[n].ports| && m == ReportMessage(reg[n], i);
      ReportRoundTrip(Report(reg[n].netID, reg[n].moduleAddr, i % 0x100, OCCUPANCY, reg[n].ports[i], 0));
    }
    if Reported(reg, netID).Some? {
      var d := reg[netID];
      assert Polled(reg, netID, netID);
      var r := Report(d.netID, d.moduleAddr, 0 % 0x100, OCCUPANCY, d.ports[0], 0);
      ReportRoundTrip(r);
      assert ReportMessage(d, 0) in msgs && Carries(ReportMessage(d, 0), r);
    }
  }

  // ---- what an apply pass does ----

  /** One record of a pass: only it and its own module change, no module comes
      or goes, and if the module answers the record ends in force. */
  lemma OneApplied(s: Store, reg: Registry, d: Detector)
    requires RegistryInv(reg) && d.key in s && s[d.key] == d
    ensures var o := ApplyOne(s, reg, d);
            && RegistryInv(o.reg)
            && d.key in o.store && o.store == s[d.key := o.store[d.key]] && SameSpec(d, o.store[d.key])
            && (o.ok <==> NeedsCommand(d) ==> Reported(reg, d.netID).Some?)
            && (!o.ok ==> o.store == s && o.reg == reg)
            && (o.ok && Truthful(d, reg) ==> InForce(o.store[d.key], o.reg))
            && (forall n :: n != d.netID ==> Reported(o.reg, n) == Reported(reg, n))
            && (forall n :: Reported(o.reg, n).Some? <==> Reported(reg, n).Some?)
  {}

  lemma NextApplied(g: Identity, o: Outcome, items: seq<Detector>, n: nat)
    requires n < |items| && DetectorProtocol.Keyed(items) && StillListed(items, n, o.store) && RegistryInv(o.reg)
    ensures var d, o' := items[n], ApplyNext(g, o, items[n]);
            && RegistryInv(o'.reg) && StillListed(items, n + 1, o'.store)
            && d.key in o'.store && o'.store == o.store[d.key := o'.store[d.key]] && SameSpec(d, o'.store[d.key])
            && (!o.ok || !Mine(g, d) ==> o' == o)
            && (!o'.ok ==> o'.store == o.store && o'.reg == o.reg)
            && (o.ok && Mine(g, d) ==> (o'.ok <==> NeedsCommand(d) ==> Reported(o.reg, d.netID).Some?))
            && (o'.ok && Mine(g, d) && Truthful(d, o.reg) ==> InForce(o'.store[d.key], o'.reg))
            && (forall m :: m != d.netID ==> Reported(o'.reg, m) == Reported(o.reg, m))
            && SamePresence(o.reg, o'.reg)
  {
    var d := items[n];
    if o.ok && Mine(g, d) {
      OneApplied(o.store, o.reg, d);
    } else {
      assert o.store[d.key := o.store[d.key]] == o.store;
    }
    OthersStillListed(items, n, o.store, ApplyNext(g, o, d).store);
  }

  ghost predicate SamePresence(reg: Registry, reg': Registry) {
    forall m :: Reported(reg', m).Some? <==> Reported(reg, m).Some?
  }

  /** What any number of listed records leaves: every record, the modules, and those records still to come. */
  ghost predicate Intact(s: Store, reg: Registry, items: seq<Detector>, n: nat, o: Outcome) {
    o.store.Keys == s.Keys && RegistryInv(o.reg) && StillListed(items, n, o.store) && SamePresence(reg, o.reg)
  }

  lemma IntactNext(g: Identity, s: Store, reg: Registry, items: seq<Detector>, n: nat, o: Outcome, o': Outcome)
    requires n < |items| && DetectorProtocol.Keyed(items) && Intact(s, reg, items, n, o) && o' == ApplyNext(g, o, items[n])
    ensures Intact(s, reg, items, n + 1, o')
  {
    NextApplied(g, o, items, n);
    PresenceInTurn(reg, o.reg, o'.reg);
  }

  lemma PresenceInTurn(reg: Registry, mid: Registry, reg': Registry)
    requires SamePresence(reg, mid) && SamePresence(mid, reg')
    ensures SamePresence(reg, reg')
  {}

  lemma {:induction false} PassIntact(g: Identity, s: Store, reg: Registry, items: seq<Detector>, n: nat)
    requires RegistryInv(reg) && DetectorProtocol.Keyed(items) && StillListed(items, 0, s) && n <= |items|
    ensures Intact(s, reg, items, n, ApplyUpTo(g, s, reg, items, n))
  {
    if n > 0 {
      PassIntact(g, s, reg, items, n - 1);
      IntactNext(g, s, reg, items, n - 1, ApplyUpTo(g, s, reg, items, n - 1), ApplyUpTo(g, s, reg, items, n));
    }
  }

  ghost predicate RecordKept(g: Identity, s: Store, k: Key, o: Outcome) {
    k in s && k in o.store && SameSpec(s[k], o.store[k]) && (!Ours(g, s, k) ==> o.store[k] == s[k])
  }

  lemma ListedThere(items: seq<Detector>, s: Store, i: nat)
    requires StillListed(items, 0, s) && i < |items|
    ensures items[i].key in s && s[items[i].key] == items[i]
  {}

  lemma RecordKeptNext(g: Identity, s: Store, items: seq<Detector>, n: nat, o: Outcome, o': Outcome, k: Key)
    requires n < |items| && DetectorProtocol.Keyed(items) && StillListed(items, n, o.store) && RegistryInv(o.reg)
    requires items[n].key in s && s[items[n].key] == items[n]
    requires RecordKept(g, s, k, o) && o' == ApplyNext(g, o, items[n])
    ensures RecordKept(g, s, k, o')
  {
    NextApplied(g, o, items, n);
    OneChanged(g, s, k, items[n], o, o');
  }

  lemma OneChanged(g: Identity, s: Store, k: Key, d: Detector, o: Outcome, o': Outcome)
    requires RecordKept(g, s, k, o) && d.key in s && s[d.key] == d
    requires d.key in o'.store && o'.store == o.store[d.key := o'.store[d.key]] && SameSpec(d, o'.store[d.key])
    requires !o.ok || !Mine(g, d) ==> o' == o
    ensures RecordKept(g, s, k, o')
  {}

  /** A pass changes no record but in what was observed and reported of it, and no record that is not ours. */
  lemma {:induction false} PassKeeps(g: Identity, s: Store, reg: Registry, items: seq<Detector>, n: nat, k: Key)
    requires RegistryInv(reg) && DetectorProtocol.Keyed(items) && StillListed(items, 0, s) && n <= |items| && k in s
    ensures RecordKept(g, s, k, ApplyUpTo(g, s, reg, items, n))
  {
    if n > 0 {
      PassKeeps(g, s, reg, items, n - 1, k);
      PassIntact(g, s, reg, items, n - 1);
      ListedThere(items, s, n - 1);
      RecordKeptNext(g, s, items, n - 1, ApplyUpTo(g, s, reg, items, n - 1), ApplyUpTo(g, s, reg, items, n), k);
    }
  }

  /** A module without a record of ours among the first `n` keeps its address. */
  lemma {:induction false} ModuleWaits(g: Identity, s: Store, reg: Registry, items: seq<Detector>, n: nat, netID: uint16)
    requires RegistryInv(reg) && DetectorProtocol.Keyed(items) && StillListed(items, 0, s) && n <= |items|
    requires forall j :: 0 <= j < n && Mine(g, items[j]) ==> items[j].netID != netID
    ensures Reported(ApplyUpTo(g, s, reg, items, n).reg, netID) == Reported(reg, netID)
  {
    if n > 0 {
      ModuleWaits(g, s, reg, items, n - 1, netID);
      PassIntact(g, s, reg, items, n - 1);
      ModuleWaitsOn(g, ApplyUpTo(g, s, reg, items, n - 1), ApplyUpTo(g, s, reg, items, n), items, n - 1, netID);
    }
  }

  lemma ModuleWaitsOn(g: Identity, o: Outcome, o': Outcome, items: seq<Detector>, n: nat, netID: uint16)
    requires n < |items| && DetectorProtocol.Keyed(items) && StillListed(items, n, o.store) && RegistryInv(o.reg)
    requires o' == ApplyNext(g, o, items[n]) && (Mine(g, items[n]) ==> items[n].netID != netID)
    ensures Reported(o'.reg, netID) == Reported(o.reg, netID)
  {
    NextApplied(g, o, items, n);
  }

  /** A record of ours that was reached, alone for its module and not mistaken
      about it, is in force from then on, however the pass ends. */
  lemma ReachedIsInForce(g: Identity, s: Store, reg: Registry, items: seq<Detector>, n: nat, i: nat)
    requires RegistryInv(reg) && IsListing(items, s) && i < n <= |items|
    requires Mine(g, items[i]) && Alone(g, s, items[i].key) && Truthful(items[i], reg)
    requires ApplyUpTo(g, s, reg, items, i + 1).ok
    ensures InForceAt(items[i].key, ApplyUpTo(g, s, reg, items, n))
  {
    OthersAreElsewhere(g, s, items, i);
    ModuleWaits(g, s, reg, items, i, items[i].netID);
    PassIntact(g, s, reg, items, i);
    InForceNow(g, ApplyUpTo(g, s, reg, items, i), ApplyUpTo(g, s, reg, items, i + 1), items, i, reg);
    RemainsInForce(g, s, reg, items, n, i);
  }

  lemma InForceNow(g: Identity, o: Outcome, o': Outcome, items: seq<Detector>, n: nat, reg: Registry)
    requires n < |items| && DetectorProtocol.Keyed(items) && StillListed(items, n, o.store) && RegistryInv(o.reg)
    requires Mine(g, items[n]) && Truthful(items[n], reg) && Reported(o.reg, items[n].netID) == Reported(reg, items[n].netID)
    requires o' == ApplyNext(g, o, items[n]) && o'.ok
    ensures InForceAt(items[n].key, o')
  {
    NextApplied(g, o, items, n);
  }

  lemma {:induction false} RemainsInForce(g: Identity, s: Store, reg: Registry, items: seq<Detector>, n: nat, i: nat)
    requires RegistryInv(reg) && DetectorProtocol.Keyed(items) && StillListed(items, 0, s) && i < n <= |items|
    requires forall j :: i < j < n ==> items[j].key != items[i].key && (Mine(g, items[j]) ==> items[j].netID != items[i].netID)
    requires InForceAt(items[i].key, ApplyUpTo(g, s, reg, items, i + 1))
    ensures InForceAt(items[i].key, ApplyUpTo(g, s, reg, items, n))
  {
    if i < n - 1 {
      RemainsInForce(g, s, reg, items, n - 1, i);
      PassIntact(g, s, reg, items, n - 1);
      PassKeeps(g, s, reg, items, n - 1, items[i].key);
      StaysInForce(g, ApplyUpTo(g, s, reg, items, n - 1), ApplyUpTo(g, s, reg, items, n), items, n - 1, items[i].key);
    }
  }

  ghost predicate InForceAt(k: Key, o: Outcome) {
    k in o.store && InForce(o.store[k], o.reg)
  }

  /** A record in force stays so while others, of other modules, are handled. */
  lemma StaysInForce(g: Identity, o: Outcome, o': Outcome, items: seq<Detector>, n: nat, k: Key)
    requires n < |items| && DetectorProtocol.Keyed(items) && StillListed(items, n, o.store) && RegistryInv(o.reg)
    requires InForceAt(k, o) && items[n].key != k && (Mine(g, items[n]) ==> items[n].netID != o.store[k].netID)
    requires o' == ApplyNext(g, o, items[n])
    ensures InForceAt(k, o')
  {
    NextApplied(g, o, items, n);
  }

  lemma OthersAreElsewhere(g: Identity, s: Store, items: seq<Detector>, i: nat)
    requires IsListing(items, s) && i < |items| && Alone(g, s, items[i].key)
    ensures forall j :: 0 <= j < |items| && j != i ==> items[j].key != items[i].key
    ensures forall j :: 0 <= j < |items| && j != i && Mine(g, items[j]) ==> items[j].netID != items[i].netID
  {
    forall j | 0 <= j < |items| && j != i
      ensures items[j].key != items[i].key
      ensures Mine(g, items[j]) ==> items[j].netID != items[i].netID
    {
      assert j < i ==> items[j].key != items[i].key;
      assert i < j ==> items[i].key != items[j].key;
      assert Mine(g, items[j]) ==> Ours(g, s, items[j].key);
    }
  }

  lemma {:induction false} OkUpTo(g: Identity, s: Store, reg: Registry, items: seq<Detector>, n: nat)
    requires RegistryInv(reg) && DetectorProtocol.Keyed(items) && StillListed(items, 0, s) && n <= |items|
    ensures ApplyUpTo(g, s, reg, items, n).ok <==> AllAnswered(g, items, n, reg)
  {
    if n > 0 {
      OkUpTo(g, s, reg, items, n - 1);
      PassIntact(g, s, reg, items, n - 1);
      OkNext(g, reg, items, n - 1, ApplyUpTo(g, s, reg, items, n - 1), ApplyUpTo(g, s, reg, items, n));
    }
  }

  lemma OkNext(g: Identity, reg: Registry, items: seq<Detector>, n: nat, o: Outcome, o': Outcome)
    requires n < |items| && DetectorProtocol.Keyed(items) && StillListed(items, n, o.store) && RegistryInv(o.reg)
    requires SamePresence(reg, o.reg) && o' == ApplyNext(g, o, items[n])
    requires o.ok <==> AllAnswered(g, items, n, reg)
    ensures o'.ok <==> AllAnswered(g, items, n + 1, reg)
  {
    NextApplied(g, o, items, n);
    assert o'.ok <==> o.ok && Answered(g, items[n], reg);
  }

  ghost predicate AllAnswered(g: Identity, items: seq<Detector>, n: nat, reg: Registry)
    requires n <= |items|
  {
    forall j :: 0 <= j < n ==> Answered(g, items[j], reg)
  }

  /** If the record is ours and needs a command, its module answers. */
  ghost predicate Answered(g: Identity, d: Detector, reg: Registry) {
    Mine(g, d) && NeedsCommand(d) ==> Reported(reg, d.netID).Some?
  }

  /** An apply pass succeeds exactly if every record of ours that needs a command has a module to answer it. */
  lemma PassSucceedsExactly(g: Identity, s: Store, reg: Registry, items: seq<Detector>)
    requires WellKeyed(s) && RegistryInv(reg) && IsListing(items, s)
    ensures ApplyUpTo(g, s, reg, items, |items|).ok <==>
              forall k :: Ours(g, s, k) && NeedsCommand(s[k]) ==> Reported(reg, s[k].netID).Some?
  {
    OkUpTo(g, s, reg, items, |items|);
    if AllAnswered(g, items, |items|, reg) {
      forall k | Ours(g, s, k) && NeedsCommand(s[k]) ensures Reported(reg, s[k].netID).Some? {
        var j :| 0 <= j < |items| && items[j] == s[k];
        assert Answered(g, items[j], reg);
      }
    } else {
      var j :| 0 <= j < |items| && !Answered(g, items[j], reg);
      assert Ours(g, s, items[j].key);
    }
  }

  /** A pass that fails stops at a record `m` whose module does not answer: the
      records of ours before it are in force, if alone and not mistaken; it and
      those after it are as they were. */
  lemma FailedPass(g: Identity, s: Store, reg: Registry, items: seq<Detector>) returns (m: nat)
    requires WellKeyed(s) && RegistryInv(reg) && IsListing(items, s)
    requires !ApplyUpTo(g, s, reg, items, |items|).ok
    ensures m < |items| && Mine(g, items[m]) && NeedsCommand(items[m]) && Reported(reg, items[m].netID).None?
    ensures var o := ApplyUpTo(g, s, reg, items, |items|);
            && StillListed(items, m, o.store)
            && forall i :: 0 <= i < m && Mine(g, items[i]) && Alone(g, s, items[i].key) && Truthful(items[i], reg) ==>
                 InForceAt(items[i].key, o)
  {
    m := FirstFailure(g, s, reg, items, |items|);
    StopsAt(g, s, reg, items, m);
    forall i | 0 <= i < m && Mine(g, items[i]) && Alone(g, s, items[i].key) && Truthful(items[i], reg)
      ensures var o := ApplyUpTo(g, s, reg, items, |items|);
              InForceAt(items[i].key, o)
    {
      OkBefore(g, s, reg, items, i + 1, m);
      ReachedIsInForce(g, s, reg, items, |items|, i);
    }
  }

  lemma StopsAt(g: Identity, s: Store, reg: Registry, items: seq<Detector>, m: nat)
    requires WellKeyed(s) && RegistryInv(reg) && IsListing(items, s) && m < |items|
    requires ApplyUpTo(g, s, reg, items, m).ok && !ApplyUpTo(g, s, reg, items, m + 1).ok
    ensures Mine(g, items[m]) && NeedsCommand(items[m]) && Reported(reg, items[m].netID).None?
    ensures StillListed(items, m, ApplyUpTo(g, s, reg, items, |items|).store)
  {
    PassIntact(g, s, reg, items, m);
    NextApplied(g, ApplyUpTo(g, s, reg, items, m), items, m);
    FailureStays(g, s, reg, items, m + 1, |items|);
  }

  lemma OkBefore(g: Identity, s: Store, reg: Registry, items: seq<Detector>, i: nat, n: nat)
    requires i <= n <= |items| && ApplyUpTo(g, s, reg, items, n).ok
    ensures ApplyUpTo(g, s, reg, items, i).ok
  {
    if !ApplyUpTo(g, s, reg, items, i).ok { FailureStays(g, s, reg, items, i, n); }
  }

  lemma {:induction false} FirstFailure(g: Identity, s: Store, reg: Registry, items: seq<Detector>, n: nat) returns (m: nat)
    requires n <= |items| && !ApplyUpTo(g, s, reg, items, n).ok
    ensures m < n && ApplyUpTo(g, s, reg, items, m).ok && !ApplyUpTo(g, s, reg, items, m + 1).ok
  {
    if ApplyUpTo(g, s, reg, items, n - 1).ok { m := n - 1; } else { m := FirstFailure(g, s, reg, items, n - 1); }
  }

  // ---- a pass after a discovery ----

  /** What a discovery leaves at one key: for a module it found, the record
      says what the module reports. */
  lemma RecordedRecord(g: Identity, s: Store, reg: Registry, s': Store, k: Key)
    requires WellKeyed(s) && RegistryInv(reg) && '/' !in g.ns
    requires IsRecorded(g, s, Expected(reg), s') && k in s'
    ensures s'[k].key == k && '/' !in k.ns
    ensures !Names(g, Expected(reg), k) ==> k in s && s'[k] == s[k]
    ensures Names(g, Expected(reg), k) ==>
              && s'[k].netID in Expected(reg) && k == KeyOf(g, s'[k].netID)
              && s'[k].observedAddr == Reported(reg, s'[k].netID) && s'[k].observedAddr.Some?
  {
    if n :| n in Expected(reg) && k == KeyOf(g, n) {
      assert s'[k] == Upserted(g, Expected(reg)[n], Lookup(s, k));
      assert Expected(reg)[n] == EntryOf(reg[n]);
      assert Reported(reg, n) == Some(reg[n].moduleAddr);
    } else {
      assert !Names(g, Expected(reg), k);
    }
  }

  /** What a discovery writes of a module it found, field by field.  A new record
      names the device, holds no address, does not refuse adoption and is
      Pending; an old one keeps its addresses, its device if it names one, its
      adoption flag if it has one, its message, and its phase if it has one. */
  lemma DiscoveredRecord(g: Identity, s: Store, reg: Registry, mid: Store, n: uint16)
    requires RegistryInv(reg) && IsRecorded(g, s, Expected(reg), mid) && n in Expected(reg)
    ensures KeyOf(g, n) in mid && Reported(reg, n).Some?
    ensures var d := mid[KeyOf(g, n)];
            && d.netID == n && d.observedAddr == Reported(reg, n) && d.labels == map["z21.trains.io/device" := g.device]
            && (KeyOf(g, n) !in s ==>
                  && d.key == KeyOf(g, n) && d.deviceRef == g.device && d.adopt != Some(false)
                  && d.desiredAddr.None? && d.assignedAddr.None? && d.phase == Pending && d.message == NoMessage)
            && (KeyOf(g, n) in s ==>
                  var e := s[KeyOf(g, n)];
                  && d.key == e.key && d.desiredAddr == e.desiredAddr && d.assignedAddr == e.assignedAddr
                  && d.message == e.message && d.phase == (if e.phase == Unset then Pending else e.phase)
                  && d.deviceRef == (if e.deviceRef == "" then g.device else e.deviceRef)
                  && (d.adopt == Some(false) <==> e.adopt == Some(false)))
  {
    var k := KeyOf(g, n);
    assert Expected(reg)[n] == EntryOf(reg[n]);
    assert mid[k] == Upserted(g, Expected(reg)[n], Lookup(s, k));
  }

  lemma RecordingKeepsKeys(g: Identity, s: Store, reg: Registry, s': Store)
    requires WellKeyed(s) && RegistryInv(reg) && '/' !in g.ns
    requires IsRecorded(g, s, Expected(reg), s')
    ensures WellKeyed(s')
  {
    forall k | k in s' ensures s'[k].key == k && '/' !in k.ns { RecordedRecord(g, s, reg, s', k); }
  }

  /** A discovery keeps the gateway's naming, and the presence of modules. */
  lemma RecordingKeepsNaming(g: Identity, s: Store, reg: Registry, s': Store)
    requires WellKeyed(s) && RegistryInv(reg) && '/' !in g.ns && IsRecorded(g, s, Expected(reg), s')
    requires GatewayNamed(g, s)
    ensures GatewayNamed(g, s') && (Present(g, s, reg) ==> Present(g, s', reg))
    ensures Present(g, s, reg) ==> forall k :: Ours(g, s', k) && s'[k].desiredAddr.Some? ==> Names(g, Expected(reg), k)
  {
    forall k | Ours(g, s', k)
      ensures k.name == DetectorName(s'[k].netID)
      ensures Present(g, s, reg) && s'[k].desiredAddr.Some? ==>
                Reported(reg, s'[k].netID).Some? && s'[k].netID != POLL_ALL && Names(g, Expected(reg), k)
    {
      RecordedRecord(g, s, reg, s', k);
      if !Names(g, Expected(reg), k) {
        assert Ours(g, s, k);
        if Present(g, s, reg) && s'[k].desiredAddr.Some? {
          OursIsExpected(g, s, reg, k);
          assert false;
        }
      }
    }
  }

  lemma OursIsExpected(g: Identity, s: Store, reg: Registry, k: Key)
    requires GatewayNamed(g, s) && Present(g, s, reg) && Ours(g, s, k) && s[k].desiredAddr.Some?
    ensures Names(g, Expected(reg), k)
  {
    assert s[k].netID in Expected(reg) && k == KeyOf(g, s[k].netID);
  }

  lemma NamedIsAlone(g: Identity, s: Store, k: Key)
    requires GatewayNamed(g, s) && Ours(g, s, k)
    ensures Alone(g, s, k)
  {}

  /** A gateway pass.  If our records bear the gateway's names and the modules of
      those with a desired address exist, it succeeds, and every one of our
      records with a desired address ends in force. */
  lemma PassPutsInForce(g: Identity, s: Store, reg: Registry, mid: Store, items: seq<Detector>)
    requires WellKeyed(s) && RegistryInv(reg) && '/' !in g.ns
    requires GatewayNamed(g, s) && Present(g, s, reg)
    requires IsRecorded(g, s, Expected(reg), mid) && IsListing(items, mid)
    ensures var o := ApplyUpTo(g, mid, reg, items, |items|);
            o.ok && forall k :: Ours(g, o.store, k) ==> InForce(o.store[k], o.reg)
  {
    RecordingKeepsKeys(g, s, reg, mid);
    RecordingKeepsNaming(g, s, reg, mid);
    PassSucceedsExactly(g, mid, reg, items);
    forall k | Ours(g, ApplyUpTo(g, mid, reg, items, |items|).store, k)
      ensures var o := ApplyUpTo(g, mid, reg, items, |items|); InForce(o.store[k], o.reg)
    {
      PassIntact(g, mid, reg, items, |items|);
      PassKeeps(g, mid, reg, items, |items|, k);
      FoundIsInForce(g, s, reg, mid, items, k);
    }
  }

  lemma FoundIsInForce(g: Identity, s: Store, reg: Registry, mid: Store, items: seq<Detector>, k: Key)
    requires WellKeyed(s) && WellKeyed(mid) && RegistryInv(reg) && '/' !in g.ns
    requires IsRecorded(g, s, Expected(reg), mid) && IsListing(items, mid)
    requires GatewayNamed(g, mid) && Ours(g, mid, k) && (mid[k].desiredAddr.Some? ==> Names(g, Expected(reg), k))
    requires ApplyUpTo(g, mid, reg, items, |items|).ok
    ensures InForceAt(k, ApplyUpTo(g, mid, reg, items, |items|))
  {
    PassKeeps(g, mid, reg, items, |items|, k);
    if mid[k].desiredAddr.Some? {
      RecordedRecord(g, s, reg, mid, k);
      NamedIsAlone(g, mid, k);
      var i :| 0 <= i < |items| && items[i] == mid[k];
      AllReached(g, mid, reg, items, i);
    }
  }

  lemma AllReached(g: Identity, s: Store, reg: Registry, items: seq<Detector>, i: nat)
    requires WellKeyed(s) && RegistryInv(reg) && IsListing(items, s) && i < |items|
    requires Mine(g, items[i]) && Alone(g, s, items[i].key) && Truthful(items[i], reg)
    requires ApplyUpTo(g, s, reg, items, |items|).ok
    ensures var o := ApplyUpTo(g, s, reg, items, |items|);
            InForceAt(items[i].key, o)
  {
    OkBefore(g, s, reg, items, i + 1, |items|);
    ReachedIsInForce(g, s, reg, items, |items|, i);
  }

  // ---- the gateway and the allocator together ----

  /** What applying writes of a record: what the module answered, Applied exactly
      if that is what was desired, and else which address it still has. */
  lemma AppliedRecordSays(d: Detector, o: uint16)
    requires d.desiredAddr.Some?
    ensures AfterApply(d, o) == d.(observedAddr := Some(o), phase := AfterApply(d, o).phase, message := AfterApply(d, o).message)
    ensures o == d.desiredAddr.value ==> AfterApply(d, o).phase == Applied && AfterApply(d, o).message == NoMessage
    ensures o != d.desiredAddr.value ==> AfterApply(d, o).phase == Allocated && AfterApply(d, o).message == StillReports(o)
    ensures MarkedApplied(d).phase == Applied && SameSpec(d, MarkedApplied(d)) && MarkedApplied(d).observedAddr == d.observedAddr
  {}

  /** A record that keeps its predecessor's addresses, and its pool unless it holds none. */
  ghost predicate Kept(env: Env, d: Detector, d': Detector) {
    && d'.desiredAddr == d.desiredAddr && d'.assignedAddr == d.assignedAddr
    && (PoolOf(env, d') == PoolOf(env, d) || Effective(d).None?)
  }

  /** The allocation invariant survives any change that keeps the addresses of
      old records and gives new records none. */
  lemma KeepingAddressesKeepsInv(env: Env, s: Store, s': Store)
    requires StoreInv(env, s) && WellKeyed(s')
    requires forall k :: k in s' ==> if k in s then Kept(env, s[k], s'[k]) else Effective(s'[k]).None?
    ensures StoreInv(env, s')
  {
    forall k | k in s' && Effective(s'[k]).Some? ensures InItsPool(env, s'[k]) {
      assert k in s && Kept(env, s[k], s'[k]) && InItsPool(env, s[k]);
    }
    forall j, k | j in s' && k in s' && j != k ensures !Clash(env, s'[j], s'[k]) {
      if Effective(s'[j]).Some? && Effective(s'[k]).Some? {
        assert Kept(env, s[j], s'[j]) && Kept(env, s[k], s'[k]);
        assert !Clash(env, s[j], s[k]);
      }
    }
  }

  /** A record changed in nothing but observation keeps the allocation invariant. */
  lemma ObservationKeepsInv(env: Env, s: Store, s': Store)
    requires StoreInv(env, s) && s'.Keys == s.Keys && forall k :: k in s ==> SameSpec(s[k], s'[k])
    ensures StoreInv(env, s')
  {
    forall k | k in s' ensures Kept(env, s[k], s'[k]) && s'[k].key == k { assert SameSpec(s[k], s'[k]); }
    KeepingAddressesKeepsInv(env, s, s');
  }

  lemma UpsertedKeeps(env: Env, g: Identity, e: Discovered, d: Detector)
    requires Effective(d).Some? ==> PoolOf(env, d).Some?
    ensures Kept(env, d, Upserted(g, e, Some(d))) && Upserted(g, e, Some(d)).key == d.key
  {}

  /** A recorded discovery keeps the allocation invariant: new records hold no address, old ones keep theirs. */
  lemma RecordingKeepsInv(env: Env, g: Identity, s: Store, summary: Summary, s': Store)
    requires StoreInv(env, s) && '/' !in g.ns && Disc.Keyed(summary) && IsRecorded(g, s, summary, s')
    ensures StoreInv(env, s')
  {
    forall k | k in s'
      ensures s'[k].key == k && '/' !in k.ns
      ensures if k in s then Kept(env, s[k], s'[k]) else Effective(s'[k]).None?
    {
      if n :| n in summary && k == KeyOf(g, n) {
        assert s'[k] == Upserted(g, summary[n], Lookup(s, k));
        if k in s { UpsertedKeeps(env, g, summary[n], s[k]); }
      } else {
        assert !Names(g, summary, k) && Lookup(s', k) == Lookup(s, k);
      }
    }
    KeepingAddressesKeepsInv(env, s, s');
  }

  /** After a gateway pass over a store in which the allocation invariant holds,
      it still holds, and no two of our records in force share a module address. */
  lemma ModulesDoNotShareAddresses(env: Env, g: Identity, s: Store, reg: Registry, mid: Store, items: seq<Detector>)
    requires StoreInv(env, s) && RegistryInv(reg) && '/' !in g.ns
    requires IsRecorded(g, s, Expected(reg), mid) && IsListing(items, mid)
    ensures var o := ApplyUpTo(g, mid, reg, items, |items|);
            && StoreInv(env, o.store)
            && forall j, k :: Ours(g, o.store, j) && Ours(g, o.store, k) && j != k
                              && o.store[j].desiredAddr.Some? && o.store[k].desiredAddr.Some?
                              && InForce(o.store[j], o.reg) && InForce(o.store[k], o.reg) ==>
                 Reported(o.reg, o.store[j].netID) != Reported(o.reg, o.store[k].netID)
  {
    ExpectedKeyed(reg);
    RecordingKeepsInv(env, g, s, Expected(reg), mid);
    var o := ApplyUpTo(g, mid, reg, items, |items|);
    ApplyKeepsInv(env, g, mid, reg, items, o);
    forall j, k | Ours(g, o.store, j) && Ours(g, o.store, k) && j != k
                  && o.store[j].desiredAddr.Some? && o.store[k].desiredAddr.Some?
                  && InForce(o.store[j], o.reg) && InForce(o.store[k], o.reg)
      ensures Reported(o.reg, o.store[j].netID) != Reported(o.reg, o.store[k].netID)
    {
      InForceApart(env, g, o.store, j, k, o.reg);
    }
  }

  lemma ApplyKeepsInv(env: Env, g: Identity, s: Store, reg: Registry, items: seq<Detector>, o: Outcome)
    requires StoreInv(env, s) && RegistryInv(reg) && IsListing(items, s)
    requires o == ApplyUpTo(g, s, reg, items, |items|)
    ensures StoreInv(env, o.store)
  {
    PassIntact(g, s, reg, items, |items|);
    forall k | k in s ensures SameSpec(s[k], o.store[k]) { PassKeeps(g, s, reg, items, |items|, k); }
    ObservationKeepsInv(env, s, o.store);
  }

  lemma InForceApart(env: Env, g: Identity, s: Store, j: Key, k: Key, reg: Registry)
    requires StoreInv(env, s) && Ours(g, s, j) && Ours(g, s, k) && j != k
    requires s[j].desiredAddr.Some? && s[k].desiredAddr.Some? && InForce(s[j], reg) && InForce(s[k], reg)
    ensures Reported(reg, s[j].netID).Some? && Reported(reg, s[j].netID) != Reported(reg, s[k].netID)
  {}

  lemma ExpectedKeyed(reg: Registry)
    requires RegistryInv(reg)
    ensures Disc.Keyed(Expected(reg))
  {}
}

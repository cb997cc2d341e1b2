/** Simulated detectors on their way to the simulator: merged into the stored
    simulation by the API (apps/api/internal/api/simulations.go), registered one
    by one by the controller
    (operators/z21-sim-controller/internal/controller/simulation_controller.go). */
module Simulation {
  import opened Basics
  import opened Wire
  import opened SimRegistry
  import opened Discovery

  const DEFAULT_MODULE_ADDRESS: uint16 := 1
  const DEFAULT_PORT_COUNT: uint16 := 8

  datatype SimDetector = SimDetector(netID: uint16, name: seq<uint8>, moduleAddress: uint16, portCount: uint16)

  /** A simulated booster; its output port is not modelled. */
  datatype SimBooster = SimBooster(netID: uint16, name: seq<uint8>)

  function WithDefaults(d: SimDetector): SimDetector {
    d.(moduleAddress := if d.moduleAddress == 0 then DEFAULT_MODULE_ADDRESS else d.moduleAddress,
       portCount := if d.portCount == 0 then DEFAULT_PORT_COUNT else d.portCount)
  }

  /** The address an entry asks for: its own, or 1. */
  function AddressAsked(d: SimDetector): uint16 {
    if d.moduleAddress > 0 then d.moduleAddress else 1
  }

  /** The ports it asks for: its own number, or 8. */
  function PortsAsked(d: SimDetector): uint16 {
    if d.portCount > 0 then d.portCount else 8
  }

  /** `e` is entry `d` with what it asks for written out, and otherwise the same. */
  ghost predicate Completes(d: SimDetector, e: SimDetector) {
    e.netID == d.netID && e.name == d.name && e.moduleAddress == AddressAsked(d) && e.portCount == PortsAsked(d)
  }

  predicate NonZero(ds: seq<SimDetector>) {
    forall i :: 0 <= i < |ds| ==> ds[i].netID != 0
  }

  /** What is made of a request: nothing if an id is missing, else its entries with defaults filled in. */
  function FromAPI(ds: seq<SimDetector>): Option<seq<SimDetector>> {
    if NonZero(ds) then Some(seq(|ds|, i requires 0 <= i < |ds| => WithDefaults(ds[i]))) else None
  }

  /** A request is refused as soon as an id is missing; otherwise defaults are filled in. */
  method DetectorsFromAPI(ds: seq<SimDetector>) returns (out: Option<seq<SimDetector>>)
    ensures out == FromAPI(ds)
    ensures out.Some? <==> forall i :: 0 <= i < |ds| ==> ds[i].netID != 0
    ensures out.Some? ==> |out.value| == |ds| && forall i :: 0 <= i < |ds| ==> Completes(ds[i], out.value[i])
  {
    var acc: seq<SimDetector> := [];
    for i := 0 to |ds|
      invariant NonZero(ds[..i])
      invariant acc == seq(i, j requires 0 <= j < i => WithDefaults(ds[j]))
    {
      if ds[i].netID == 0 { return None; }
      acc := acc + [WithDefaults(ds[i])];
    }
    assert ds[..|ds|] == ds;
    return Some(acc);
  }

  // ---- merging ----

  /** The last entry for each id. */
  function Latest(ds: seq<SimDetector>): map<uint16, SimDetector> {
    if ds == [] then map[] else Latest(ds[..|ds| - 1])[ds[|ds| - 1].netID := ds[|ds| - 1]]
  }

  /** The entries of a map with ids from `k` on, ascending. */
  function ValuesFrom(m: map<uint16, SimDetector>, k: nat): seq<SimDetector>
    decreases 0x1_0000 - k
  {
    if k >= 0x1_0000 then [] else (if k in m then [m[k]] else []) + ValuesFrom(m, k + 1)
  }

  function Merge(existing: seq<SimDetector>, incoming: seq<SimDetector>): seq<SimDetector> {
    ValuesFrom(Latest(existing + incoming), 0)
  }

  ghost predicate AscendingIDs(ds: seq<SimDetector>) {
    forall i, j :: 0 <= i < j < |ds| ==> ds[i].netID < ds[j].netID
  }

  ghost predicate Keyed(m: map<uint16, SimDetector>) {
    forall n :: n in m ==> m[n].netID == n
  }

  lemma {:induction false} LatestKeyed(ds: seq<SimDetector>)
    ensures Keyed(Latest(ds))
    ensures forall n :: n in Latest(ds) <==> exists i :: 0 <= i < |ds| && ds[i].netID == n
  {
    if ds != [] {
      var n := |ds| - 1;
      LatestKeyed(ds[..n]);
      assert ds[..n] + [ds[n]] == ds;
    }
  }

  /** `s` lists the entries of `m` with ids from `k` on, ascending. */
  ghost predicate Lists(s: seq<SimDetector>, m: map<uint16, SimDetector>, k: nat) {
    AscendingIDs(s) && forall d :: d in s <==> d.netID >= k && d.netID in m && m[d.netID] == d
  }

  lemma {:induction false} ValuesFromCorrect(m: map<uint16, SimDetector>, k: nat)
    requires Keyed(m)
    ensures Lists(ValuesFrom(m, k), m, k)
    decreases 0x1_0000 - k
  {
    if k < 0x1_0000 {
      ValuesFromCorrect(m, k + 1);
      OneMoreListed(m, k, ValuesFrom(m, k + 1), ValuesFrom(m, k));
    }
  }

  lemma OneMoreListed(m: map<uint16, SimDetector>, k: uint16, rest: seq<SimDetector>, s: seq<SimDetector>)
    requires Keyed(m) && Lists(rest, m, k + 1) && s == (if k in m then [m[k]] else []) + rest
    ensures Lists(s, m, k)
  {
    if k in m {
      LeastFirst(m[k], rest);
    } else {
      assert s == rest;
    }
    forall d ensures d in s <==> d.netID >= k && d.netID in m && m[d.netID] == d {
      assert d in s <==> d in rest || (k in m && d == m[k]);
    }
  }

  lemma LeastFirst(d: SimDetector, rest: seq<SimDetector>)
    requires AscendingIDs(rest) && forall e :: e in rest ==> d.netID < e.netID
    ensures AscendingIDs([d] + rest)
  {
    forall j | 0 <= j < |rest| ensures d.netID < rest[j].netID { assert rest[j] in rest; }
  }

  /** An ascending list is determined by its entries. */
  lemma {:induction false} AscendingUnique(s: seq<SimDetector>, t: seq<SimDetector>)
    requires AscendingIDs(s) && AscendingIDs(t)
    requires forall d :: d in s <==> d in t
    ensures s == t
  {
    assert s != [] ==> s[0] in s;
    assert t != [] ==> t[0] in t;
    if s != [] && t != [] {
      assert s[0] == t[0];
      forall d ensures d in s[1..] <==> d in t[1..] {
        assert d in s <==> d == s[0] || d in s[1..];
        assert d in t <==> d == t[0] || d in t[1..];
      }
      AscendingUnique(s[1..], t[1..]);
    }
  }

  method MergeCANDetectors(existing: seq<SimDetector>, incoming: seq<SimDetector>) returns (out: seq<SimDetector>)
    ensures out == Merge(existing, incoming)
    ensures AscendingIDs(out)
  {
    var byNetID: map<uint16, SimDetector> := map[];
    byNetID := PutAll(byNetID, existing, []);
    assert [] + existing == existing;
    byNetID := PutAll(byNetID, incoming, existing);
    LatestKeyed(existing + incoming);
    out := InOrder(byNetID);
  }

  /** Puts each entry under its id, over what `before` left. */
  method PutAll(start: map<uint16, SimDetector>, ds: seq<SimDetector>, ghost before: seq<SimDetector>)
    returns (byNetID: map<uint16, SimDetector>)
    requires start == Latest(before)
    ensures byNetID == Latest(before + ds)
  {
    byNetID := start;
    assert before + ds[..0] == before;
    for i := 0 to |ds|
      invariant byNetID == Latest(before + ds[..i])
    {
      LatestSnoc(before + ds[..i], ds[i]);
      assert (before + ds[..i]) + [ds[i]] == before + ds[..i + 1];
      byNetID := byNetID[ds[i].netID := ds[i]];
    }
    assert ds[..|ds|] == ds;
  }

  lemma LatestSnoc(ds: seq<SimDetector>, d: SimDetector)
    ensures Latest(ds + [d]) == Latest(ds)[d.netID := d]
  {
    assert (ds + [d])[..|ds|] == ds;
  }

  /** The entries of a map, in the order of their ids. */
  method InOrder(m: map<uint16, SimDetector>) returns (out: seq<SimDetector>)
    requires Keyed(m)
    ensures out == ValuesFrom(m, 0) && AscendingIDs(out)
  {
    var netIDs := SortedKeys(m.Keys);
    out := Gather(m, netIDs);
    ValuesFromCorrect(m, 0);
    AscendingUnique(out, ValuesFrom(m, 0));
  }

  /** The entries of a map in the order of its sorted keys. */
  method Gather(m: map<uint16, SimDetector>, netIDs: seq<uint16>) returns (out: seq<SimDetector>)
    requires Keyed(m)
    requires Ascending(netIDs)
    requires forall n :: n in netIDs <==> n in m
    ensures AscendingIDs(out)
    ensures forall d :: d in out <==> d.netID in m && m[d.netID] == d
  {
    out := [];
    for i := 0 to |netIDs|
      invariant |out| == i && forall j :: 0 <= j < i ==> netIDs[j] in m && out[j] == m[netIDs[j]]
    {
      assert netIDs[i] in netIDs;
      out := out + [m[netIDs[i]]];
    }
    forall d: SimDetector | d.netID in m && m[d.netID] == d ensures d in out {
      assert d.netID in netIDs;
      var j :| 0 <= j < |netIDs| && netIDs[j] == d.netID;
      assert out[j] == d;
    }
  }

  /** The keys of a map, sorted; iteration order is arbitrary, the sort makes the result unique. */
  method SortedKeys(keys: set<uint16>) returns (out: seq<uint16>)
    ensures Ascending(out)
    ensures forall n :: n in out <==> n in keys
  {
    out := [];
    var todo := keys;
    while todo != {}
      invariant todo <= keys
      invariant forall n :: n in out <==> n in keys - todo
      invariant Ascending(out)
      decreases todo
    {
      var n :| n in todo;
      out := Insert(out, n);
      todo := todo - {n};
    }
  }

  ghost predicate Ascending(s: seq<uint16>) {
    forall i, j :: 0 <= i < j < |s| ==> s[i] < s[j]
  }

  lemma LeastKeyFirst(x: uint16, rest: seq<uint16>)
    requires Ascending(rest) && forall y :: y in rest ==> x < y
    ensures Ascending([x] + rest)
  {
    assert forall i :: 0 <= i < |rest| ==> rest[i] in rest;
  }

  function Insert(s: seq<uint16>, x: uint16): (t: seq<uint16>)
    requires Ascending(s) && x !in s
    ensures Ascending(t)
    ensures forall y :: y in t <==> y in s || y == x
  {
    if s == [] then [x]
    else
      assert s[0] in s && s == [s[0]] + s[1..];
      assert forall y :: y in s[1..] ==> s[0] < y;
      if x < s[0] then
        LeastKeyFirst(x, s);
        [x] + s
      else
        var rest := Insert(s[1..], x);
        LeastKeyFirst(s[0], rest);
        [s[0]] + rest
  }

  // ---- laws of merging ----

  lemma {:induction false} LatestAppend(a: seq<SimDetector>, b: seq<SimDetector>)
    ensures Latest(a + b) == Latest(a) + Latest(b)
  {
    if b == [] {
      assert a + b == a;
    } else {
      var n := |b| - 1;
      LatestAppend(a, b[..n]);
      assert (a + b)[..|a + b| - 1] == a + b[..n];
    }
  }

  function From(m: map<uint16, SimDetector>, k: nat): map<uint16, SimDetector> {
    map n | n in m && n >= k :: m[n]
  }

  lemma MapSums<V>(x: map<uint16, V>, y: map<uint16, V>, z: map<uint16, V>)
    ensures (x + y) + z == x + (y + z) && (x + y) + y == x + y
  {}

  lemma {:induction false} LatestOfValues(m: map<uint16, SimDetector>, k: nat)
    requires Keyed(m)
    ensures Latest(ValuesFrom(m, k)) == From(m, k)
    decreases 0x1_0000 - k
  {
    if k < 0x1_0000 {
      LatestOfValues(m, k + 1);
      if k in m {
        LatestAppend([m[k]], ValuesFrom(m, k + 1));
        assert [m[k]][..0] == [] && Latest([m[k]]) == map[k := m[k]];
      } else {
        assert [] + ValuesFrom(m, k + 1) == ValuesFrom(m, k + 1);
      }
      FromStep(m, k);
    }
  }

  lemma FromStep(m: map<uint16, SimDetector>, k: uint16)
    ensures From(m, k) == if k in m then map[k := m[k]] + From(m, k + 1) else From(m, k + 1)
  {}

  /** A merge remembers exactly the latest entry for each id. */
  lemma LatestOfMerge(a: seq<SimDetector>, b: seq<SimDetector>)
    ensures Latest(Merge(a, b)) == Latest(a + b) == Latest(a) + Latest(b)
  {
    LatestKeyed(a + b);
    LatestOfValues(Latest(a + b), 0);
    FromZero(Latest(a + b));
    LatestAppend(a, b);
  }

  lemma FromZero(m: map<uint16, SimDetector>)
    ensures From(m, 0) == m
  {}

  /** A merge depends on each argument only through its latest entries. */
  lemma MergeOfLatest(a: seq<SimDetector>, b: seq<SimDetector>, c: seq<SimDetector>, d: seq<SimDetector>)
    requires Latest(a) + Latest(b) == Latest(c) + Latest(d)
    ensures Merge(a, b) == Merge(c, d)
  {
    LatestAppend(a, b);
    LatestAppend(c, d);
  }

  /** Merging is associative, and merging the same request again changes nothing. */
  lemma MergeLaws(a: seq<SimDetector>, b: seq<SimDetector>, c: seq<SimDetector>)
    ensures Merge(Merge(a, b), c) == Merge(a, Merge(b, c))
    ensures Merge(Merge(a, b), b) == Merge(a, b)
  {
    LatestOfMerge(a, b);
    LatestOfMerge(b, c);
    MapSums(Latest(a), Latest(b), Latest(c));
    MergeOfLatest(Merge(a, b), c, a, Merge(b, c));
    MergeOfLatest(Merge(a, b), b, a, b);
  }

  // ---- applying ----

  /** The device the control plane builds for an entry. */
  function DeviceFor(d: SimDetector): Option<Device> {
    var e := WithDefaults(d);
    Build(e.netID, DetectorKind, e.name, e.moduleAddress, e.portCount)
  }

  datatype Applied = Applied(registry: Registry, count: nat, ok: bool)

  /** Registration in list order, up to the first entry refused. */
  function ApplyAll(reg: Registry, ds: seq<SimDetector>): Applied {
    if ds == [] then Applied(reg, 0, true)
    else
      var r := ApplyAll(reg, ds[..|ds| - 1]);
      if !r.ok then r
      else
        match DeviceFor(ds[|ds| - 1])
        case None => r.(ok := false)
        case Some(d) => Applied(Register(r.registry, d), r.count + 1, true)
  }

  function BoosterFor(b: SimBooster): Option<Device> {
    Build(b.netID, BoosterKind, b.name, 0, 0)
  }

  /** One more booster, unless something was refused before. */
  function ApplyBooster(q: Applied, b: SimBooster): Applied {
    if !q.ok then q
    else
      match BoosterFor(b)
      case None => q.(ok := false)
      case Some(d) => Applied(Register(q.registry, d), q.count + 1, true)
  }

  /** Boosters, registered after the detectors under the same rule. */
  function ApplyBoosters(r: Applied, bs: seq<SimBooster>): Applied {
    if bs == [] then r else ApplyBooster(ApplyBoosters(r, bs[..|bs| - 1]), bs[|bs| - 1])
  }

  method ApplyCANDevices(sim: Simulator, ds: seq<SimDetector>, bs: seq<SimBooster>) returns (applied: nat, ok: bool)
    modifies sim
    ensures Applied(sim.canDevices, applied, ok) == ApplyBoosters(ApplyAll(old(sim.canDevices), ds), bs)
  {
    ghost var reg := sim.canDevices;
    applied, ok := ApplyDetectors(sim, ds);
    if !ok {
      NoBoostersAfterFailure(ApplyAll(reg, ds), bs, 0);
      return;
    }
    ghost var r := ApplyAll(reg, ds);
    var i := 0;
    while i < |bs|
      invariant 0 <= i <= |bs|
      invariant ApplyBoosters(r, bs[..i]) == Applied(sim.canDevices, applied, true)
    {
      assert bs[..i + 1][..i] == bs[..i];
      var d := Build(bs[i].netID, BoosterKind, bs[i].name, 0, 0);
      if d.None? {
        NoBoostersAfterFailure(r, bs, i + 1);
        return applied, false;
      }
      sim.RegisterCANDevice(d.value);
      applied := applied + 1;
      i := i + 1;
    }
    assert bs[..i] == bs;
  }

  lemma {:induction false} NoBoostersAfterFailure(r: Applied, bs: seq<SimBooster>, k: nat)
    requires k <= |bs| && !ApplyBoosters(r, bs[..k]).ok
    ensures ApplyBoosters(r, bs) == ApplyBoosters(r, bs[..k])
  {
    if k < |bs| {
      assert bs[..|bs| - 1][..k] == bs[..k];
      NoBoostersAfterFailure(r, bs[..|bs| - 1], k);
    } else {
      assert bs[..k] == bs;
    }
  }

  lemma BoosterNext(q: Applied, b: SimBooster, n: uint16)
    ensures var q' := ApplyBooster(q, b);
            && (q'.ok <==> q.ok && b.netID != 0)
            && (b.netID != n ==> (n in q'.registry <==> n in q.registry)
                                 && (n in q.registry ==> q'.registry[n] == q.registry[n]))
            && (q'.ok && b.netID == n ==>
                  n in q'.registry && q'.registry[n].kind == BoosterKind && q'.registry[n].name == b.name)
  {}

  /** No booster has the id `n`. */
  ghost predicate NoneIs(bs: seq<SimBooster>, n: uint16) {
    forall i :: 0 <= i < |bs| ==> bs[i].netID != n
  }

  lemma NoneIsLast(bs: seq<SimBooster>, n: uint16)
    requires bs != []
    ensures NoneIs(bs, n) <==> NoneIs(bs[..|bs| - 1], n) && bs[|bs| - 1].netID != n
  {}

  /** Boosters come after the detectors and take over any id they share: every
      other detector stays as applied, and all are applied exactly if every
      booster has an id. */
  lemma {:induction false} BoostersComeLast(r: Applied, bs: seq<SimBooster>, n: uint16)
    requires r.ok
    ensures var q := ApplyBoosters(r, bs);
            && (q.ok <==> NoneIs(bs, 0))
            && (NoneIs(bs, n) ==> (n in q.registry <==> n in r.registry)
                                  && (n in r.registry ==> q.registry[n] == r.registry[n]))
            && (q.ok && !NoneIs(bs, n) ==> n in q.registry && q.registry[n].kind == BoosterKind)
  {
    if bs != [] {
      var before := bs[..|bs| - 1];
      BoostersComeLast(r, before, n);
      BoosterNext(ApplyBoosters(r, before), bs[|bs| - 1], n);
      NoneIsLast(bs, 0);
      NoneIsLast(bs, n);
    }
  }

  /** The last booster for an id is the device left for it. */
  lemma {:induction false} BoosterStays(r: Applied, bs: seq<SimBooster>, i: nat)
    requires r.ok && NoneIs(bs, 0) && i < |bs| && forall j :: i < j < |bs| ==> bs[j].netID != bs[i].netID
    ensures var q, b := ApplyBoosters(r, bs), bs[i];
            && b.netID in q.registry && q.registry[b.netID].kind == BoosterKind && q.registry[b.netID].name == b.name
  {
    var before, last := bs[..|bs| - 1], bs[|bs| - 1];
    NoneIsLast(bs, 0);
    BoostersComeLast(r, before, bs[i].netID);
    BoosterNext(ApplyBoosters(r, before), last, bs[i].netID);
    if i < |bs| - 1 { BoosterStays(r, before, i); }
  }

  method ApplyDetectors(sim: Simulator, ds: seq<SimDetector>) returns (applied: nat, ok: bool)
    modifies sim
    ensures Applied(sim.canDevices, applied, ok) == ApplyAll(old(sim.canDevices), ds)
  {
    ghost var reg := sim.canDevices;
    applied := 0;
    var i := 0;
    while i < |ds|
      invariant 0 <= i <= |ds|
      invariant ApplyAll(reg, ds[..i]) == Applied(sim.canDevices, applied, true)
    {
      ApplyAllSnoc(reg, ds, i);
      var e := ds[i];
      var moduleAddr := if e.moduleAddress == 0 then DEFAULT_MODULE_ADDRESS else e.moduleAddress;
      var portCount := if e.portCount == 0 then DEFAULT_PORT_COUNT else e.portCount;
      var d := Build(e.netID, DetectorKind, e.name, moduleAddr, portCount);
      assert d == DeviceFor(e);
      if d.None? {
        FailureIsFinal(reg, ds, i + 1);
        return applied, false;
      }
      sim.RegisterCANDevice(d.value);
      applied := applied + 1;
      i := i + 1;
    }
    assert ds[..i] == ds;
    return applied, true;
  }

  lemma ApplyAllSnoc(reg: Registry, ds: seq<SimDetector>, i: nat)
    requires i < |ds| && ApplyAll(reg, ds[..i]).ok
    ensures var r := ApplyAll(reg, ds[..i]);
            ApplyAll(reg, ds[..i + 1]) ==
              match DeviceFor(ds[i])
              case None => r.(ok := false)
              case Some(d) => Applied(Register(r.registry, d), r.count + 1, true)
  {
    assert ds[..i + 1][..i] == ds[..i];
  }

  lemma {:induction false} FailureIsFinal(reg: Registry, ds: seq<SimDetector>, k: nat)
    requires k <= |ds| && !ApplyAll(reg, ds[..k]).ok
    ensures ApplyAll(reg, ds) == ApplyAll(reg, ds[..k])
  {
    if k < |ds| {
      assert ds[..|ds| - 1][..k] == ds[..k];
      FailureIsFinal(reg, ds[..|ds| - 1], k);
    } else {
      assert ds[..k] == ds;
    }
  }

  /** The devices that a table of entries stands for. */
  function Devices(m: map<uint16, SimDetector>): Registry {
    map n | n in m && DeviceFor(m[n]).Some? :: DeviceFor(m[n]).value
  }

  lemma DeviceForNonZero(d: SimDetector)
    ensures DeviceFor(d).Some? <==> d.netID != 0
    ensures d.netID != 0 ==>
              var e := DeviceFor(d).value;
              && e.netID == d.netID && e.kind == DetectorKind && e.name == d.name
              && e.moduleAddr == AddressAsked(d) && |e.ports| == PortsAsked(d)
  {}

  /** Applying a list in order leaves, for each id, the device of its last entry. */
  lemma {:induction false} ApplyKeepsLatest(reg: Registry, ds: seq<SimDetector>)
    requires NonZero(ds)
    ensures ApplyAll(reg, ds) == Applied(reg + Devices(Latest(ds)), |ds|, true)
  {
    if ds == [] {
      assert reg + Devices(map[]) == reg;
    } else {
      var n := |ds| - 1;
      ApplyKeepsLatest(reg, ds[..n]);
      LatestKeyed(ds[..n]);
      DeviceForNonZero(ds[n]);
      OneMoreDevice(reg, Latest(ds[..n]), ds[n]);
    }
  }

  /** The device left for an id, in the fields of the last entry for it. */
  lemma AppliedDevice(reg: Registry, ds: seq<SimDetector>, i: nat)
    requires NonZero(ds) && i < |ds| && forall j :: i < j < |ds| ==> ds[j].netID != ds[i].netID
    ensures var after, d := ApplyAll(reg, ds), ds[i];
            && after.ok && after.count == |ds| && d.netID in after.registry
            && var e := after.registry[d.netID];
               && e.kind == DetectorKind && e.netID == d.netID && e.name == d.name
               && e.moduleAddr == AddressAsked(d) && |e.ports| == PortsAsked(d)
  {
    ApplyKeepsLatest(reg, ds);
    LastEntry(ds, i);
    DeviceForNonZero(ds[i]);
    assert Devices(Latest(ds))[ds[i].netID] == DeviceFor(ds[i]).value;
  }

  lemma {:induction false} LastEntry(ds: seq<SimDetector>, i: nat)
    requires i < |ds| && forall j :: i < j < |ds| ==> ds[j].netID != ds[i].netID
    ensures ds[i].netID in Latest(ds) && Latest(ds)[ds[i].netID] == ds[i]
  {
    if i < |ds| - 1 { LastEntry(ds[..|ds| - 1], i); }
  }

  lemma OneMoreDevice(reg: Registry, m: map<uint16, SimDetector>, d: SimDetector)
    requires d.netID != 0
    ensures DeviceFor(d).Some?
    ensures Register(reg + Devices(m), DeviceFor(d).value) == reg + Devices(m[d.netID := d])
  {
    DeviceForNonZero(d);
    assert Devices(m[d.netID := d]) == Devices(m)[d.netID := DeviceFor(d).value];
  }

  lemma MergeNonZero(a: seq<SimDetector>, b: seq<SimDetector>)
    requires NonZero(a) && NonZero(b)
    ensures NonZero(Merge(a, b))
  {
    LatestKeyed(a + b);
    ValuesFromCorrect(Latest(a + b), 0);
    var m := Merge(a, b);
    forall i | 0 <= i < |m| ensures m[i].netID != 0 { assert m[i] in m; }
  }

  /** Last writer wins across the components: applying a merge gives any
      simulator the registry that applying the stored list and then the request
      would have given it. */
  lemma ApplyOfMerge(reg: Registry, existing: seq<SimDetector>, incoming: seq<SimDetector>)
    requires NonZero(existing) && NonZero(incoming)
    ensures ApplyAll(reg, Merge(existing, incoming)).ok
    ensures ApplyAll(reg, Merge(existing, incoming)).registry
         == ApplyAll(ApplyAll(reg, existing).registry, incoming).registry
  {
    MergeNonZero(existing, incoming);
    ApplyKeepsLatest(reg, Merge(existing, incoming));
    ApplyKeepsLatest(reg, existing);
    ApplyKeepsLatest(reg + Devices(Latest(existing)), incoming);
    LatestOfMerge(existing, incoming);
    LatestKeyed(existing);
    LatestKeyed(incoming);
    DevicesOfSum(Latest(existing), Latest(incoming));
    MapSums(reg, Devices(Latest(existing)), Devices(Latest(incoming)));
  }

  lemma DevicesAt(m: map<uint16, SimDetector>)
    requires Keyed(m) && 0 !in m
    ensures Devices(m).Keys == m.Keys
    ensures forall n :: n in m ==> DeviceFor(m[n]).Some? && Devices(m)[n] == DeviceFor(m[n]).value
  {
    forall n | n in m ensures DeviceFor(m[n]).Some? { DeviceForNonZero(m[n]); }
  }

  /** `reg` holds the device of each entry and no other. */
  ghost predicate Holds(reg: Registry, m: map<uint16, SimDetector>) {
    reg.Keys == m.Keys && forall n :: n in m ==> DeviceFor(m[n]) == Some(reg[n])
  }

  lemma HoldsSum(x: Registry, a: map<uint16, SimDetector>, y: Registry, b: map<uint16, SimDetector>)
    requires Holds(x, a) && Holds(y, b)
    ensures Holds(x + y, a + b)
  {
    forall n | n in a + b ensures DeviceFor((a + b)[n]) == Some((x + y)[n]) {
      if n in b { assert (a + b)[n] == b[n]; } else { assert (a + b)[n] == a[n]; }
    }
  }

  lemma HoldsUniquely(x: Registry, y: Registry, m: map<uint16, SimDetector>)
    requires Holds(x, m) && Holds(y, m)
    ensures x == y
  {
    forall n | n in m ensures x[n] == y[n] { assert Some(x[n]) == DeviceFor(m[n]) == Some(y[n]); }
  }

  lemma DevicesHold(m: map<uint16, SimDetector>)
    requires Keyed(m) && 0 !in m
    ensures Holds(Devices(m), m)
  {
    DevicesAt(m);
  }

  lemma DevicesOfSum(a: map<uint16, SimDetector>, b: map<uint16, SimDetector>)
    requires Keyed(a) && Keyed(b) && 0 !in a && 0 !in b
    ensures Devices(a + b) == Devices(a) + Devices(b)
  {
    SumIsSound(a, b, {});
    DevicesHold(a);
    DevicesHold(b);
    DevicesHold(a + b);
    HoldsSum(Devices(a), a, Devices(b), b);
    HoldsUniquely(Devices(a + b), Devices(a) + Devices(b), a + b);
  }

  /** Why every way into the stored list refuses a missing id, as the API and
      the resource's schema do: an entry without one would sort to the front of
      a merge and keep everything from being applied. */
  lemma MergeWithZeroAppliesNothing(reg: Registry, existing: seq<SimDetector>, incoming: seq<SimDetector>)
    ensures ApplyAll(reg, Merge(existing, incoming)) == Applied(reg, 0, false) <==>
              !NonZero(existing) || !NonZero(incoming)
  {
    if NonZero(existing) && NonZero(incoming) {
      MergeNonZero(existing, incoming);
      ApplyKeepsLatest(reg, Merge(existing, incoming));
    } else {
      var all := existing + incoming;
      var i :| 0 <= i < |all| && all[i].netID == 0 by { ZeroSomewhere(existing, incoming); }
      LatestKeyed(all);
      var m := Merge(existing, incoming);
      assert m == [Latest(all)[0]] + ValuesFrom(Latest(all), 1);
      DeviceForNonZero(m[0]);
      assert m[..1][..0] == [] && m[..1][0] == m[0];
      assert ApplyAll(reg, m[..1]) == Applied(reg, 0, false);
      FailureIsFinal(reg, m, 1);
    }
  }

  lemma ZeroSomewhere(a: seq<SimDetector>, b: seq<SimDetector>)
    requires !NonZero(a) || !NonZero(b)
    ensures exists i :: 0 <= i < |a + b| && (a + b)[i].netID == 0
  {
    if !NonZero(a) {
      var i :| 0 <= i < |a| && a[i].netID == 0;
      assert (a + b)[i] == a[i];
    } else {
      var i :| 0 <= i < |b| && b[i].netID == 0;
      assert (a + b)[|a| + i] == b[i];
    }
  }

  // ---- from the API to discovery ----

  /** A request comes in, the controller applies what is stored, or the gateway
      commands a module to take an address. */
  datatype Event = Post(request: seq<SimDetector>) | Apply | Command(netID: uint16, addr: uint16)

  /** The stored simulation, if there is one yet, and the simulator's registry. */
  datatype System = System(stored: Option<seq<SimDetector>>, registry: Registry)

  /** The entries a request contributes: none if it is empty or refused. */
  function Accepted(request: seq<SimDetector>): seq<SimDetector> {
    match FromAPI(request) case Some(ds) => ds case None => []
  }

  /** A request that contributes nothing is answered with an error and changes
      nothing; the first one else is stored as it came, later ones merged in. */
  function Happen(sys: System, e: Event): System {
    match e
    case Post(request) =>
      var r := Accepted(request);
      if r == [] then sys else sys.(stored := Some(if sys.stored.None? then r else Merge(sys.stored.value, r)))
    case Apply => if sys.stored.None? then sys else sys.(registry := ApplyAll(sys.registry, sys.stored.value).registry)
    case Command(netID, addr) => sys.(registry := HandleState(sys.registry, SetModuleAddress(netID, addr)))
  }

  function SystemAfter(es: seq<Event>): System {
    if es == [] then System(None, map[]) else Happen(SystemAfter(es[..|es| - 1]), es[|es| - 1])
  }

  /** The entries of the requests so far that name every id, in order, as posted. */
  function Posted(es: seq<Event>): seq<SimDetector> {
    if es == [] then []
    else
      var before, last := Posted(es[..|es| - 1]), es[|es| - 1];
      if last.Post? && NonZero(last.request) then before + last.request else before
  }

  /** What had been posted when the controller last applied. */
  function PostedByLastApply(es: seq<Event>): seq<SimDetector> {
    if es == [] then []
    else if es[|es| - 1].Apply? then Posted(es)
    else PostedByLastApply(es[..|es| - 1])
  }

  /** The entries that reached the stored list, in order, defaults filled in. */
  function Taken(es: seq<Event>): seq<SimDetector> {
    if es == [] then []
    else Taken(es[..|es| - 1]) + (if es[|es| - 1].Post? then Accepted(es[|es| - 1].request) else [])
  }

  function TakenByLastApply(es: seq<Event>): seq<SimDetector> {
    if es == [] then []
    else if es[|es| - 1].Apply? then Taken(es)
    else TakenByLastApply(es[..|es| - 1])
  }

  /** Entry by entry, `es` completes `ds`. */
  ghost predicate AllComplete(ds: seq<SimDetector>, es: seq<SimDetector>) {
    |es| == |ds| && forall i :: 0 <= i < |ds| ==> Completes(ds[i], es[i])
  }

  lemma CompleteAppend(ds: seq<SimDetector>, es: seq<SimDetector>, request: seq<SimDetector>)
    requires AllComplete(ds, es)
    ensures AllComplete(if NonZero(request) then ds + request else ds, es + Accepted(request))
  {
    var taken := Accepted(request);
    if NonZero(request) { assert AllComplete(request, taken); }
    assert es + [] == es;
  }

  lemma {:induction false} TakenIsPosted(es: seq<Event>)
    ensures AllComplete(Posted(es), Taken(es))
  {
    if es != [] {
      var before, last := es[..|es| - 1], es[|es| - 1];
      TakenIsPosted(before);
      if last.Post? {
        CompleteAppend(Posted(before), Taken(before), last.request);
      } else {
        assert Taken(before) + [] == Taken(before);
      }
    }
  }

  lemma {:induction false} AppliedIsPosted(es: seq<Event>)
    ensures AllComplete(PostedByLastApply(es), TakenByLastApply(es))
  {
    if es != [] {
      if es[|es| - 1].Apply? { TakenIsPosted(es); } else { AppliedIsPosted(es[..|es| - 1]); }
    }
  }

  /** The latest entries of completed lists are the completed latest entries. */
  lemma {:induction false} LatestComplete(ds: seq<SimDetector>, es: seq<SimDetector>)
    requires AllComplete(ds, es)
    ensures Latest(es).Keys == Latest(ds).Keys
    ensures forall n :: n in Latest(ds) ==> Completes(Latest(ds)[n], Latest(es)[n])
  {
    if ds != [] { LatestComplete(ds[..|ds| - 1], es[..|es| - 1]); }
  }

  /** The addresses commanded since. */
  function CommandedSince(es: seq<Event>): map<uint16, uint16> {
    if es == [] then map[]
    else
      match es[|es| - 1]
      case Apply => map[]
      case Post(_) => CommandedSince(es[..|es| - 1])
      case Command(n, a) => CommandedSince(es[..|es| - 1])[n := a]
  }

  /** The devices of a registry at commanded addresses. */
  function Moved(reg: Registry, addrs: map<uint16, uint16>): Registry {
    map n | n in reg :: if n in addrs then reg[n].(moduleAddr := addrs[n]) else reg[n]
  }

  ghost predicate AllDetectors(reg: Registry) {
    forall n :: n in reg ==> reg[n].kind == DetectorKind
  }

  /** A table of entries as a stored list yields it. */
  ghost predicate Sound(m: map<uint16, SimDetector>) {
    Keyed(m) && 0 !in m
  }

  /** The stored list holds the last entry posted for each id; the registry the
      devices of those posted by the last apply, at the addresses commanded since. */
  ghost predicate Follows(sys: System, posted: map<uint16, SimDetector>, applied: map<uint16, SimDetector>,
                          addrs: map<uint16, uint16>) {
    && Sound(posted) && Sound(applied) && applied.Keys <= posted.Keys
    && (if sys.stored.None? then posted == map[] else NonZero(sys.stored.value) && Latest(sys.stored.value) == posted)
    && sys.registry == Moved(Devices(applied), addrs)
  }

  lemma {:induction false} SystemFollows(es: seq<Event>)
    ensures Follows(SystemAfter(es), Latest(Taken(es)), Latest(TakenByLastApply(es)), CommandedSince(es))
  {
    if es != [] {
      var before, last := es[..|es| - 1], es[|es| - 1];
      SystemFollows(before);
      var sys, posted := SystemAfter(before), Taken(before);
      var applied, addrs := Latest(TakenByLastApply(before)), CommandedSince(before);
      match last
      case Post(request) =>
        LatestAppend(posted, Accepted(request));
        PostFollows(sys, Latest(posted), applied, addrs, request);
      case Apply =>
        assert Taken(es) == posted;
        ApplyFollows(sys, Latest(posted), applied, addrs);
      case Command(n, a) =>
        assert Taken(es) == posted;
        CommandFollows(sys, Latest(posted), applied, addrs, n, a);
    }
  }

  lemma PostFollows(sys: System, posted: map<uint16, SimDetector>, applied: map<uint16, SimDetector>,
                    addrs: map<uint16, uint16>, request: seq<SimDetector>)
    requires Follows(sys, posted, applied, addrs)
    ensures Follows(Happen(sys, Post(request)), posted + Latest(Accepted(request)), applied, addrs)
  {
    var r := Accepted(request);
    LatestNonZero(r);
    if r == [] {
      assert posted + map[] == posted;
    } else {
      SumIsSound(posted, Latest(r), applied.Keys);
      StoredAfterPost(sys.stored, posted, r);
    }
  }

  lemma CommandFollows(sys: System, posted: map<uint16, SimDetector>, applied: map<uint16, SimDetector>,
                       addrs: map<uint16, uint16>, n: uint16, a: uint16)
    requires Follows(sys, posted, applied, addrs)
    ensures Follows(Happen(sys, Command(n, a)), posted, applied, addrs[n := a])
  {
    DevicesAreDetectors(applied);
    MovedOnce(Devices(applied), addrs, n, a);
  }

  lemma DevicesAreDetectors(m: map<uint16, SimDetector>)
    requires Sound(m)
    ensures AllDetectors(Devices(m))
  {
    forall n | n in Devices(m) ensures Devices(m)[n].kind == DetectorKind { DeviceForNonZero(m[n]); }
  }

  lemma MovedOnce(reg: Registry, addrs: map<uint16, uint16>, n: uint16, a: uint16)
    requires AllDetectors(reg)
    ensures Readdress(Moved(reg, addrs), n, a) == Moved(reg, addrs[n := a])
  {}

  lemma LatestNonZero(ds: seq<SimDetector>)
    requires NonZero(ds)
    ensures Keyed(Latest(ds)) && 0 !in Latest(ds)
  {
    LatestKeyed(ds);
  }

  lemma SumIsSound(p: map<uint16, SimDetector>, q: map<uint16, SimDetector>, applied: set<uint16>)
    requires Keyed(p) && Keyed(q) && 0 !in p && 0 !in q && applied <= p.Keys
    ensures Keyed(p + q) && 0 !in p + q && applied <= (p + q).Keys
  {}

  lemma StoredAfterPost(stored: Option<seq<SimDetector>>, posted: map<uint16, SimDetector>, r: seq<SimDetector>)
    requires NonZero(r)
    requires if stored.None? then posted == map[] else NonZero(stored.value) && Latest(stored.value) == posted
    ensures var list := if stored.None? then r else Merge(stored.value, r);
            NonZero(list) && Latest(list) == posted + Latest(r)
  {
    if stored.None? {
      assert map[] + Latest(r) == Latest(r);
    } else {
      LatestOfMerge(stored.value, r);
      MergeNonZero(stored.value, r);
    }
  }

  /** Applying a list that has every id applied before leaves nothing of the
      past, commanded addresses included. */
  lemma ApplyFollows(sys: System, posted: map<uint16, SimDetector>, applied: map<uint16, SimDetector>,
                     addrs: map<uint16, uint16>)
    requires Follows(sys, posted, applied, addrs)
    ensures Follows(Happen(sys, Apply), posted, posted, map[])
  {
    assert Moved(Devices(posted), map[]) == Devices(posted);
    if sys.stored.Some? {
      ApplyKeepsLatest(sys.registry, sys.stored.value);
      NothingOfThePast(posted, applied, addrs);
    } else {
      assert applied == map[];
    }
  }

  lemma NothingOfThePast(posted: map<uint16, SimDetector>, applied: map<uint16, SimDetector>, addrs: map<uint16, uint16>)
    requires Sound(posted) && Sound(applied) && applied.Keys <= posted.Keys
    ensures Moved(Devices(applied), addrs) + Devices(posted) == Devices(posted)
  {
    DevicesAt(posted);
    DevicesAt(applied);
  }

  /** What discovery should find of an entry at the address it asks for. */
  function Advertisement(d: SimDetector): Discovered {
    Discovered(d.netID, AddressAsked(d), set i | 0 <= i < PortsAsked(d) :: i % 0x100)
  }

  /** What discovery should find of a table of posted entries and the addresses commanded since. */
  function Advertised(m: map<uint16, SimDetector>, addrs: map<uint16, uint16>): Summary {
    AllAdvertised(m, addrs) - {POLL_ALL}
  }

  function AllAdvertised(m: map<uint16, SimDetector>, addrs: map<uint16, uint16>): Summary {
    map n | n in m :: AdvertisedAt(m[n], addrs)
  }

  lemma EntryAdvertised(d: SimDetector)
    requires d.netID != 0
    ensures DeviceFor(d).Some? && EntryOf(DeviceFor(d).value) == Advertisement(d)
  {}

  lemma DevicesAdvertised(m: map<uint16, SimDetector>, addrs: map<uint16, uint16>)
    requires Sound(m)
    ensures RegistryInv(Moved(Devices(m), addrs)) && Expected(Moved(Devices(m), addrs)) == Advertised(m, addrs)
  {
    var reg, es := Moved(Devices(m), addrs), AllAdvertised(m, addrs);
    DevicesAt(m);
    forall n | n in es ensures AdvertisedAs(reg[n], n, es[n]) {
      assert es[n] == AdvertisedAt(m[n], addrs);
      DeviceAdvertised(m, addrs, n);
    }
    ExpectedOf(reg, es);
  }

  lemma ExpectedOf(reg: Registry, es: map<uint16, Discovered>)
    requires reg.Keys == es.Keys && forall n :: n in es ==> AdvertisedAs(reg[n], n, es[n])
    ensures RegistryInv(reg) && Expected(reg) == es - {POLL_ALL}
  {}

  /** What discovery should find of one posted entry. */
  function AdvertisedAt(d: SimDetector, addrs: map<uint16, uint16>): Discovered {
    if d.netID in addrs then Advertisement(d).(addr := addrs[d.netID]) else Advertisement(d)
  }

  /** A detector registered under `n` that discovery describes so. */
  ghost predicate AdvertisedAs(d: Device, n: uint16, e: Discovered) {
    d.netID == n && d.kind == DetectorKind && |d.ports| > 0 && EntryOf(d) == e
  }

  lemma DeviceAdvertised(m: map<uint16, SimDetector>, addrs: map<uint16, uint16>, n: uint16)
    requires Sound(m) && n in m
    ensures n in Moved(Devices(m), addrs) && AdvertisedAs(Moved(Devices(m), addrs)[n], n, AdvertisedAt(m[n], addrs))
  {
    DeviceForNonZero(m[n]);
    EntryAdvertised(m[n]);
    if n in addrs { EntryMoved(DeviceFor(m[n]).value, addrs[n]); }
  }

  lemma EntryMoved(d: Device, a: uint16)
    ensures EntryOf(d.(moduleAddr := a)) == EntryOf(d).(addr := a)
  {}

  lemma CompletedAdvertised(m: map<uint16, SimDetector>, m': map<uint16, SimDetector>, addrs: map<uint16, uint16>)
    requires m'.Keys == m.Keys && forall n :: n in m ==> Completes(m[n], m'[n])
    ensures Advertised(m', addrs) == Advertised(m, addrs)
  {
    forall n | n in m ensures AdvertisedAt(m'[n], addrs) == AdvertisedAt(m[n], addrs) {
      assert AddressAsked(m'[n]) == AddressAsked(m[n]) && PortsAsked(m'[n]) == PortsAsked(m[n]);
    }
    assert AllAdvertised(m', addrs) == AllAdvertised(m, addrs);
  }

  /** End to end, from API requests to the gateway.  Whatever the interleaving
      of requests, refused or accepted, of the controller's applications of what
      is stored and of the gateway's commands, discovery finds exactly the
      detectors posted by the last application: each as last posted by then, at
      the address posted (1 if none) with as many ports as posted (8 if none),
      but at the address it was last commanded to take since, if any.  An
      application puts every module back at its posted address. */
  lemma PostedDetectorsAreDiscovered(es: seq<Event>, msgs: seq<Message>)
    requires IsPollReply(SystemAfter(es).registry, POLL_ALL, msgs)
    ensures Summarize(msgs) == Some(Advertised(Latest(PostedByLastApply(es)), CommandedSince(es)))
    ensures es != [] && es[|es| - 1].Apply? ==> Summarize(msgs) == Some(Advertised(Latest(Posted(es)), map[]))
  {
    SystemFollows(es);
    var m := Latest(TakenByLastApply(es));
    DevicesAdvertised(m, CommandedSince(es));
    DiscoveryIsExact(Moved(Devices(m), CommandedSince(es)), msgs);
    AppliedIsPosted(es);
    LatestComplete(PostedByLastApply(es), TakenByLastApply(es));
    CompletedAdvertised(Latest(PostedByLastApply(es)), m, CommandedSince(es));
  }

  /** A detector posted at an address of its own, last for its id, is found there
      after an application, whatever was commanded before. */
  lemma PostedAddressIsFound(es: seq<Event>, i: nat, msgs: seq<Message>)
    requires es != [] && es[|es| - 1].Apply? && IsPollReply(SystemAfter(es).registry, POLL_ALL, msgs)
    requires i < |Posted(es)| && forall j :: i < j < |Posted(es)| ==> Posted(es)[j].netID != Posted(es)[i].netID
    requires Posted(es)[i].moduleAddress != 0 && Posted(es)[i].netID != POLL_ALL
    ensures var d := Posted(es)[i];
            && Summarize(msgs).Some? && d.netID in Summarize(msgs).value
            && Summarize(msgs).value[d.netID].addr == d.moduleAddress
  {
    PostedDetectorsAreDiscovered(es, msgs);
    LastEntry(Posted(es), i);
    var d := Posted(es)[i];
    assert Advertised(Latest(Posted(es)), map[])[d.netID] == AdvertisedAt(d, map[]);
  }
}

/** operators/z21-device/internal/controller/candetector_allocate.go: the
    decision one reconcile takes.  Each decision rebuilds a pool from the
    detectors' own records. */
module Allocation {
  import opened Basics
  import opened PoolConfig
  import Spec = PoolSpec
  import opened PoolSpec
  import opened CanPool
  import opened Detectors

  datatype AllocationResult = AllocationResult(
    desiredAddr: uint16, assignedAddr: uint16, phase: Phase, message: Message, stats: Stats)

  function Failure(m: Message): AllocationResult {
    AllocationResult(0, 0, Failed, m, Stats(0, 0, 0, 0))
  }

  function Success(p: PoolState, a: uint16): AllocationResult
    requires p.cfg.end <= MAX_MODULE_ADDRESS
  {
    AllocationResult(a, a, Allocated, NoMessage, StatsOf(p))
  }

  /** The assignments on record, in list order. */
  function Assigned(ds: seq<Detector>): seq<Assignment> {
    if ds == [] then []
    else
      var d := ds[|ds| - 1];
      Assigned(ds[..|ds| - 1])
      + (if Effective(d).Some? then [Assignment(OwnerKey(d.key), Effective(d).value, d.netID)] else [])
  }

  /** Whether the detector keeps the address its module reports. */
  predicate Adopts(p: PoolState, d: Detector) {
    AdoptObservedEnabled(d) && d.observedAddr.Some? && IsAvailable(p, d.observedAddr.value)
  }

  /** The choice made in a pool that holds the recorded assignments. */
  function Choice(p: PoolState, d: Detector): (PoolState, Result<uint16, PoolError>)
    requires p.cfg.end <= MAX_MODULE_ADDRESS
  {
    var owner := OwnerKey(d.key);
    if owner in p.addrByOwner then (p, Ok(p.addrByOwner[owner]))
    else if Adopts(p, d) then (Spec.Claim(p, owner, d.observedAddr.value), Ok(d.observedAddr.value))
    else Spec.Allocate(p, owner)
  }

  function Choose(p: PoolState, d: Detector): AllocationResult
    requires p.cfg.end <= MAX_MODULE_ADDRESS
  {
    match Choice(p, d).1
    case Ok(a) => Success(Choice(p, d).0, a)
    case Err(e) => Failure(PoolRefused(e))
  }

  function Decide(c: Config, ds: seq<Detector>, d: Detector): AllocationResult {
    if FirstError(c).Some? then Failure(BadConfig(FirstError(c).value))
    else
      AcceptsExactlyValid(c);
      match Spec.Rebuild(c, Assigned(ds))
      case (_, Some(e)) => Failure(PoolRefused(e))
      case (p, None) => Choose(p, d)
  }

  method AssignmentsFromDetectors(ds: seq<Detector>) returns (out: seq<Assignment>)
    ensures out == Assigned(ds)
  {
    out := [];
    for i := 0 to |ds|
      invariant out == Assigned(ds[..i])
    {
      assert ds[..i + 1][..i] == ds[..i];
      var addr := Effective(ds[i]);
      if addr.Some? {
        out := out + [Assignment(OwnerKey(ds[i].key), addr.value, ds[i].netID)];
      }
    }
    assert ds[..|ds|] == ds;
  }

  method SuccessResult(pool: Pool, a: uint16) returns (r: AllocationResult)
    requires pool.Valid()
    ensures r == Success(pool.View(), a)
  {
    var stats := pool.Stats();
    return AllocationResult(a, a, Allocated, NoMessage, stats);
  }

  method AllocateDetectorAddress(c: Config, ds: seq<Detector>, d: Detector) returns (r: AllocationResult)
    ensures r == Decide(c, ds, d)
  {
    var created := Pool.New(c);
    if created.Err? { return Failure(BadConfig(created.error)); }
    var pool := created.value;
    var assignments := AssignmentsFromDetectors(ds);
    var err := pool.Rebuild(assignments);
    if err.Some? { return Failure(PoolRefused(err.value)); }

    r := ChooseAddress(pool, d);
  }

  /** The branch for a claim that fails is never taken: an available address
      can always be claimed for an owner that has none. */
  method ChooseAddress(pool: Pool, d: Detector) returns (r: AllocationResult)
    requires pool.Valid()
    modifies pool
    ensures pool.Valid()
    ensures pool.View() == Choice(old(pool.View()), d).0
    ensures r == Choose(old(pool.View()), d)
  {
    var owner := OwnerKey(d.key);
    var held := pool.AddressOf(owner);
    if held.Some? {
      r := SuccessResult(pool, held.value);
      return;
    }
    if AdoptObservedEnabled(d) && d.observedAddr.Some? {
      var observed := d.observedAddr.value;
      if pool.IsAvailable(observed) {
        var err := pool.Claim(owner, observed);
        assert err.None?;
        r := SuccessResult(pool, observed);
        return;
      }
    }
    var got := pool.Allocate(owner);
    if got.Err? { return Failure(PoolRefused(got.error)); }
    r := SuccessResult(pool, got.value);
  }

  // ---- what is decided, said of the records themselves ----

  /** The records, each one of a differently named detector. */
  ghost predicate DistinctKeys(ds: seq<Detector>) {
    && (forall i, j :: 0 <= i < j < |ds| ==> ds[i].key != ds[j].key)
    && (forall i :: 0 <= i < |ds| ==> '/' !in ds[i].key.ns)
  }

  /** Recorded addresses lie in the pool's range and are pairwise different. */
  ghost predicate Consistent(c: Config, ds: seq<Detector>) {
    && (forall i :: 0 <= i < |ds| && Effective(ds[i]).Some? ==> InRange(c, Effective(ds[i]).value))
    && (forall i, j :: 0 <= i < j < |ds| && Effective(ds[i]).Some? ==> Effective(ds[i]) != Effective(ds[j]))
  }

  /** The addresses the records hold. */
  ghost function Taken(ds: seq<Detector>): set<uint16> {
    set i | 0 <= i < |ds| && Effective(ds[i]).Some? :: Effective(ds[i]).value
  }

  lemma {:induction false} HeldIsAssigned(ds: seq<Detector>, d: Detector)
    requires d in ds && Effective(d).Some?
    ensures Assignment(OwnerKey(d.key), Effective(d).value, d.netID) in Assigned(ds)
  {
    if d != ds[|ds| - 1] { HeldIsAssigned(ds[..|ds| - 1], d); }
  }

  lemma {:induction false} AssignedIsHeld(ds: seq<Detector>, x: Assignment) returns (d: Detector)
    requires x in Assigned(ds)
    ensures d in ds && Effective(d) == Some(x.addr) && x.owner == OwnerKey(d.key)
  {
    var n := |ds| - 1;
    if x in Assigned(ds[..n]) { d := AssignedIsHeld(ds[..n], x); } else { d := ds[n]; }
  }

  /** The recorded assignments form a loadable list exactly when the records are consistent. */
  lemma {:induction false} AssignedValid(c: Config, ds: seq<Detector>)
    requires ValidConfig(c) && DistinctKeys(ds)
    ensures ValidList(c, Assigned(ds)) <==> Consistent(c, ds)
    ensures Addrs(Assigned(ds)) == Taken(ds)
  {
    if ds != [] {
      var n := |ds| - 1;
      var es, d := ds[..n], ds[n];
      assert ds == es + [d];
      AssignedValid(c, es);
      TakenSnoc(es, d);
      ConsistentSnoc(c, es, d);
      if Effective(d).Some? {
        var x := Assignment(OwnerKey(d.key), Effective(d).value, d.netID);
        ValidListSnoc(c, Assigned(es), x);
        FreshOwner(es, d);
      } else {
        assert Assigned(ds) == Assigned(es);
      }
    }
  }

  lemma TakenSnoc(es: seq<Detector>, d: Detector)
    ensures Taken(es + [d]) == Taken(es) + (if Effective(d).Some? then {Effective(d).value} else {})
  {
    var ds := es + [d];
    assert ds[|es|] == d && forall i :: 0 <= i < |es| ==> ds[i] == es[i];
    forall a | a in Taken(es) ensures a in Taken(ds) {
      var i :| 0 <= i < |es| && Effective(es[i]) == Some(a);
      assert ds[i] == es[i];
    }
  }

  lemma ConsistentSnoc(c: Config, es: seq<Detector>, d: Detector)
    ensures Consistent(c, es + [d]) <==>
              && Consistent(c, es)
              && (Effective(d).Some? ==> InRange(c, Effective(d).value) && Effective(d).value !in Taken(es))
  {
    var ds := es + [d];
    assert ds[|es|] == d && forall i :: 0 <= i < |es| ==> ds[i] == es[i];
    if Consistent(c, ds) && Effective(d).Some? {
      forall i | 0 <= i < |es| ensures Effective(es[i]) != Effective(d) { assert ds[i] == es[i]; }
    }
  }

  lemma FreshOwner(es: seq<Detector>, d: Detector)
    requires DistinctKeys(es + [d])
    ensures OwnerKey(d.key) !in Owners(Assigned(es))
  {
    if OwnerKey(d.key) in Owners(Assigned(es)) {
      var x :| x in Assigned(es) && x.owner == OwnerKey(d.key);
      var e := AssignedIsHeld(es, x);
      var i :| 0 <= i < |es| && es[i] == e;
      assert (es + [d])[i] == e && (es + [d])[|es|] == d;
      OwnerKeyInjective(e.key, d.key);
      assert false;
    }
  }

  /** The addresses a decision may pick for a detector that holds none. */
  ghost predicate Choosable(c: Config, ds: seq<Detector>, a: uint16) {
    InRange(c, a) && a !in Taken(ds) && a !in ReservedSet(c)
  }

  /** The pool a decision is taken from, said of the records. */
  lemma RebuiltPool(c: Config, ds: seq<Detector>, d: Detector)
    requires ValidConfig(c) && DistinctKeys(ds) && Consistent(c, ds) && '/' !in d.key.ns
    requires forall e :: e in ds && e.key == d.key ==> e == d
    ensures var (p, err) := Spec.Rebuild(c, Assigned(ds));
            && err.None? && Inv(p) && p.cfg == c
            && p.ownerByAddr.Keys == Taken(ds)
            && (OwnerKey(d.key) in p.addrByOwner <==> d in ds && Effective(d).Some?)
            && (d in ds && Effective(d).Some? ==> p.addrByOwner[OwnerKey(d.key)] == Effective(d).value)
  {
    AssignedValid(c, ds);
    RebuildExact(c, Assigned(ds));
    OwnerRecorded(ds, d);
    if d in ds && Effective(d).Some? {
      HeldIsAssigned(ds, d);
      OwnRecord(Spec.Rebuild(c, Assigned(ds)).0, Assigned(ds), Assignment(OwnerKey(d.key), Effective(d).value, d.netID));
    }
  }

  /** A detector's own record is the only one under its owner identity. */
  lemma OwnerRecorded(ds: seq<Detector>, d: Detector)
    requires DistinctKeys(ds) && '/' !in d.key.ns
    requires forall e :: e in ds && e.key == d.key ==> e == d
    ensures OwnerKey(d.key) in Owners(Assigned(ds)) ==> d in ds && Effective(d).Some?
  {
    if OwnerKey(d.key) in Owners(Assigned(ds)) {
      var x :| x in Assigned(ds) && x.owner == OwnerKey(d.key);
      var e := AssignedIsHeld(ds, x);
      var j :| 0 <= j < |ds| && ds[j] == e;
      OwnerKeyInjective(e.key, d.key);
    }
  }

  lemma OwnRecord(p: PoolState, xs: seq<Assignment>, x: Assignment)
    requires Holds(p, xs) && x in xs
    ensures x.owner in p.addrByOwner && p.addrByOwner[x.owner] == x.addr
  {}

  ghost predicate HoldsAddress(ds: seq<Detector>, d: Detector) {
    d in ds && Effective(d).Some?
  }

  ghost predicate MayAdopt(c: Config, ds: seq<Detector>, d: Detector) {
    AdoptObservedEnabled(d) && d.observedAddr.Some?
    && InRange(c, d.observedAddr.value) && d.observedAddr.value !in Taken(ds)
  }

  /** The address a decision over consistent records gives a detector that holds none, if any. */
  ghost predicate WouldGet(c: Config, ds: seq<Detector>, d: Detector, a: uint16) {
    if MayAdopt(c, ds, d) then d.observedAddr == Some(a) else IsLeastChoosable(c, ds, a)
  }

  ghost predicate IsLeastChoosable(c: Config, ds: seq<Detector>, a: uint16) {
    Choosable(c, ds, a) && forall b: uint16 :: b < a ==> !Choosable(c, ds, b)
  }

  /** What is given, read off the records: an address exactly if it would be got. */
  lemma GivenExactly(c: Config, ds: seq<Detector>, d: Detector, a: uint16)
    requires ValidConfig(c) && DistinctKeys(ds) && Consistent(c, ds) && '/' !in d.key.ns
    requires forall e :: e in ds && e.key == d.key ==> e == d
    requires !HoldsAddress(ds, d)
    ensures Decide(c, ds, d).phase == Allocated && Decide(c, ds, d).assignedAddr == a <==> WouldGet(c, ds, d, a)
  {
    DecisionCharacterised(c, ds, d);
    var r := Decide(c, ds, d);
    if !MayAdopt(c, ds, d) && IsLeastChoosable(c, ds, a) && r.phase == Allocated {
      LeastIsUnique(c, ds, a, r.assignedAddr);
    }
  }

  lemma LeastIsUnique(c: Config, ds: seq<Detector>, a: uint16, b: uint16)
    requires IsLeastChoosable(c, ds, a) && IsLeastChoosable(c, ds, b)
    ensures a == b
  {}

  /** The full characterisation.  Over consistent records, a detector keeps the
      address it holds; else it adopts the one its module reports if that is
      enabled and the address is in range and held by nobody (reserved or not);
      else it gets the least address neither held nor reserved; and it fails,
      naming no address, exactly when there is none. */
  lemma DecisionCharacterised(c: Config, ds: seq<Detector>, d: Detector)
    requires ValidConfig(c) && DistinctKeys(ds) && Consistent(c, ds) && '/' !in d.key.ns
    requires forall e :: e in ds && e.key == d.key ==> e == d
    ensures var r := Decide(c, ds, d);
            && r.desiredAddr == r.assignedAddr
            && (r.phase == Allocated || r == Failure(PoolRefused(NoAddressAvailable)))
            && (r.phase == Allocated ==> r.message == NoMessage)
            && if HoldsAddress(ds, d) then r.phase == Allocated && r.assignedAddr == Effective(d).value
               else if MayAdopt(c, ds, d) then r.phase == Allocated && r.assignedAddr == d.observedAddr.value
               else && (r.phase == Failed <==> forall a :: !Choosable(c, ds, a))
                    && (r.phase == Allocated ==> Choosable(c, ds, r.assignedAddr)
                                                 && forall a: uint16 :: a < r.assignedAddr ==> !Choosable(c, ds, a))
  {
    AcceptsExactlyValid(c);
    RebuiltPool(c, ds, d);
    ChoiceCharacterised(c, ds, d, Spec.Rebuild(c, Assigned(ds)).0);
  }

  /** The same of the pool the records load into. */
  lemma ChoiceCharacterised(c: Config, ds: seq<Detector>, d: Detector, p: PoolState)
    requires Inv(p) && p.cfg == c && p.ownerByAddr.Keys == Taken(ds)
    requires OwnerKey(d.key) in p.addrByOwner <==> HoldsAddress(ds, d)
    requires HoldsAddress(ds, d) ==> p.addrByOwner[OwnerKey(d.key)] == Effective(d).value
    requires OwnerKey(d.key) != ""
    ensures var r := Choose(p, d);
            && r.desiredAddr == r.assignedAddr
            && (r.phase == Allocated || r == Failure(PoolRefused(NoAddressAvailable)))
            && (r.phase == Allocated ==> r.message == NoMessage)
            && if HoldsAddress(ds, d) then r.phase == Allocated && r.assignedAddr == Effective(d).value
               else if MayAdopt(c, ds, d) then r.phase == Allocated && r.assignedAddr == d.observedAddr.value
               else && (r.phase == Failed <==> forall a :: !Choosable(c, ds, a))
                    && (r.phase == Allocated ==> Choosable(c, ds, r.assignedAddr)
                                                 && forall a: uint16 :: a < r.assignedAddr ==> !Choosable(c, ds, a))
  {
    assert forall a :: Choosable(c, ds, a) <==> IsAutoAllocatable(p, a);
  }

  /** A decision fails exactly when the configuration is invalid, the records
      contradict each other, or no address can be kept, adopted or chosen. */
  lemma FailsExactlyWhen(c: Config, ds: seq<Detector>, d: Detector)
    requires DistinctKeys(ds) && '/' !in d.key.ns
    requires forall e :: e in ds && e.key == d.key ==> e == d
    ensures Decide(c, ds, d).phase == Failed <==>
              || !ValidConfig(c)
              || !Consistent(c, ds)
              || (!HoldsAddress(ds, d) && !MayAdopt(c, ds, d) && forall a :: !Choosable(c, ds, a))
  {
    AcceptsExactlyValid(c);
    if ValidConfig(c) {
      if Consistent(c, ds) {
        DecisionCharacterised(c, ds, d);
      } else {
        AssignedValid(c, ds);
        RebuildExact(c, Assigned(ds));
      }
    }
  }

  /** What a record holds: its assigned address, else its desired one, and that it is given. */
  lemma RecordedAddressKept(c: Config, ds: seq<Detector>, d: Detector, a: uint16)
    requires ValidConfig(c) && DistinctKeys(ds) && Consistent(c, ds) && d in ds
    requires d.assignedAddr == Some(a) || (d.assignedAddr.None? && d.desiredAddr == Some(a))
    ensures Decide(c, ds, d).phase == Allocated && Decide(c, ds, d).assignedAddr == a
  {
    assert forall e :: e in ds && e.key == d.key ==> e == d;
    DecisionCharacterised(c, ds, d);
  }

  /** What adoption depends on: a record without an address, whose adoption flag
      is set or not set at all, keeps an address its module reports if that lies
      in range and no other record holds it; with the flag set to false, it is
      given what it would be given without a report. */
  lemma AdoptionExactly(c: Config, ds: seq<Detector>, d: Detector, o: uint16)
    requires ValidConfig(c) && DistinctKeys(ds) && Consistent(c, ds) && d in ds
    requires d.assignedAddr.None? && d.desiredAddr.None? && d.observedAddr == Some(o)
    ensures d.adopt != Some(false) && c.start <= o <= c.end
            && (forall e :: e in ds ==> e.assignedAddr != Some(o) && (e.assignedAddr.None? ==> e.desiredAddr != Some(o))) ==>
              Decide(c, ds, d).phase == Allocated && Decide(c, ds, d).assignedAddr == o
    ensures d.adopt == Some(false) && Decide(c, ds, d).phase == Allocated ==>
              IsLeastChoosable(c, ds, Decide(c, ds, d).assignedAddr)
  {
    assert forall e :: e in ds && e.key == d.key ==> e == d;
    DecisionCharacterised(c, ds, d);
    if forall e :: e in ds ==> e.assignedAddr != Some(o) && (e.assignedAddr.None? ==> e.desiredAddr != Some(o)) {
      assert forall i :: 0 <= i < |ds| ==> ds[i] in ds;
      assert o !in Taken(ds);
    }
  }
}

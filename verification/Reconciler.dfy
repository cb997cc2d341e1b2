/** operators/z21-device/internal/controller/candetector_controller.go: the
    reconcile loop body as it runs, reading and writing the API server. */
module Reconciler {
  import opened Basics
  import opened PoolConfig
  import opened PoolSpec
  import opened Detectors
  import opened Allocation
  import opened DetectorProtocol
  import opened Liveness

  /** The API server: the stored records, and the published usage of each pool. */
  class ApiServer {
    const env: Env
    var detectors: Store
    var poolStatus: map<Key, Stats>

    constructor (env: Env)
      ensures this.env == env && detectors == map[] && poolStatus == map[]
    {
      this.env, detectors, poolStatus := env, map[], map[];
    }

    /** All records, in no particular order. */
    method List() returns (items: seq<Detector>)
      requires WellKeyed(detectors)
      ensures IsListing(items, detectors)
    {
      items := [];
      var todo := detectors.Keys;
      while todo != {}
        invariant todo <= detectors.Keys
        invariant forall d :: d in items <==> d.key in detectors.Keys - todo && detectors[d.key] == d
        invariant Keyed(items)
        decreases todo
      {
        var k :| k in todo;
        assert forall i :: 0 <= i < |items| ==> items[i] in items;
        items := items + [detectors[k]];
        todo := todo - {k};
      }
      assert forall i :: 0 <= i < |items| ==> items[i] in items;
    }

    method UpdateSpec(t: Detector)
      requires t.key in detectors
      modifies this`detectors
      ensures detectors == SpecWrite(old(detectors), t)
    {
      var d := detectors[t.key];
      detectors := detectors[t.key := t.(observedAddr := d.observedAddr, assignedAddr := d.assignedAddr,
                                         phase := d.phase, message := d.message)];
    }

    method UpdateStatus(t: Detector)
      requires t.key in detectors
      modifies this`detectors
      ensures detectors == StatusWrite(old(detectors), t)
    {
      var d := detectors[t.key];
      detectors := detectors[t.key := d.(observedAddr := t.observedAddr, assignedAddr := t.assignedAddr,
                                         phase := t.phase, message := t.message)];
    }

    method ListPoolDetectors(pool: Key) returns (out: seq<Detector>, ghost items: seq<Detector>)
      requires WellKeyed(detectors)
      ensures IsListing(items, detectors)
      ensures out == PoolDetectors(env, items, pool)
      ensures Keyed(out)
      ensures forall d :: d in out <==> d.key in detectors && detectors[d.key] == d && PoolOf(env, d) == Some(pool)
    {
      var all := List();
      items := all;
      out := [];
      for i := 0 to |all|
        invariant out == PoolDetectors(env, all[..i], pool)
      {
        assert all[..i + 1][..i] == all[..i];
        var det := all[i];
        if det.deviceRef == "" || DeviceKey(det) !in env.devices { continue; }
        if PoolKey(env.devices[DeviceKey(det)]) == pool { out := out + [det]; }
      }
      assert all[..|all|] == all;
      PoolDetectorsMembers(env, all, pool);
      PoolDetectorsKeyed(env, all, pool);
    }

    method PatchFailed(det: Detector, m: Message)
      requires WellKeyed(detectors) && det.key in detectors && detectors[det.key] == det
      modifies this`detectors
      ensures detectors == old(detectors)[det.key := FailedWith(det, m)]
    {
      var failed := FailedWith(det, m);
      if failed != det { UpdateStatus(failed); }
    }

    /** Bring the stored record from `orig` to `desired`: spec first, then status,
        each only if it was to change.  The spec write's answer may be read back
        over the record in hand, and the server may be lost after it. */
    method WriteBack(orig: Detector, desired: Detector, mode: Mode)
      requires desired.key in detectors && detectors[desired.key] == orig
      requires desired == orig.(labels := desired.labels, desiredAddr := desired.desiredAddr,
                                assignedAddr := desired.assignedAddr, phase := desired.phase, message := desired.message)
      modifies this`detectors
      ensures detectors == Written(old(detectors), desired, mode)
    {
      ghost var s := detectors;
      var det := desired;
      var specChanged := det.labels != orig.labels || det.desiredAddr != orig.desiredAddr;
      var statusChanged := det.assignedAddr != orig.assignedAddr || det.phase != orig.phase || det.message != orig.message;
      if specChanged {
        UpdateSpec(det);
        if mode == Refreshed { det := Refresh(det, detectors[det.key]); }
      } else {
        assert SpecWrite(s, det) == s;
      }
      if mode == Cut { return; }
      if statusChanged { UpdateStatus(det); }
      assert detectors == StatusWrite(SpecWrite(s, desired), det);
    }

    /** The record a reconcile wants stored, with the decision behind it. */
    method DesiredRecord(orig: Detector, pool: Key)
      returns (det: Detector, result: AllocationResult, ghost seen: seq<Detector>)
      requires WellKeyed(detectors) && PoolOf(env, orig) == Some(pool) && pool in env.pools
      ensures IsListing(seen, detectors)
      ensures result == Decide(env.pools[pool], PoolDetectors(env, seen, pool), orig)
      ensures det == Target(env, seen, orig)
    {
      var ds;
      ds, seen := ListPoolDetectors(pool);
      result := AllocateDetectorAddress(env.pools[pool], ds, orig);
      det := orig.(labels := orig.labels[LABEL_DEVICE_NAME := orig.deviceRef]);
      if result.phase == Allocated {
        det := det.(desiredAddr := Some(result.desiredAddr), assignedAddr := Some(result.assignedAddr),
                    phase := result.phase, message := NoMessage);
      } else {
        det := det.(phase := result.phase, message := result.message);
      }
    }

    /** One reconcile, on the listing `seen`.  The stored records end up as the
        protocol's step says; an allocation also publishes the pool's usage. */
    method Reconcile(k: Key, mode: Mode) returns (ghost seen: seq<Detector>)
      requires WellKeyed(detectors)
      modifies this
      ensures IsListing(seen, old(detectors))
      ensures detectors == Reconciled(env, old(detectors), k, seen, mode)
      ensures poolStatus == Published(env, old(poolStatus), old(detectors), k, seen, mode)
    {
      seen := List();
      if k !in detectors { return; }
      var orig := detectors[k];
      var pool := PoolFor(orig);
      if pool.Err? {
        Fail(orig, pool.error, mode);
        return;
      }
      seen := ReconcileIn(orig, pool.value, mode);
    }

    /** The rest of a reconcile, once the pool is known. */
    method ReconcileIn(orig: Detector, pool: Key, mode: Mode) returns (ghost seen: seq<Detector>)
      requires WellKeyed(detectors) && orig.key in detectors && detectors[orig.key] == orig
      requires PoolOf(env, orig) == Some(pool) && pool in env.pools
      modifies this
      ensures IsListing(seen, old(detectors))
      ensures detectors == Written(old(detectors), Target(env, seen, orig), mode)
      ensures var r := Decide(env.pools[pool], PoolDetectors(env, seen, pool), orig);
              poolStatus == if mode != Cut && r.phase == Allocated then old(poolStatus)[pool := r.stats] else old(poolStatus)
    {
      var det, result;
      det, result, seen := DesiredRecord(orig, pool);
      WriteBack(orig, det, mode);
      if mode != Cut && result.phase == Allocated { poolStatus := poolStatus[pool := result.stats]; }
    }

    /** The pool to allocate from, or what is missing. */
    method PoolFor(orig: Detector) returns (pool: Result<Key, Message>)
      ensures pool.Ok? ==> PoolOf(env, orig) == Some(pool.value) && pool.value in env.pools
      ensures pool.Err? ==>
                && (PoolOf(env, orig).None? || PoolOf(env, orig).value !in env.pools)
                && forall items :: Target(env, items, orig) == FailedWith(orig, pool.error)
    {
      if orig.deviceRef == "" { return Err(DeviceRefRequired); }
      if DeviceKey(orig) !in env.devices { return Err(DeviceNotFound); }
      var key := PoolKey(env.devices[DeviceKey(orig)]);
      if key !in env.pools { return Err(PoolNotFound); }
      return Ok(key);
    }

    /** A failure found before any listing: only the status is written, unless the server is lost first. */
    method Fail(orig: Detector, m: Message, mode: Mode)
      requires WellKeyed(detectors) && orig.key in detectors && detectors[orig.key] == orig
      modifies this`detectors
      ensures detectors == Written(old(detectors), FailedWith(orig, m), mode)
    {
      UnchangedSpec(detectors, orig, m);
      if mode != Cut { PatchFailed(orig, m); }
    }
  }

  lemma UnchangedSpec(s: Store, d: Detector, m: Message)
    requires d.key in s && s[d.key] == d
    ensures SpecWrite(s, FailedWith(d, m)) == s
  {}

  /** The published usage after a reconcile: that of the pool the decision left, if it allocated. */
  function Published(env: Env, status: map<Key, Stats>, s: Store, k: Key, items: seq<Detector>, mode: Mode): map<Key, Stats> {
    if mode == Cut || k !in s || PoolOf(env, s[k]).None? || PoolOf(env, s[k]).value !in env.pools then status
    else
      var pool := PoolOf(env, s[k]).value;
      var r := Decide(env.pools[pool], PoolDetectors(env, items, pool), s[k]);
      if r.phase == Allocated then status[pool := r.stats] else status
  }

  /** Fresh listings that differ only in order lead a reconcile to the same record. */
  lemma ListingOrderIrrelevant(env: Env, s: Store, k: Key, items: seq<Detector>)
    requires StoreInv(env, s) && IsListing(items, s) && k in s
    ensures forall others :: IsListing(others, s) ==> Target(env, others, s[k]) == Target(env, items, s[k])
  {
    forall others | IsListing(others, s) ensures Target(env, others, s[k]) == Target(env, items, s[k]) {
      if PoolOf(env, s[k]).Some? && PoolOf(env, s[k]).value in env.pools {
        var pool := PoolOf(env, s[k]).value;
        FreshListing(env, s, items, pool);
        FreshListing(env, s, others, pool);
        SameDecision(env.pools[pool], PoolDetectors(env, items, pool), PoolDetectors(env, others, pool), s[k]);
      }
    }
  }

  lemma SameDecision(c: Config, ds: seq<Detector>, es: seq<Detector>, d: Detector)
    requires DistinctKeys(ds) && Consistent(c, ds) && DistinctKeys(es) && Consistent(c, es) && '/' !in d.key.ns
    requires forall e :: e in ds <==> e in es
    requires forall e :: e in ds && e.key == d.key ==> e == d
    ensures var r, q := Decide(c, ds, d), Decide(c, es, d);
            r.desiredAddr == q.desiredAddr && r.assignedAddr == q.assignedAddr && r.phase == q.phase && r.message == q.message
  {
    AcceptsExactlyValid(c);
    if ValidConfig(c) {
      SameTaken(ds, es);
      SameTaken(es, ds);
      assert Taken(ds) == Taken(es);
      DecisionCharacterised(c, ds, d);
      DecisionCharacterised(c, es, d);
      assert forall a :: Choosable(c, ds, a) <==> Choosable(c, es, a);
    }
  }

  lemma SameTaken(ds: seq<Detector>, es: seq<Detector>)
    requires forall e :: e in ds ==> e in es
    ensures Taken(ds) <= Taken(es)
  {
    forall a | a in Taken(ds) ensures a in Taken(es) {
      var i :| 0 <= i < |ds| && Effective(ds[i]) == Some(a);
      assert ds[i] in es;
      var j :| 0 <= j < |es| && es[j] == ds[i];
      assert Effective(es[j]) == Some(a);
    }
  }

  /** Usage figures that account for every address of a range of which `held` are held. */
  ghost predicate Accounts(stats: Stats, c: Config, held: set<uint16>) {
    && stats.rangeSize == c.end - c.start + 1
    && stats.reserved == |c.reserved|
    && stats.inUse == |held|
    && stats.rangeSize == stats.autoAvailable + stats.inUse + |ReservedSet(c) - held|
  }

  /** The usage a successful reconcile publishes under the pool's key describes
      the store it leaves: Allocated is the number of addresses the pool's
      detectors then hold, and AutoAvailable the number of addresses neither held
      nor reserved.  Other pools' figures stay. */
  lemma PublishedUsage(env: Env, status: map<Key, Stats>, s: Store, k: Key, items: seq<Detector>, pool: Key, mode: Mode)
    requires StoreInv(env, s) && IsListing(items, s) && k in s && mode != Cut
    requires PoolOf(env, s[k]) == Some(pool) && pool in env.pools && ValidConfig(env.pools[pool])
    requires Target(env, items, s[k]).phase == Allocated
    ensures var s', published := Reconciled(env, s, k, items, mode), Published(env, status, s, k, items, mode);
            && pool in published && Accounts(published[pool], env.pools[pool], HeldBy(s', Members(env, s', pool)))
            && published - {pool} == status - {pool}
  {
    var c, ds, d := env.pools[pool], PoolDetectors(env, items, pool), s[k];
    FreshListing(env, s, items, pool);
    assert d in ds;
    var a := Decide(c, ds, d).assignedAddr;
    DecisionOnRecords(c, ds, d);
    PublishedStats(env, status, s, k, items, pool, mode);
    var s' := AllocatingReconcile(env, s, k, items, a, mode);
    HeldAfter(env, s, k, ds, pool, a, s');
    DecisionStats(c, ds, d);
  }

  lemma PublishedStats(env: Env, status: map<Key, Stats>, s: Store, k: Key, items: seq<Detector>, pool: Key, mode: Mode)
    requires k in s && mode != Cut && PoolOf(env, s[k]) == Some(pool) && pool in env.pools
    requires Decide(env.pools[pool], PoolDetectors(env, items, pool), s[k]).phase == Allocated
    ensures var published := Published(env, status, s, k, items, mode);
            && pool in published
            && published[pool] == Decide(env.pools[pool], PoolDetectors(env, items, pool), s[k]).stats
            && published - {pool} == status - {pool}
  {}

  lemma AllocatingReconcile(env: Env, s: Store, k: Key, items: seq<Detector>, a: uint16, mode: Mode) returns (s': Store)
    requires StoreInv(env, s) && IsListing(items, s) && k in s && mode != Cut
    requires Target(env, items, s[k]).phase == Allocated && Target(env, items, s[k]).assignedAddr == Some(a)
    ensures s' == Reconciled(env, s, k, items, mode)
    ensures k in s' && s' == s[k := s'[k]] && PoolOf(env, s'[k]) == PoolOf(env, s[k])
    ensures Effective(s'[k]) == Some(a) && (Effective(s[k]).None? || Effective(s[k]) == Some(a))
  {
    s' := Reconciled(env, s, k, items, mode);
    FreshShowsItself(env, s, k, items);
    TargetOnListing(env, s, k, items);
    ReconciledRecord(env, s, k, items, mode);
  }

  /** The stats of a successful decision count the addresses taken, its own included. */
  lemma DecisionStats(c: Config, ds: seq<Detector>, d: Detector)
    requires ValidConfig(c) && DistinctKeys(ds) && Consistent(c, ds) && d in ds
    requires forall e :: e in ds && e.key == d.key ==> e == d
    requires Decide(c, ds, d).phase == Allocated
    ensures Accounts(Decide(c, ds, d).stats, c, Taken(ds) + {Decide(c, ds, d).assignedAddr})
  {
    RebuiltPool(c, ds, d);
    AcceptsExactlyValid(c);
    var p := PoolSpec.Rebuild(c, Assigned(ds)).0;
    ChosenPool(p, d);
    var q := Choice(p, d).0;
    StatsConserved(q);
    assert Accounts(StatsOf(q), c, q.ownerByAddr.Keys);
  }

  lemma ChosenPool(p: PoolState, d: Detector)
    requires Inv(p) && Choice(p, d).1.Ok?
    ensures var (q, r) := Choice(p, d);
            Inv(q) && q.cfg == p.cfg && q.ownerByAddr.Keys == p.ownerByAddr.Keys + {r.value}
  {
    var owner, a := OwnerKey(d.key), Choice(p, d).1.value;
    if owner !in p.addrByOwner { BindKeepsInv(p, owner, a); }
  }

  lemma TakenMember(ds: seq<Detector>, d: Detector)
    requires d in ds && Effective(d).Some?
    ensures Effective(d).value in Taken(ds)
  {}

  lemma HeldAfter(env: Env, s: Store, k: Key, ds: seq<Detector>, pool: Key, a: uint16, s': Store)
    requires WellKeyed(s) && k in s && PoolOf(env, s[k]) == Some(pool)
    requires forall d :: d in ds <==> d.key in s && s[d.key] == d && PoolOf(env, d) == Some(pool)
    requires k in s' && s' == s[k := s'[k]] && PoolOf(env, s'[k]) == Some(pool) && Effective(s'[k]) == Some(a)
    requires Effective(s[k]).None? || Effective(s[k]) == Some(a)
    ensures HeldBy(s', Members(env, s', pool)) == Taken(ds) + {a}
  {
    var held := HeldBy(s', Members(env, s', pool));
    assert k in Members(env, s', pool);
    forall b | b in Taken(ds) ensures b in held {
      var i :| 0 <= i < |ds| && Effective(ds[i]) == Some(b);
      assert ds[i] in ds;
      assert ds[i].key in Members(env, s', pool);
    }
    forall b | b in held && b != a ensures b in Taken(ds) {
      var j :| j in Members(env, s', pool) && j in s' && Effective(s'[j]) == Some(b);
      TakenMember(ds, s[j]);
    }
  }
}

/** operators/z21-device/internal/controller/candetector_controller.go: address
    allocation as a protocol over the stored detector records.

    The store is the API server's map of records, with separate spec and status
    writes.  A run is any sequence of steps: records are created, touched by
    gateways and users, deleted, and reconciled, where a reconcile may die
    between its two writes.  Assumed of every run: reconciles run one at a time;
    devices, their pool references and the pool configurations stay fixed;
    nobody but the controller writes a desired or an assigned address.  A run's
    listings are fresh; how stale a listing may be is settled after the invariant. */
module DetectorProtocol {
  import opened Basics
  import opened PoolConfig
  import Spec = PoolSpec
  import opened PoolSpec
  import opened Detectors
  import opened Allocation

  datatype Env = Env(devices: map<Key, Z21Device>, pools: map<Key, Config>)

  type Store = map<Key, Detector>

  function DeviceKey(d: Detector): Key {
    Key(d.key.ns, d.deviceRef)
  }

  /** The pool a detector draws from, if its device exists. */
  function PoolOf(env: Env, d: Detector): Option<Key> {
    if d.deviceRef == "" || DeviceKey(d) !in env.devices then None
    else Some(PoolKey(env.devices[DeviceKey(d)]))
  }

  /** What listing the store may return: every record once, in any order. */
  ghost predicate IsListing(items: seq<Detector>, s: Store) {
    && (forall i :: 0 <= i < |items| ==> items[i].key in s && s[items[i].key] == items[i])
    && Keyed(items)
    && (forall k :: k in s ==> s[k] in items)
  }

  function PoolDetectors(env: Env, items: seq<Detector>, pool: Key): seq<Detector> {
    if items == [] then []
    else
      var d := items[|items| - 1];
      PoolDetectors(env, items[..|items| - 1], pool) + (if PoolOf(env, d) == Some(pool) then [d] else [])
  }

  function FailedWith(d: Detector, m: Message): Detector {
    d.(phase := Failed, message := m)
  }

  /** The record wanted after decision `r` on `d`. */
  function Wanted(d: Detector, r: AllocationResult): Detector {
    var l := d.(labels := d.labels[LABEL_DEVICE_NAME := d.deviceRef]);
    if r.phase == Allocated then
      l.(desiredAddr := Some(r.desiredAddr), assignedAddr := Some(r.assignedAddr), phase := Allocated, message := NoMessage)
    else l.(phase := r.phase, message := r.message)
  }

  /** The record one reconcile of `d` wants stored. */
  function Target(env: Env, items: seq<Detector>, d: Detector): Detector {
    if d.deviceRef == "" then FailedWith(d, DeviceRefRequired)
    else if PoolOf(env, d).None? then FailedWith(d, DeviceNotFound)
    else if PoolOf(env, d).value !in env.pools then FailedWith(d, PoolNotFound)
    else
      var pool := PoolOf(env, d).value;
      Wanted(d, Decide(env.pools[pool], PoolDetectors(env, items, pool), d))
  }

  /** An update of metadata and spec: the stored status stays. */
  function SpecWrite(s: Store, t: Detector): Store
    requires t.key in s
  {
    var d := s[t.key];
    s[t.key := t.(observedAddr := d.observedAddr, assignedAddr := d.assignedAddr, phase := d.phase, message := d.message)]
  }

  /** An update of the status: the stored metadata and spec stay. */
  function StatusWrite(s: Store, t: Detector): Store
    requires t.key in s
  {
    s[t.key := s[t.key].(observedAddr := t.observedAddr, assignedAddr := t.assignedAddr, phase := t.phase, message := t.message)]
  }

  /** How a reconcile ends: with both writes made from the record in hand; with
      both made, but the server's answer to the first read back over the record
      in hand, as the client library does; or cut off after the first. */
  datatype Mode = Whole | Refreshed | Cut

  /** The record in hand once the answer to the spec write is read over it:
      status fields set in the stored record `d` displace its own. */
  function Refresh(t: Detector, d: Detector): Detector {
    t.(observedAddr := if d.observedAddr.Some? then d.observedAddr else t.observedAddr,
       assignedAddr := if d.assignedAddr.Some? then d.assignedAddr else t.assignedAddr,
       phase := if d.phase != Unset then d.phase else t.phase,
       message := if d.message != NoMessage then d.message else t.message)
  }

  predicate SpecChanges(d: Detector, t: Detector) {
    t.labels != d.labels || t.desiredAddr != d.desiredAddr
  }

  /** The record whose status is written, if it is; an unchanged spec is not written at all. */
  function InHand(d: Detector, t: Detector, mode: Mode): Detector {
    if mode == Refreshed && SpecChanges(d, t) then Refresh(t, d) else t
  }

  datatype Step =
    | Create(det: Detector)
    | Touch(det: Detector)
    | Reconcile(key: Key, items: seq<Detector>, mode: Mode)
    | Delete(key: Key)

  /** Which steps the store admits.  A touch may change anything except the two
      addresses, and may set a missing device reference. */
  ghost predicate Enabled(s: Store, step: Step) {
    match step
    case Create(d) => d.key !in s && '/' !in d.key.ns && d.desiredAddr.None? && d.assignedAddr.None?
    case Touch(d) =>
      && d.key in s
      && d.desiredAddr == s[d.key].desiredAddr && d.assignedAddr == s[d.key].assignedAddr
      && (d.deviceRef == s[d.key].deviceRef || s[d.key].deviceRef == "")
    case Reconcile(_, items, _) => IsListing(items, s)
    case Delete(_) => true
  }

  /** The store after both writes, or the first alone. */
  function Written(s: Store, t: Detector, mode: Mode): Store
    requires t.key in s
  {
    if mode == Cut then SpecWrite(s, t) else StatusWrite(SpecWrite(s, t), InHand(s[t.key], t, mode))
  }

  /** A reconcile leaves a store without its record alone. */
  function Reconciled(env: Env, s: Store, k: Key, items: seq<Detector>, mode: Mode): Store {
    if k !in s || s[k].key != k then s else Written(s, Target(env, items, s[k]), mode)
  }

  function ApplyStep(env: Env, s: Store, step: Step): Store {
    match step
    case Create(d) => s[d.key := d]
    case Touch(d) => s[d.key := d]
    case Reconcile(k, items, mode) => Reconciled(env, s, k, items, mode)
    case Delete(k) => s - {k}
  }

  /** The sequences of steps a store admits, and where they lead. */
  ghost predicate IsRun(env: Env, s: Store, steps: seq<Step>)
    decreases |steps|
  {
    steps == [] || (Enabled(s, steps[0]) && IsRun(env, ApplyStep(env, s, steps[0]), steps[1..]))
  }

  function After(env: Env, s: Store, steps: seq<Step>): Store
    decreases |steps|
  {
    if steps == [] then s else After(env, ApplyStep(env, s, steps[0]), steps[1..])
  }

  // ---- the invariant ----

  ghost predicate WellKeyed(s: Store) {
    forall k :: k in s ==> s[k].key == k && '/' !in k.ns
  }

  /** A held address lies in the range of an existing, valid pool. */
  ghost predicate InItsPool(env: Env, d: Detector) {
    && PoolOf(env, d).Some? && PoolOf(env, d).value in env.pools
    && ValidConfig(env.pools[PoolOf(env, d).value])
    && Effective(d).Some? && InRange(env.pools[PoolOf(env, d).value], Effective(d).value)
  }

  ghost predicate Clash(env: Env, d: Detector, e: Detector) {
    PoolOf(env, d) == PoolOf(env, e) && Effective(d).Some? && Effective(d) == Effective(e)
  }

  ghost predicate StoreInv(env: Env, s: Store) {
    && WellKeyed(s)
    && (forall k :: k in s && Effective(s[k]).Some? ==> InItsPool(env, s[k]))
    && (forall k :: k in s && s[k].assignedAddr.Some? ==> s[k].desiredAddr == s[k].assignedAddr)
    && (forall j, k :: j in s && k in s && j != k ==> !Clash(env, s[j], s[k]))
  }

  // ---- what a fresh listing shows ----

  lemma {:induction false} PoolDetectorsMembers(env: Env, items: seq<Detector>, pool: Key)
    ensures forall d :: d in PoolDetectors(env, items, pool) <==> d in items && PoolOf(env, d) == Some(pool)
  {
    if items != [] {
      var n := |items| - 1;
      PoolDetectorsMembers(env, items[..n], pool);
      assert items == items[..n] + [items[n]];
    }
  }

  ghost predicate Keyed(items: seq<Detector>) {
    forall i, j :: 0 <= i < j < |items| ==> items[i].key != items[j].key
  }

  lemma {:induction false} PoolDetectorsKeyed(env: Env, items: seq<Detector>, pool: Key)
    requires Keyed(items)
    ensures Keyed(PoolDetectors(env, items, pool))
  {
    if items != [] {
      var n := |items| - 1;
      PoolDetectorsKeyed(env, items[..n], pool);
      PoolDetectorsMembers(env, items[..n], pool);
      var ds := PoolDetectors(env, items[..n], pool);
      forall i | 0 <= i < |ds| ensures ds[i].key != items[n].key {
        assert ds[i] in items[..n];
      }
    }
  }

  /** A listing shows each of a pool's records once, and no others. */
  lemma ListingShows(env: Env, s: Store, items: seq<Detector>, pool: Key)
    requires WellKeyed(s) && IsListing(items, s)
    ensures var ds := PoolDetectors(env, items, pool);
            && (forall d :: d in ds <==> d.key in s && s[d.key] == d && PoolOf(env, d) == Some(pool))
            && DistinctKeys(ds)
  {
    PoolDetectorsMembers(env, items, pool);
    PoolDetectorsKeyed(env, items, pool);
    var ds := PoolDetectors(env, items, pool);
    assert forall i :: 0 <= i < |ds| ==> ds[i] in ds;
  }

  /** The addresses held in a pool lie in its range and are pairwise different. */
  ghost predicate PoolConsistent(env: Env, s: Store, pool: Key)
    requires pool in env.pools
  {
    forall j :: j in s && PoolOf(env, s[j]) == Some(pool) && Effective(s[j]).Some? ==>
      && InRange(env.pools[pool], Effective(s[j]).value)
      && forall k :: k in s && k != j ==> !Clash(env, s[j], s[k])
  }

  lemma ListingConsistent(env: Env, s: Store, ds: seq<Detector>, pool: Key)
    requires pool in env.pools && WellKeyed(s) && DistinctKeys(ds)
    requires forall d :: d in ds <==> d.key in s && s[d.key] == d && PoolOf(env, d) == Some(pool)
    ensures Consistent(env.pools[pool], ds) <==> PoolConsistent(env, s, pool)
  {
    assert forall i :: 0 <= i < |ds| ==> ds[i] in ds;
    if PoolConsistent(env, s, pool) {
      forall i, j | 0 <= i < j < |ds| && Effective(ds[i]).Some? ensures Effective(ds[i]) != Effective(ds[j]) {
        assert !Clash(env, s[ds[i].key], s[ds[j].key]);
      }
    }
    if Consistent(env.pools[pool], ds) {
      forall j | j in s && PoolOf(env, s[j]) == Some(pool) && Effective(s[j]).Some?
        ensures InRange(env.pools[pool], Effective(s[j]).value)
        ensures forall k :: k in s && k != j ==> !Clash(env, s[j], s[k])
      {
        ShownApart(env, s, ds, pool, j);
      }
    }
  }

  lemma ShownApart(env: Env, s: Store, ds: seq<Detector>, pool: Key, j: Key)
    requires pool in env.pools && WellKeyed(s) && Consistent(env.pools[pool], ds)
    requires forall d :: d in ds <==> d.key in s && s[d.key] == d && PoolOf(env, d) == Some(pool)
    requires j in s && PoolOf(env, s[j]) == Some(pool) && Effective(s[j]).Some?
    ensures InRange(env.pools[pool], Effective(s[j]).value)
    ensures forall k :: k in s && k != j ==> !Clash(env, s[j], s[k])
  {
    assert s[j] in ds;
    var x :| 0 <= x < |ds| && ds[x] == s[j];
    forall k | k in s && k != j && PoolOf(env, s[k]) == Some(pool) ensures Effective(s[j]) != Effective(s[k]) {
      assert s[k] in ds;
      var y :| 0 <= y < |ds| && ds[y] == s[k];
    }
  }

  lemma InvPoolConsistent(env: Env, s: Store, pool: Key)
    requires StoreInv(env, s) && pool in env.pools
    ensures PoolConsistent(env, s, pool)
  {}

  /** In an invariant store a fresh listing shows each pool consistent records. */
  lemma FreshListing(env: Env, s: Store, items: seq<Detector>, pool: Key)
    requires StoreInv(env, s) && IsListing(items, s)
    ensures var ds := PoolDetectors(env, items, pool);
            && (forall d :: d in ds <==> d.key in s && s[d.key] == d && PoolOf(env, d) == Some(pool))
            && DistinctKeys(ds)
            && (pool in env.pools ==> Consistent(env.pools[pool], ds))
  {
    ListingShows(env, s, items, pool);
    if pool in env.pools {
      InvPoolConsistent(env, s, pool);
      ListingConsistent(env, s, PoolDetectors(env, items, pool), pool);
    }
  }

  /** Rebuild never fails: whatever the order of the listing, every pool with a
      valid configuration loads. */
  lemma RebuildNeverFails(env: Env, s: Store, items: seq<Detector>, pool: Key)
    requires StoreInv(env, s) && IsListing(items, s)
    requires pool in env.pools && ValidConfig(env.pools[pool])
    ensures Spec.Rebuild(env.pools[pool], Assigned(PoolDetectors(env, items, pool))).1.None?
  {
    FreshListing(env, s, items, pool);
    AssignedValid(env.pools[pool], PoolDetectors(env, items, pool));
    RebuildExact(env.pools[pool], Assigned(PoolDetectors(env, items, pool)));
  }

  // ---- one decision ----

  /** Nobody in the pool of `k` but `k` itself may hold `a`. */
  ghost predicate FreeFor(env: Env, s: Store, k: Key, a: uint16)
    requires k in s
  {
    forall j :: j in s && j != k && PoolOf(env, s[j]) == PoolOf(env, s[k]) ==> Effective(s[j]) != Some(a)
  }

  /** The listing shows the record to be reconciled as it is stored, and no
      record twice.  (An update from any other copy of it is refused as a conflict.) */
  ghost predicate ShowsItself(items: seq<Detector>, s: Store, k: Key) {
    k in s && s[k] in items && Keyed(items) && forall d :: d in items ==> '/' !in d.key.ns
  }

  /** A decision on records among which the detector's own is shown: it fails,
      keeps the held address, or picks one in range that the records leave free. */
  lemma DecisionOnRecords(c: Config, ds: seq<Detector>, d: Detector)
    requires DistinctKeys(ds) && d in ds
    ensures var r := Decide(c, ds, d);
            && (r.phase == Allocated || r.phase == Failed)
            && (r.phase == Allocated ==>
                  && ValidConfig(c) && r.desiredAddr == r.assignedAddr
                  && (Effective(d).Some? ==> r.assignedAddr == Effective(d).value)
                  && (Effective(d).None? ==> InRange(c, r.assignedAddr) && r.assignedAddr !in Taken(ds)))
            && (ValidConfig(c) && Consistent(c, ds) && Effective(d).Some? ==> r.phase == Allocated)
  {
    OnlyOneOfAKey(ds, d);
    FailsExactlyWhen(c, ds, d);
    if ValidConfig(c) && Consistent(c, ds) { DecisionCharacterised(c, ds, d); }
  }

  lemma OnlyOneOfAKey(ds: seq<Detector>, d: Detector)
    requires DistinctKeys(ds) && d in ds
    ensures '/' !in d.key.ns && forall e :: e in ds && e.key == d.key ==> e == d
  {}

  /** The address a reconcile on `items` newly gives to a record that holds none. */
  function NewAddress(env: Env, items: seq<Detector>, d: Detector): Option<uint16> {
    if Effective(d).None? && Target(env, items, d).phase == Allocated then Target(env, items, d).assignedAddr else None
  }

  /** What a wanted record keeps of the record it is wanted for. */
  ghost predicate SameDetector(d: Detector, t: Detector) {
    t.key == d.key && t.deviceRef == d.deviceRef && t.netID == d.netID && t.observedAddr == d.observedAddr
  }

  lemma WantedRecord(d: Detector, r: AllocationResult)
    requires r.phase == Allocated ==> r.desiredAddr == r.assignedAddr
    requires r.phase == Allocated || r.phase == Failed
    ensures var t := Wanted(d, r);
            && SameDetector(d, t)
            && if r.phase == Allocated then t.phase == Allocated && t.desiredAddr == t.assignedAddr == Some(r.assignedAddr)
               else t.phase == Failed && t.desiredAddr == d.desiredAddr && t.assignedAddr == d.assignedAddr
  {}

  /** What a reconcile wants on a listing that need not be fresh: the addresses
      as they are; or Allocated, with the held address, or with one in range
      that the listing shows as held by nobody. */
  lemma TargetOnListing(env: Env, s: Store, k: Key, items: seq<Detector>)
    requires WellKeyed(s) && ShowsItself(items, s, k)
    ensures var d, t := s[k], Target(env, items, s[k]);
            && SameDetector(d, t) && (t.phase == Allocated || t.phase == Failed)
            && if t.phase == Failed then t.desiredAddr == d.desiredAddr && t.assignedAddr == d.assignedAddr
               else && t.desiredAddr == t.assignedAddr && t.assignedAddr.Some?
                    && if Effective(d).Some? then t.assignedAddr == Effective(d)
                       else && InItsPool(env, t)
                            && Effective(t).value !in Taken(PoolDetectors(env, items, PoolOf(env, d).value))
  {
    var d := s[k];
    if PoolOf(env, d).Some? && PoolOf(env, d).value in env.pools {
      var pool := PoolOf(env, d).value;
      var c, ds := env.pools[pool], PoolDetectors(env, items, pool);
      ListingOfPool(env, items, pool);
      assert d in ds;
      DecisionOnRecords(c, ds, d);
      WantedRecord(d, Decide(c, ds, d));
    }
  }

  lemma ListingOfPool(env: Env, items: seq<Detector>, pool: Key)
    requires Keyed(items) && forall d :: d in items ==> '/' !in d.key.ns
    ensures forall d :: d in PoolDetectors(env, items, pool) <==> d in items && PoolOf(env, d) == Some(pool)
    ensures DistinctKeys(PoolDetectors(env, items, pool))
  {
    PoolDetectorsMembers(env, items, pool);
    PoolDetectorsKeyed(env, items, pool);
    var ds := PoolDetectors(env, items, pool);
    assert forall i :: 0 <= i < |ds| ==> ds[i] in ds;
  }

  /** The outcome of one decision on a fresh listing: a held address is kept;
      a new one lies in the pool and is held by nobody else. */
  lemma TargetOnFreshListing(env: Env, s: Store, k: Key, items: seq<Detector>)
    requires StoreInv(env, s) && IsListing(items, s) && k in s
    ensures var d, t := s[k], Target(env, items, s[k]);
            && SameDetector(d, t)
            && (Effective(d).Some? ==> t.phase == Allocated && t.desiredAddr == t.assignedAddr == Effective(d))
            && (Effective(d).None? ==>
                  || (t.desiredAddr == d.desiredAddr && t.assignedAddr == d.assignedAddr)
                  || (t.phase == Allocated && t.desiredAddr == t.assignedAddr && InItsPool(env, t)
                      && FreeFor(env, s, k, Effective(t).value)))
  {
    FreshShowsItself(env, s, k, items);
    TargetOnListing(env, s, k, items);
    if PoolOf(env, s[k]).Some? && PoolOf(env, s[k]).value in env.pools {
      CoveredAreFree(env, s, k, items);
      if Effective(s[k]).Some? { HeldIsKept(env, s, k, items); }
    }
  }

  lemma HeldIsKept(env: Env, s: Store, k: Key, items: seq<Detector>)
    requires StoreInv(env, s) && IsListing(items, s) && k in s && Effective(s[k]).Some?
    ensures Target(env, items, s[k]).phase == Allocated
  {
    assert InItsPool(env, s[k]);
    var pool := PoolOf(env, s[k]).value;
    FreshListing(env, s, items, pool);
    DecisionOnRecords(env.pools[pool], PoolDetectors(env, items, pool), s[k]);
  }

  lemma FreshShowsItself(env: Env, s: Store, k: Key, items: seq<Detector>)
    requires WellKeyed(s) && IsListing(items, s) && k in s
    ensures ShowsItself(items, s, k) && Covers(env, items, s, k)
  {
    if PoolOf(env, s[k]).Some? {
      var ds := PoolDetectors(env, items, PoolOf(env, s[k]).value);
      ListingShows(env, s, items, PoolOf(env, s[k]).value);
      forall j | j in s && j != k && PoolOf(env, s[j]) == PoolOf(env, s[k]) && Effective(s[j]).Some?
        ensures Effective(s[j]).value in Taken(ds)
      {
        assert s[j] in ds;
      }
    }
  }

  /** Every address held by another member of the pool of `k` is held by somebody on the listing. */
  ghost predicate Covers(env: Env, items: seq<Detector>, s: Store, k: Key)
    requires k in s
  {
    PoolOf(env, s[k]).Some? ==>
      forall j :: j in s && j != k && PoolOf(env, s[j]) == PoolOf(env, s[k]) && Effective(s[j]).Some? ==>
        Effective(s[j]).value in Taken(PoolDetectors(env, items, PoolOf(env, s[k]).value))
  }

  lemma CoveredAreFree(env: Env, s: Store, k: Key, items: seq<Detector>)
    requires k in s && PoolOf(env, s[k]).Some? && Covers(env, items, s, k)
    ensures forall a :: a !in Taken(PoolDetectors(env, items, PoolOf(env, s[k]).value)) ==> FreeFor(env, s, k, a)
  {}

  // ---- every step keeps it ----

  /** What both writes, or the first alone, make of a record. */
  lemma WrittenRecord(s: Store, k: Key, t: Detector, mode: Mode)
    requires k in s && s[k].key == k && SameDetector(s[k], t)
    requires s[k].assignedAddr.Some? ==> t.assignedAddr == s[k].assignedAddr
    ensures var s' := Written(s, t, mode);
            && k in s' && s' == s[k := s'[k]] && SameDetector(s[k], s'[k])
            && s'[k].labels == t.labels && s'[k].desiredAddr == t.desiredAddr
            && s'[k].assignedAddr == (if mode == Cut then s[k].assignedAddr else t.assignedAddr)
            && (mode == Whole ==> s'[k] == t)
            && (mode == Refreshed && !SpecChanges(s[k], t) ==> s'[k] == t)
  {}

  /** What a reconcile does to its record, on any listing that shows it and in any mode. */
  lemma ReconciledRecord(env: Env, s: Store, k: Key, items: seq<Detector>, mode: Mode)
    requires StoreInv(env, s) && ShowsItself(items, s, k)
    ensures var s' := Reconciled(env, s, k, items, mode);
            && k in s' && s' == s[k := s'[k]] && SameDetector(s[k], s'[k])
            && (s'[k].assignedAddr.Some? ==> s'[k].desiredAddr == s'[k].assignedAddr)
            && Effective(s'[k]) == (if Effective(s[k]).Some? then Effective(s[k]) else NewAddress(env, items, s[k]))
            && (Effective(s'[k]).Some? ==> InItsPool(env, s'[k]))
  {
    TargetOnListing(env, s, k, items);
    var t := Target(env, items, s[k]);
    WrittenRecord(s, k, t, mode);
    WrittenAddress(env, s[k], t, Written(s, t, mode)[k], mode == Cut);
  }

  lemma WrittenAddress(env: Env, d: Detector, t: Detector, d': Detector, cut: bool)
    requires Effective(d).Some? ==> InItsPool(env, d)
    requires d.assignedAddr.Some? ==> d.desiredAddr == d.assignedAddr
    requires SameDetector(d, t) && SameDetector(d, d') && d'.desiredAddr == t.desiredAddr
    requires d'.assignedAddr == if cut then d.assignedAddr else t.assignedAddr
    requires if t.phase == Failed then t.desiredAddr == d.desiredAddr && t.assignedAddr == d.assignedAddr
             else && t.phase == Allocated && t.desiredAddr == t.assignedAddr && t.assignedAddr.Some?
                  && (Effective(d).Some? ==> t.assignedAddr == Effective(d))
                  && (Effective(d).None? ==> InItsPool(env, t))
    ensures d'.assignedAddr.Some? ==> d'.desiredAddr == d'.assignedAddr
    ensures Effective(d').Some? ==> InItsPool(env, d')
    ensures Effective(d') == if Effective(d).Some? then Effective(d) else if t.phase == Allocated then t.assignedAddr else None
  {
    assert PoolOf(env, d') == PoolOf(env, d) == PoolOf(env, t);
  }

  lemma ReplaceKeepsInv(env: Env, s: Store, k: Key, d: Detector)
    requires StoreInv(env, s) && k in s && d.key == k
    requires d.assignedAddr.Some? ==> d.desiredAddr == d.assignedAddr
    requires Effective(d).Some? ==>
               && InItsPool(env, d)
               && PoolOf(env, d) == PoolOf(env, s[k])
               && (Effective(s[k]) == Effective(d) || FreeFor(env, s, k, Effective(d).value))
    ensures StoreInv(env, s[k := d])
  {
    var s' := s[k := d];
    forall i, j | i in s' && j in s' && i != j ensures !Clash(env, s'[i], s'[j]) {
      assert i != k && j != k ==> !Clash(env, s[i], s[j]);
      assert i == k ==> !Clash(env, s[k], s[j]);
      assert j == k ==> !Clash(env, s[i], s[k]);
    }
  }

  /** A reconcile keeps the invariant exactly if nobody else in the pool holds
      the address it newly gives, if it gives one. */
  lemma SafeIfGivenIsFree(env: Env, s: Store, k: Key, items: seq<Detector>, mode: Mode)
    requires StoreInv(env, s) && ShowsItself(items, s, k)
    ensures StoreInv(env, Reconciled(env, s, k, items, mode)) <==>
              match NewAddress(env, items, s[k]) case None => true case Some(a) => FreeFor(env, s, k, a)
  {
    ReconciledRecord(env, s, k, items, mode);
    var s' := Reconciled(env, s, k, items, mode);
    var a := NewAddress(env, items, s[k]);
    if a.None? || FreeFor(env, s, k, a.value) {
      ReplaceKeepsInv(env, s, k, s'[k]);
    } else {
      var j :| j in s && j != k && PoolOf(env, s[j]) == PoolOf(env, s[k]) && Effective(s[j]) == a;
      assert Clash(env, s'[j], s'[k]);
    }
  }

  /** What is left to decide for `d` on the listing is which address to give it:
      it holds none, and its pool exists, is valid and is shown consistent. */
  ghost predicate Open(env: Env, items: seq<Detector>, d: Detector) {
    && Effective(d).None?
    && PoolOf(env, d).Some? && PoolOf(env, d).value in env.pools
    && var pool := PoolOf(env, d).value;
       ValidConfig(env.pools[pool]) && Consistent(env.pools[pool], PoolDetectors(env, items, pool))
  }

  /** The address due to `d` as the listing shows its pool: the one its module
      reports if it may adopt that, else the least shown free and unreserved. */
  ghost predicate Due(env: Env, items: seq<Detector>, d: Detector, a: uint16) {
    && Open(env, items, d)
    && var pool := PoolOf(env, d).value;
       WouldGet(env.pools[pool], PoolDetectors(env, items, pool), d, a)
  }

  /** The address newly given, read off the listing. */
  lemma NewAddressExactly(env: Env, s: Store, k: Key, items: seq<Detector>, a: uint16)
    requires ShowsItself(items, s, k)
    ensures NewAddress(env, items, s[k]) == Some(a) <==> Due(env, items, s[k], a)
  {
    var d := s[k];
    if Effective(d).None? && PoolOf(env, d).Some? && PoolOf(env, d).value in env.pools {
      var pool := PoolOf(env, d).value;
      var c, ds := env.pools[pool], PoolDetectors(env, items, pool);
      ListingOfPool(env, items, pool);
      OnlyOneOfAKey(ds, d);
      DecisionOnRecords(c, ds, d);
      WantedRecord(d, Decide(c, ds, d));
      if Open(env, items, d) { GivenExactly(c, ds, d, a); } else { FailsExactlyWhen(c, ds, d); }
    }
  }

  /** How fresh a listing must be, exactly, in terms of what it shows.  A
      reconcile whose listing shows its own record keeps the invariant if and
      only if nobody else in the pool holds an address due to it: nothing is due
      if it holds an address, has no valid pool, or the listing contradicts itself. */
  lemma ListingSafeExactly(env: Env, s: Store, k: Key, items: seq<Detector>, mode: Mode)
    requires StoreInv(env, s) && ShowsItself(items, s, k)
    ensures StoreInv(env, Reconciled(env, s, k, items, mode)) <==>
              forall a: uint16 :: Due(env, items, s[k], a) ==> FreeFor(env, s, k, a)
  {
    SafeIfGivenIsFree(env, s, k, items, mode);
    forall a: uint16 ensures NewAddress(env, items, s[k]) == Some(a) <==> Due(env, items, s[k], a) {
      NewAddressExactly(env, s, k, items, a);
    }
  }

  /** A listing that leaves out none of the addresses held by others in the pool
      is fresh enough, whatever else it leaves out or is mistaken about. */
  lemma CoveringListingIsSafe(env: Env, s: Store, k: Key, items: seq<Detector>, mode: Mode)
    requires StoreInv(env, s) && ShowsItself(items, s, k) && Covers(env, items, s, k)
    ensures StoreInv(env, Reconciled(env, s, k, items, mode))
  {
    TargetOnListing(env, s, k, items);
    if NewAddress(env, items, s[k]).Some? { CoveredAreFree(env, s, k, items); }
    SafeIfGivenIsFree(env, s, k, items, mode);
  }

  /** What a step needs to keep the invariant: a reconcile, no more than a listing that covers its pool. */
  ghost predicate Tolerable(env: Env, s: Store, step: Step) {
    if step.Reconcile? then step.key in s ==> ShowsItself(step.items, s, step.key) && Covers(env, step.items, s, step.key)
    else Enabled(s, step)
  }

  lemma FreshIsTolerable(env: Env, s: Store, step: Step)
    requires StoreInv(env, s) && Enabled(s, step)
    ensures Tolerable(env, s, step)
  {
    if step.Reconcile? && step.key in s { FreshShowsItself(env, s, step.key, step.items); }
  }

  lemma TolerableKeepsInv(env: Env, s: Store, step: Step)
    requires StoreInv(env, s) && Tolerable(env, s, step)
    ensures StoreInv(env, ApplyStep(env, s, step))
  {
    match step
    case Create(d) => CreateKeepsInv(env, s, d);
    case Touch(d) => ReplaceKeepsInv(env, s, d.key, d);
    case Reconcile(k, items, mode) => if k in s { CoveringListingIsSafe(env, s, k, items, mode); }
    case Delete(k) => DeleteKeepsInv(env, s, k);
  }

  lemma CreateKeepsInv(env: Env, s: Store, d: Detector)
    requires StoreInv(env, s) && Enabled(s, Create(d))
    ensures StoreInv(env, s[d.key := d])
  {
    var s' := s[d.key := d];
    forall i, j | i in s' && j in s' && i != j ensures !Clash(env, s'[i], s'[j]) {
      assert i != d.key && j != d.key ==> !Clash(env, s[i], s[j]);
    }
  }

  lemma DeleteKeepsInv(env: Env, s: Store, k: Key)
    requires StoreInv(env, s)
    ensures StoreInv(env, s - {k})
  {
    var s' := s - {k};
    forall i, j | i in s' && j in s' && i != j ensures !Clash(env, s'[i], s'[j]) {
      assert !Clash(env, s[i], s[j]);
    }
  }

  lemma StepKeepsInv(env: Env, s: Store, step: Step)
    requires StoreInv(env, s) && Enabled(s, step)
    ensures StoreInv(env, ApplyStep(env, s, step))
  {
    FreshIsTolerable(env, s, step);
    TolerableKeepsInv(env, s, step);
  }

  lemma {:induction false} RunKeepsStoreInv(env: Env, s: Store, steps: seq<Step>)
    requires StoreInv(env, s) && IsRun(env, s, steps)
    ensures StoreInv(env, After(env, s, steps))
    decreases |steps|
  {
    if steps != [] {
      StepKeepsInv(env, s, steps[0]);
      RunKeepsStoreInv(env, ApplyStep(env, s, steps[0]), steps[1..]);
    }
  }

  /** A run on stale listings, each covering its pool. */
  ghost predicate IsTolerableRun(env: Env, s: Store, steps: seq<Step>)
    decreases |steps|
  {
    steps == [] || (Tolerable(env, s, steps[0]) && IsTolerableRun(env, ApplyStep(env, s, steps[0]), steps[1..]))
  }

  /** Safety does not need fresh listings: addresses stay in range and unique
      through every run whose listings cover their pools. */
  lemma {:induction false} TolerableRunKeepsStoreInv(env: Env, s: Store, steps: seq<Step>)
    requires StoreInv(env, s) && IsTolerableRun(env, s, steps)
    ensures StoreInv(env, After(env, s, steps))
    decreases |steps|
  {
    if steps != [] {
      TolerableKeepsInv(env, s, steps[0]);
      TolerableRunKeepsStoreInv(env, ApplyStep(env, s, steps[0]), steps[1..]);
    }
  }

  /** Safety: from no detectors, after any interleaving of creations, touches,
      full and cut reconciles and deletions, distinct detectors of one pool hold
      distinct addresses inside the pool's range, and no listing makes Rebuild fail. */
  lemma AddressesStayUnique(env: Env, steps: seq<Step>, j: Key, k: Key, items: seq<Detector>)
    requires IsRun(env, map[], steps)
    requires var s := After(env, map[], steps);
             j in s && k in s && PoolOf(env, s[j]).Some? && IsListing(items, s)
    ensures var s := After(env, map[], steps);
            var pool := PoolOf(env, s[j]).value;
            && (j != k && PoolOf(env, s[k]) == Some(pool) && Effective(s[j]).Some? ==> Effective(s[j]) != Effective(s[k]))
            && (Effective(s[j]).Some? ==> pool in env.pools && InRange(env.pools[pool], Effective(s[j]).value))
            && (pool in env.pools && ValidConfig(env.pools[pool]) ==>
                  Spec.Rebuild(env.pools[pool], Assigned(PoolDetectors(env, items, pool))).1.None?)
  {
    RunKeepsStoreInv(env, map[], steps);
    var s := After(env, map[], steps);
    assert j != k ==> !Clash(env, s[j], s[k]);
    var pool := PoolOf(env, s[j]).value;
    if pool in env.pools && ValidConfig(env.pools[pool]) { RebuildNeverFails(env, s, items, pool); }
  }

  /** The pool the repository ships: addresses 10 to 200, with 1, 2 and 3 reserved. */
  const BUNDLED_POOL := Config(10, 200, [1, 2, 3])

  /** The bundled pool is not a valid one, its reserved addresses lying outside
      its range: every decision from it fails, and in no run does a detector that
      falls back to it ever hold an address. */
  lemma BundledPoolServesNobody(env: Env, steps: seq<Step>, k: Key, ds: seq<Detector>, d: Detector)
    requires IsRun(env, map[], steps)
    requires Key(DEFAULT_POOL_NAMESPACE, DEFAULT_POOL_NAME) in env.pools
    requires env.pools[Key(DEFAULT_POOL_NAMESPACE, DEFAULT_POOL_NAME)] == BUNDLED_POOL
    ensures Decide(BUNDLED_POOL, ds, d) == Failure(BadConfig(ReservedOutside(1)))
    ensures var s := After(env, map[], steps);
            k in s && PoolOf(env, s[k]) == Some(Key(DEFAULT_POOL_NAMESPACE, DEFAULT_POOL_NAME)) ==> Effective(s[k]).None?
  {
    assert EntryError(BUNDLED_POOL, 0) == Some(ReservedOutside(1));
    AcceptsExactlyValid(BUNDLED_POOL);
    RunKeepsStoreInv(env, map[], steps);
  }

  // ---- stickiness and crash recovery ----

  lemma StepIsSticky(env: Env, s: Store, step: Step, k: Key, a: uint16)
    requires StoreInv(env, s) && Enabled(s, step) && k in s && Effective(s[k]) == Some(a) && step != Delete(k)
    ensures k in ApplyStep(env, s, step) && Effective(ApplyStep(env, s, step)[k]) == Some(a)
  {
    if step.Reconcile? && step.key in s {
      FreshShowsItself(env, s, step.key, step.items);
      ReconciledRecord(env, s, step.key, step.items, step.mode);
    }
  }

  /** Once set, an effective address changes only by deleting the detector:
      every run that does not delete it keeps the address, and keeps it from
      every other detector of the pool. */
  lemma {:induction false} AddressIsSticky(env: Env, s: Store, steps: seq<Step>, k: Key, a: uint16)
    requires StoreInv(env, s) && IsRun(env, s, steps) && Delete(k) !in steps
    requires k in s && Effective(s[k]) == Some(a)
    ensures var s' := After(env, s, steps);
            k in s' && Effective(s'[k]) == Some(a) && FreeFor(env, s', k, a)
    decreases |steps|
  {
    if steps == [] {
      forall j | j in s && j != k && PoolOf(env, s[j]) == PoolOf(env, s[k]) ensures Effective(s[j]) != Some(a) {
        assert !Clash(env, s[k], s[j]);
      }
    } else {
      assert steps[0] != Delete(k);
      StepIsSticky(env, s, steps[0], k, a);
      StepKeepsInv(env, s, steps[0]);
      AddressIsSticky(env, ApplyStep(env, s, steps[0]), steps[1..], k, a);
    }
  }

  /** Crash recovery: a reconcile that chose `a` and died after its spec write
      loses nothing.  Whatever happens next short of deleting the detector, `a`
      stays with it, and its next reconcile to make both writes records `a` as
      assigned. */
  lemma CrashRecovery(env: Env, s: Store, k: Key, items: seq<Detector>, cut: Store,
                      steps: seq<Step>, later: Store, items': seq<Detector>, mode: Mode)
    requires StoreInv(env, s) && IsListing(items, s) && k in s
    requires Target(env, items, s[k]).phase == Allocated
    requires cut == ApplyStep(env, s, Reconcile(k, items, Cut))
    requires IsRun(env, cut, steps) && Delete(k) !in steps
    requires later == After(env, cut, steps) && IsListing(items', later) && mode != Cut
    ensures var a := Target(env, items, s[k]).assignedAddr;
            var full := ApplyStep(env, later, Reconcile(k, items', mode));
            && a.Some? && k in later && Effective(later[k]) == a && FreeFor(env, later, k, a.value)
            && k in full && full[k].assignedAddr == full[k].desiredAddr == a
            && (mode == Whole ==> full[k].phase == Allocated)
  {
    var a := CutHoldsChoice(env, s, k, items);
    StepKeepsInv(env, s, Reconcile(k, items, Cut));
    AddressIsSticky(env, cut, steps, k, a);
    RunKeepsStoreInv(env, cut, steps);
    ReconcileRecordsHeld(env, later, k, items', mode);
  }

  /** A reconcile cut after choosing an address leaves the record holding it. */
  lemma CutHoldsChoice(env: Env, s: Store, k: Key, items: seq<Detector>) returns (a: uint16)
    requires StoreInv(env, s) && IsListing(items, s) && k in s
    requires Target(env, items, s[k]).phase == Allocated
    ensures Target(env, items, s[k]).assignedAddr == Some(a)
    ensures var cut := ApplyStep(env, s, Reconcile(k, items, Cut));
            k in cut && Effective(cut[k]) == Some(a)
  {
    FreshShowsItself(env, s, k, items);
    TargetOnListing(env, s, k, items);
    ReconciledRecord(env, s, k, items, Cut);
    a := Target(env, items, s[k]).assignedAddr.value;
  }

  /** A reconcile of a record that holds an address records it as assigned, unless cut. */
  lemma ReconcileRecordsHeld(env: Env, s: Store, k: Key, items: seq<Detector>, mode: Mode)
    requires StoreInv(env, s) && IsListing(items, s) && k in s && Effective(s[k]).Some? && mode != Cut
    ensures var full := ApplyStep(env, s, Reconcile(k, items, mode));
            && k in full && full[k].assignedAddr == full[k].desiredAddr == Effective(s[k])
            && (mode == Whole ==> full[k].phase == Allocated)
  {
    TargetOnFreshListing(env, s, k, items);
    WrittenRecord(s, k, Target(env, items, s[k]), mode);
  }
}

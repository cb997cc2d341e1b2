/** Progress of the allocation protocol: when a pool is large enough, reconciling
    every detector once settles them all, and settled records stay put. */
module Liveness {
  import opened Basics
  import opened PoolConfig
  import opened PoolSpec
  import opened Detectors
  import opened Allocation
  import opened DetectorProtocol

  ghost function Members(env: Env, s: Store, pool: Key): set<Key> {
    set k | k in s && PoolOf(env, s[k]) == Some(pool)
  }

  /** The pool can serve all its detectors even if none of them sits on a reserved address. */
  ghost predicate LargeEnough(env: Env, s: Store, pool: Key) {
    && pool in env.pools && ValidConfig(env.pools[pool])
    && var c := env.pools[pool];
       |Members(env, s, pool)| <= (c.end - c.start + 1) - |c.reserved|
  }

  ghost predicate Labelled(d: Detector) {
    LABEL_DEVICE_NAME in d.labels && d.labels[LABEL_DEVICE_NAME] == d.deviceRef
  }

  /** The address is written down as assigned, and spec and labels say what a reconcile wants them to. */
  ghost predicate Recorded(d: Detector) {
    d.assignedAddr.Some? && d.desiredAddr == d.assignedAddr && Labelled(d)
  }

  ghost predicate Settled(d: Detector) {
    Recorded(d) && d.phase == Allocated && d.message == NoMessage
  }

  // ---- pigeonhole ----

  ghost function HeldBy(s: Store, ks: set<Key>): set<uint16> {
    set k | k in ks && k in s && Effective(s[k]).Some? :: Effective(s[k]).value
  }

  lemma {:induction false} HeldByBound(s: Store, ks: set<Key>)
    ensures |HeldBy(s, ks)| <= |ks|
    decreases |ks|
  {
    if ks == {} {
      assert HeldBy(s, ks) == {};
    } else {
      var k :| k in ks;
      HeldByBound(s, ks - {k});
      if k in s && Effective(s[k]).Some? {
        assert HeldBy(s, ks) == HeldBy(s, ks - {k}) + {Effective(s[k]).value};
      } else {
        assert HeldBy(s, ks) == HeldBy(s, ks - {k});
      }
    }
  }

  lemma SubsetSize(a: set<int>, b: set<int>)
    requires a <= b
    ensures |a| <= |b|
  {
    assert b == a + (b - a);
  }

  /** A range not used up by held and reserved addresses has a free one. */
  lemma FreeAddressExists(c: Config, held: set<uint16>)
    requires ValidConfig(c) && |held| + |c.reserved| < c.end - c.start + 1
    ensures exists a: uint16 :: InRange(c, a) && a !in held && a !in ReservedSet(c)
  {
    ReservedSize(c);
    var range := Interval(c.start, c.end + 1);
    var busy: set<int> := held + ReservedSet(c);
    if range <= busy { SubsetSize(range, busy); }
    assert |busy| <= |held| + |ReservedSet(c)|;
    var a :| a in range && a !in busy;
    assert InRange(c, a);
  }

  /** A large enough pool has an address left for any member still without one. */
  lemma SomeAddressLeft(env: Env, s: Store, pool: Key, k: Key, items: seq<Detector>)
    requires StoreInv(env, s) && IsListing(items, s) && LargeEnough(env, s, pool)
    requires k in Members(env, s, pool) && Effective(s[k]).None?
    ensures exists a :: Choosable(env.pools[pool], PoolDetectors(env, items, pool), a)
  {
    var c, ds := env.pools[pool], PoolDetectors(env, items, pool);
    var others := Members(env, s, pool) - {k};
    FreshListing(env, s, items, pool);
    TakenByOthers(env, s, pool, k, ds);
    HeldByBound(s, others);
    FreeAddressExists(c, HeldBy(s, others));
    var a :| InRange(c, a) && a !in HeldBy(s, others) && a !in ReservedSet(c);
    assert Choosable(c, ds, a);
  }

  /** What a pool's records hold, its members other than an addressless one hold. */
  lemma TakenByOthers(env: Env, s: Store, pool: Key, k: Key, ds: seq<Detector>)
    requires WellKeyed(s) && k in s && Effective(s[k]).None?
    requires forall d :: d in ds ==> d.key in s && s[d.key] == d && PoolOf(env, d) == Some(pool)
    ensures Taken(ds) <= HeldBy(s, Members(env, s, pool) - {k})
  {}

  // ---- one reconcile ----

  /** A decision for any member of a large enough pool succeeds; a member that
      already holds an address needs no room. */
  lemma MemberIsServed(env: Env, s: Store, pool: Key, k: Key, items: seq<Detector>)
    requires StoreInv(env, s) && IsListing(items, s) && LargeEnough(env, s, pool) && k in Members(env, s, pool)
    ensures var r := Decide(env.pools[pool], PoolDetectors(env, items, pool), s[k]);
            && r.phase == Allocated && r.desiredAddr == r.assignedAddr
            && (Effective(s[k]).Some? ==> r.assignedAddr == Effective(s[k]).value)
  {
    var c, ds := env.pools[pool], PoolDetectors(env, items, pool);
    FreshListing(env, s, items, pool);
    if Effective(s[k]).None? { SomeAddressLeft(env, s, pool, k, items); }
    assert s[k] in ds;
    OnlyOneOfAKey(ds, s[k]);
    FailsExactlyWhen(c, ds, s[k]);
    DecisionOnRecords(c, ds, s[k]);
  }

  /** What a successful decision wants. */
  lemma WantedIsSettled(d: Detector, r: AllocationResult)
    requires r.phase == Allocated && r.desiredAddr == r.assignedAddr
    requires Effective(d).Some? ==> r.assignedAddr == Effective(d).value
    ensures Settled(Wanted(d, r)) && SameDetector(d, Wanted(d, r))
    ensures Recorded(d) ==> !SpecChanges(d, Wanted(d, r))
    ensures Settled(d) ==> Wanted(d, r) == d
  {
    if Recorded(d) { assert d.labels[LABEL_DEVICE_NAME := d.deviceRef] == d.labels; }
  }

  /** A reconcile settles any member of a large enough pool, provided its status
      write carries the record it made; a refreshed one records the address, and
      settles a record that has it recorded. */
  lemma ReconcileSettles(env: Env, s: Store, pool: Key, k: Key, items: seq<Detector>, mode: Mode)
    requires StoreInv(env, s) && IsListing(items, s) && LargeEnough(env, s, pool) && k in Members(env, s, pool)
    ensures var s' := Reconciled(env, s, k, items, mode);
            && k in s' && s' == s[k := s'[k]] && SameDetector(s[k], s'[k])
            && Effective(s'[k]).Some?
            && (Settled(s[k]) ==> s' == s)
            && (mode != Cut ==> Recorded(s'[k]))
            && (mode == Whole || (mode == Refreshed && Recorded(s[k])) ==> Settled(s'[k]))
            && (Recorded(s[k]) ==> Recorded(s'[k]))
  {
    var r := Decide(env.pools[pool], PoolDetectors(env, items, pool), s[k]);
    MemberIsServed(env, s, pool, k, items);
    WantedIsSettled(s[k], r);
    var t := Wanted(s[k], r);
    assert Target(env, items, s[k]) == t;
    WrittenRecord(s, k, t, mode);
    WrittenUnchanged(s, k, mode);
  }

  /** When a single refreshed reconcile settles a member, exactly: if an address
      is already desired and the label right, so that no spec is written, or the
      stored phase and message do not displace its own. */
  lemma RefreshedSettlesExactly(env: Env, s: Store, pool: Key, k: Key, items: seq<Detector>)
    requires StoreInv(env, s) && IsListing(items, s) && LargeEnough(env, s, pool) && k in Members(env, s, pool)
    ensures var s' := Reconciled(env, s, k, items, Refreshed);
            k in s' && (Settled(s'[k]) <==>
                          || (s[k].desiredAddr.Some? && Labelled(s[k]))
                          || ((s[k].phase == Unset || s[k].phase == Allocated) && s[k].message == NoMessage))
  {
    var r := Decide(env.pools[pool], PoolDetectors(env, items, pool), s[k]);
    MemberIsServed(env, s, pool, k, items);
    WantedIsSettled(s[k], r);
    assert Target(env, items, s[k]) == Wanted(s[k], r);
    RefreshedRecord(s, k, Wanted(s[k], r));
    SpecChangesExactly(s[k], r);
  }

  /** There is a spec to write exactly if the address is not yet desired or the label not yet right. */
  lemma SpecChangesExactly(d: Detector, r: AllocationResult)
    requires r.phase == Allocated && r.desiredAddr == r.assignedAddr
    requires d.assignedAddr.Some? ==> d.desiredAddr == d.assignedAddr
    requires Effective(d).Some? ==> r.assignedAddr == Effective(d).value
    ensures SpecChanges(d, Wanted(d, r)) <==> d.desiredAddr.None? || !Labelled(d)
  {
    if Labelled(d) { assert d.labels[LABEL_DEVICE_NAME := d.deviceRef] == d.labels; }
  }

  lemma RefreshedRecord(s: Store, k: Key, t: Detector)
    requires k in s && s[k].key == k && SameDetector(s[k], t) && Settled(t)
    requires s[k].assignedAddr.Some? ==> t.assignedAddr == s[k].assignedAddr
    ensures Settled(Written(s, t, Refreshed)[k]) <==>
              || !SpecChanges(s[k], t)
              || ((s[k].phase == Unset || s[k].phase == Allocated) && s[k].message == NoMessage)
  {}

  lemma WrittenUnchanged(s: Store, k: Key, mode: Mode)
    requires k in s && s[k].key == k
    ensures Written(s, s[k], mode) == s
  {}

  // ---- passes ----

  /** The steps of a pass: reconciles, whole or not, and touches that leave the device reference alone. */
  ghost predicate InPass(s: Store, step: Step) {
    step.Reconcile? || (step.Touch? && step.det.key in s && step.det.deviceRef == s[step.det.key].deviceRef)
  }

  ghost predicate IsPass(env: Env, s: Store, steps: seq<Step>)
    decreases |steps|
  {
    steps == [] || (Enabled(s, steps[0]) && InPass(s, steps[0]) && IsPass(env, ApplyStep(env, s, steps[0]), steps[1..]))
  }

  lemma {:induction false} PassIsRun(env: Env, s: Store, steps: seq<Step>)
    requires IsPass(env, s, steps)
    ensures IsRun(env, s, steps)
    decreases |steps|
  {
    if steps != [] { PassIsRun(env, ApplyStep(env, s, steps[0]), steps[1..]); }
  }

  /** A step of a pass changes one record at most, and not its detector's identity. */
  lemma PassStepRecords(env: Env, s: Store, step: Step)
    requires StoreInv(env, s) && Enabled(s, step) && InPass(s, step)
    ensures var s', k := ApplyStep(env, s, step), if step.Touch? then step.det.key else step.key;
            if k in s then k in s' && s' == s[k := s'[k]] && s'[k].key == k && s'[k].deviceRef == s[k].deviceRef
            else s' == s
  {
    if step.Reconcile? && step.key in s {
      FreshShowsItself(env, s, step.key, step.items);
      ReconciledRecord(env, s, step.key, step.items, step.mode);
    }
  }

  lemma PassStepKeepsMembers(env: Env, s: Store, pool: Key, step: Step)
    requires StoreInv(env, s) && Enabled(s, step) && InPass(s, step)
    ensures Members(env, ApplyStep(env, s, step), pool) == Members(env, s, pool)
  {
    PassStepRecords(env, s, step);
    var k := if step.Touch? then step.det.key else step.key;
    if k in s { assert PoolOf(env, ApplyStep(env, s, step)[k]) == PoolOf(env, s[k]); }
  }

  /** How much a step does for a detector: a crash after the spec write gives it
      an address, a refreshed reconcile records it, a whole one settles all. */
  function Credit(step: Step, k: Key): nat {
    if !step.Reconcile? || step.key != k || step.mode == Cut then 0 else if step.mode == Refreshed then 1 else 2
  }

  function Credits(steps: seq<Step>, k: Key): nat {
    if steps == [] then 0 else Credit(steps[0], k) + Credits(steps[1..], k)
  }

  /** What is missing for a detector to be settled. */
  ghost function Missing(d: Detector): nat {
    if Settled(d) then 0 else if Recorded(d) then 1 else 2
  }

  ghost predicate Reached(steps: seq<Step>, k: Key) {
    exists i :: 0 <= i < |steps| && steps[i].Reconcile? && steps[i].key == k
  }

  ghost predicate Untouched(steps: seq<Step>, k: Key) {
    forall i :: 0 <= i < |steps| && steps[i].Touch? ==> steps[i].det.key != k
  }

  lemma StepProgress(env: Env, s: Store, pool: Key, step: Step, k: Key)
    requires StoreInv(env, s) && LargeEnough(env, s, pool) && k in Members(env, s, pool)
    requires Enabled(s, step) && InPass(s, step)
    ensures var s' := ApplyStep(env, s, step);
            && k in s'
            && (Effective(s[k]).Some? || (step.Reconcile? && step.key == k) ==> Effective(s'[k]).Some?)
            && (s[k].assignedAddr.Some? || Credit(step, k) > 0 ==> s'[k].assignedAddr.Some?)
            && (Untouched([step], k) ==>
                  Missing(s'[k]) <= if Missing(s[k]) <= Credit(step, k) then 0 else Missing(s[k]) - Credit(step, k))
            && (Untouched([step], k) && Settled(s[k]) ==> s'[k] == s[k])
  {
    PassStepRecords(env, s, step);
    if step.Reconcile? && step.key == k {
      ReconcileSettles(env, s, pool, k, step.items, step.mode);
      if s[k].assignedAddr.Some? { AssignedStays(env, s, k, step); }
    } else if step.Touch? {
      assert [step][0] == step;
    }
  }

  lemma AssignedStays(env: Env, s: Store, k: Key, step: Step)
    requires StoreInv(env, s) && Enabled(s, step) && step.Reconcile? && step.key == k && k in s && s[k].assignedAddr.Some?
    ensures k in ApplyStep(env, s, step) && ApplyStep(env, s, step)[k].assignedAddr == s[k].assignedAddr
  {
    TargetOnFreshListing(env, s, k, step.items);
    WrittenRecord(s, k, Target(env, step.items, s[k]), step.mode);
  }

  /** What a pass does for one member of a large enough pool. */
  lemma {:induction false} PassProgress(env: Env, s: Store, pool: Key, steps: seq<Step>, k: Key)
    requires StoreInv(env, s) && LargeEnough(env, s, pool) && IsPass(env, s, steps)
    requires k in Members(env, s, pool)
    ensures var s' := After(env, s, steps);
            && k in s' && Members(env, s', pool) == Members(env, s, pool)
            && (Effective(s[k]).Some? || Reached(steps, k) ==> Effective(s'[k]).Some?)
            && (s[k].assignedAddr.Some? || Credits(steps, k) > 0 ==> s'[k].assignedAddr.Some?)
            && (Untouched(steps, k) && Missing(s[k]) <= Credits(steps, k) ==> Settled(s'[k]))
            && (Untouched(steps, k) && Settled(s[k]) ==> s'[k] == s[k])
    decreases |steps|
  {
    if steps != [] {
      var step, rest := steps[0], steps[1..];
      var next := ApplyStep(env, s, step);
      StepProgress(env, s, pool, step, k);
      PassStepKeepsMembers(env, s, pool, step);
      StepKeepsInv(env, s, step);
      PassProgress(env, next, pool, rest, k);
      FirstAndRest(steps, k);
    }
  }

  lemma FirstAndRest(steps: seq<Step>, k: Key)
    requires steps != []
    ensures Reached(steps, k) <==> Reached(steps[1..], k) || (steps[0].Reconcile? && steps[0].key == k)
    ensures Untouched(steps, k) <==> Untouched(steps[1..], k) && Untouched([steps[0]], k)
    ensures Credits(steps, k) == Credit(steps[0], k) + Credits(steps[1..], k)
  {
    assert [steps[0]][0] == steps[0];
    assert forall i :: 0 < i < |steps| ==> steps[i] == steps[1..][i - 1];
    if Reached(steps[1..], k) {
      var i :| 0 <= i < |steps| - 1 && steps[1..][i].Reconcile? && steps[1..][i].key == k;
      assert steps[i + 1] == steps[1..][i];
    }
    if Untouched(steps, k) {
      forall i | 0 <= i < |steps| - 1 && steps[1..][i].Touch? ensures steps[1..][i].det.key != k {
        assert steps[1..][i] == steps[i + 1];
      }
    }
  }

  /** Liveness: in a reachable store with at most as many detectors in the pool
      as it has unreserved addresses, a pass of reconciles in any order, whatever
      their modules report and whether or not they adopt, with other writers
      touching records all along, gives every detector it reaches an address, be
      it by a reconcile that crashed; every one it completes a reconcile of has
      it recorded as assigned; every one nobody else touches is Allocated after
      one whole reconcile, or two whose client refreshed the record in between;
      and all addresses differ. */
  lemma PassAllocatesAll(env: Env, before: seq<Step>, pool: Key, steps: seq<Step>)
    requires IsRun(env, map[], before)
    requires var s := After(env, map[], before);
             LargeEnough(env, s, pool) && IsPass(env, s, steps)
    ensures var s, s' := After(env, map[], before), After(env, After(env, map[], before), steps);
            && Members(env, s', pool) == Members(env, s, pool)
            && (forall k :: k in Members(env, s, pool) && Reached(steps, k) ==> Effective(s'[k]).Some?)
            && (forall k :: k in Members(env, s, pool) && Credits(steps, k) > 0 ==>
                  s'[k].assignedAddr.Some? && s'[k].desiredAddr == s'[k].assignedAddr)
            && (forall k :: k in Members(env, s, pool) && Untouched(steps, k) && Credits(steps, k) >= 2 ==> Settled(s'[k]))
            && (forall j, k :: j in Members(env, s', pool) && k in Members(env, s', pool) && j != k ==>
                  Effective(s'[j]).None? || Effective(s'[j]) != Effective(s'[k]))
  {
    RunKeepsStoreInv(env, map[], before);
    var s := After(env, map[], before);
    PassServesAll(env, s, pool, steps, After(env, s, steps));
  }

  lemma PassServesAll(env: Env, s: Store, pool: Key, steps: seq<Step>, s': Store)
    requires StoreInv(env, s) && LargeEnough(env, s, pool) && IsPass(env, s, steps) && s' == After(env, s, steps)
    ensures Members(env, s', pool) == Members(env, s, pool)
    ensures forall k :: k in Members(env, s, pool) && Reached(steps, k) ==> Effective(s'[k]).Some?
    ensures forall k :: k in Members(env, s, pool) && Credits(steps, k) > 0 ==>
              s'[k].assignedAddr.Some? && s'[k].desiredAddr == s'[k].assignedAddr
    ensures forall k :: k in Members(env, s, pool) && Untouched(steps, k) && Credits(steps, k) >= 2 ==> Settled(s'[k])
    ensures forall j, k :: j in Members(env, s', pool) && k in Members(env, s', pool) && j != k ==>
              Effective(s'[j]).None? || Effective(s'[j]) != Effective(s'[k])
  {
    PassIsRun(env, s, steps);
    RunKeepsStoreInv(env, s, steps);
    PassKeepsMembers(env, s, pool, steps);
    forall k | k in Members(env, s, pool)
      ensures Reached(steps, k) ==> Effective(s'[k]).Some?
      ensures Credits(steps, k) > 0 ==> s'[k].assignedAddr.Some? && s'[k].desiredAddr == s'[k].assignedAddr
      ensures Untouched(steps, k) && Credits(steps, k) >= 2 ==> Settled(s'[k])
    {
      PassProgress(env, s, pool, steps, k);
    }
    forall j, k | j in Members(env, s', pool) && k in Members(env, s', pool) && j != k && Effective(s'[j]).Some?
      ensures Effective(s'[j]) != Effective(s'[k])
    {
      assert !Clash(env, s'[j], s'[k]);
    }
  }

  lemma {:induction false} PassKeepsMembers(env: Env, s: Store, pool: Key, steps: seq<Step>)
    requires StoreInv(env, s) && IsPass(env, s, steps)
    ensures Members(env, After(env, s, steps), pool) == Members(env, s, pool)
    decreases |steps|
  {
    if steps != [] {
      PassStepKeepsMembers(env, s, pool, steps[0]);
      StepKeepsInv(env, s, steps[0]);
      PassKeepsMembers(env, ApplyStep(env, s, steps[0]), pool, steps[1..]);
    }
  }

  lemma SettledStays(env: Env, s: Store, k: Key, items: seq<Detector>, mode: Mode)
    requires StoreInv(env, s) && IsListing(items, s) && k in s && Settled(s[k])
    ensures Reconciled(env, s, k, items, mode) == s
  {
    var d := s[k];
    assert InItsPool(env, d);
    var pool := PoolOf(env, d).value;
    var c, ds := env.pools[pool], PoolDetectors(env, items, pool);
    FreshListing(env, s, items, pool);
    DecisionOnRecords(c, ds, d);
    WantedIsSettled(d, Decide(c, ds, d));
    WrittenUnchanged(s, k, mode);
  }

  /** Quiescence: reconciles of settled detectors, in any number, order and mode,
      change nothing at all, whatever the size of their pools and whoever else
      in them is not settled. */
  lemma {:induction false} SecondPassChangesNothing(env: Env, s: Store, steps: seq<Step>)
    requires StoreInv(env, s) && IsRun(env, s, steps)
    requires forall i :: 0 <= i < |steps| ==> steps[i].Reconcile? && steps[i].key in s && Settled(s[steps[i].key])
    ensures After(env, s, steps) == s
    decreases |steps|
  {
    if steps != [] {
      SettledStays(env, s, steps[0].key, steps[0].items, steps[0].mode);
      assert ApplyStep(env, s, steps[0]) == s;
      SecondPassChangesNothing(env, s, steps[1..]);
    }
  }
}

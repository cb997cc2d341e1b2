/** Gateway and allocator in turn: a gateway pass, a pass of reconciles, and a
    second gateway pass, seen from the modules. */
module EndToEnd {
  import opened Basics
  import opened PoolConfig
  import opened PoolSpec
  import opened Detectors
  import opened DetectorProtocol
  import opened Liveness
  import opened Wire
  import opened SimRegistry
  import opened Discovery
  import opened Gateway

  /** The gateway serves a device that exists and draws on `pool`. */
  ghost predicate Serves(env: Env, g: Identity, pool: Key) {
    g.device != "" && Key(g.ns, g.device) in env.devices && PoolKey(env.devices[Key(g.ns, g.device)]) == pool
  }

  lemma ServedPool(env: Env, g: Identity, pool: Key, d: Detector)
    requires Serves(env, g, pool) && Mine(g, d)
    ensures PoolOf(env, d) == Some(pool)
  {}

  /** Our record at `k` bears the name the gateway gives it, and is about a module that answers. */
  ghost predicate Backed(g: Identity, s: Store, reg: Registry, k: Key) {
    Ours(g, s, k) ==>
      k.name == DetectorName(s[k].netID) && s[k].netID != POLL_ALL && Reported(reg, s[k].netID).Some?
  }

  /** So are all of them; an empty store will do. */
  ghost predicate AllBacked(g: Identity, s: Store, reg: Registry) {
    forall k :: Backed(g, s, reg, k)
  }

  lemma BackedIsReady(g: Identity, s: Store, reg: Registry)
    requires AllBacked(g, s, reg)
    ensures GatewayNamed(g, s) && Present(g, s, reg)
  {
    forall k | Ours(g, s, k)
      ensures k.name == DetectorName(s[k].netID) && Reported(reg, s[k].netID).Some? && s[k].netID != POLL_ALL
    {
      assert Backed(g, s, reg, k);
    }
  }

  /** A discovery adds records of modules that answer, and no others. */
  lemma RecordingKeepsBacked(g: Identity, s: Store, reg: Registry, mid: Store)
    requires WellKeyed(s) && RegistryInv(reg) && '/' !in g.ns && AllBacked(g, s, reg)
    requires IsRecorded(g, s, Expected(reg), mid)
    ensures AllBacked(g, mid, reg)
  {
    forall k ensures Backed(g, mid, reg, k) {
      if Ours(g, mid, k) {
        RecordedRecord(g, s, reg, mid, k);
        assert Backed(g, s, reg, k);
      }
    }
  }

  /** A change that keeps who a record is about, among modules that neither come nor go, keeps it backed. */
  lemma StaysBacked(g: Identity, s: Store, reg: Registry, s': Store, reg': Registry, k: Key)
    requires Backed(g, s, reg, k) && SamePresence(reg, reg')
    requires Ours(g, s', k) ==> Ours(g, s, k) && s'[k].netID == s[k].netID
    ensures Backed(g, s', reg', k)
  {}

  lemma ApplyKeepsBacked(g: Identity, s: Store, reg: Registry, items: seq<Detector>, o: Outcome)
    requires RegistryInv(reg) && IsListing(items, s) && AllBacked(g, s, reg) && o == ApplyUpTo(g, s, reg, items, |items|)
    ensures AllBacked(g, o.store, o.reg)
  {
    PassIntact(g, s, reg, items, |items|);
    forall k ensures Backed(g, o.store, o.reg, k) {
      assert Backed(g, s, reg, k);
      if k in s { PassKeeps(g, s, reg, items, |items|, k); }
      StaysBacked(g, s, reg, o.store, o.reg, k);
    }
  }

  /** A touch of one of our records leaves it about the same module. */
  ghost predicate KeepsModule(g: Identity, s: Store, step: Step) {
    step.Touch? && Ours(g, s, step.det.key) ==> step.det.netID == s[step.det.key].netID
  }

  /** A pass in which others, and the gateway on every broadcast, may touch records, but no record of ours changes its module. */
  ghost predicate IsOurPass(env: Env, g: Identity, s: Store, steps: seq<Step>)
    decreases |steps|
  {
    steps == [] || (&& Enabled(s, steps[0]) && InPass(s, steps[0]) && KeepsModule(g, s, steps[0])
                    && IsOurPass(env, g, ApplyStep(env, s, steps[0]), steps[1..]))
  }

  lemma {:induction false} OurPassIsPass(env: Env, g: Identity, s: Store, steps: seq<Step>)
    requires IsOurPass(env, g, s, steps)
    ensures IsPass(env, s, steps)
    decreases |steps|
  {
    if steps != [] { OurPassIsPass(env, g, ApplyStep(env, s, steps[0]), steps[1..]); }
  }

  /** The gateway's own recording of a report of a module it has a record of is such a touch. */
  lemma UpsertInPass(env: Env, g: Identity, s: Store, e: Discovered)
    requires WellKeyed(s) && '/' !in g.ns && KeyOf(g, e.netID) in s && s[KeyOf(g, e.netID)].deviceRef != ""
    requires GatewayNamed(g, s)
    ensures var step := UpsertStep(g, e, s);
            && Enabled(s, step) && InPass(s, step) && KeepsModule(g, s, step)
            && ApplyStep(env, s, step) == Upsert(g, s, e)
  {
    var k := KeyOf(g, e.netID);
    UpsertIsProtocolStep(env, g, e, s);
    if Ours(g, s, k) { DetectorNameInjective(s[k].netID, e.netID); }
  }

  lemma StepKeepsOurs(env: Env, g: Identity, s: Store, step: Step, k: Key)
    requires StoreInv(env, s) && Enabled(s, step) && InPass(s, step) && KeepsModule(g, s, step)
    ensures var s' := ApplyStep(env, s, step);
            && (Ours(g, s', k) <==> Ours(g, s, k))
            && (Ours(g, s, k) ==> s'[k].netID == s[k].netID)
            && (Ours(g, s, k) && step.Reconcile? ==> s'[k].observedAddr == s[k].observedAddr)
  {
    if step.Reconcile? && step.key in s {
      FreshShowsItself(env, s, step.key, step.items);
      ReconciledRecord(env, s, step.key, step.items, step.mode);
    }
  }

  /** Such a pass leaves our records ours, each about its module. */
  lemma {:induction false} PassKeepsOurs(env: Env, g: Identity, s: Store, steps: seq<Step>, k: Key)
    requires StoreInv(env, s) && IsOurPass(env, g, s, steps)
    ensures var s' := After(env, s, steps);
            && (Ours(g, s', k) <==> Ours(g, s, k))
            && (Ours(g, s, k) ==> s'[k].netID == s[k].netID)
    decreases |steps|
  {
    if steps != [] {
      StepKeepsOurs(env, g, s, steps[0], k);
      StepKeepsInv(env, s, steps[0]);
      PassKeepsOurs(env, g, ApplyStep(env, s, steps[0]), steps[1..], k);
    }
  }

  lemma ReconcilesKeepBacked(env: Env, g: Identity, s: Store, reg: Registry, steps: seq<Step>, s': Store)
    requires StoreInv(env, s) && IsOurPass(env, g, s, steps) && s' == After(env, s, steps)
    requires AllBacked(g, s, reg)
    ensures AllBacked(g, s', reg)
  {
    forall k ensures Backed(g, s', reg, k) {
      assert Backed(g, s, reg, k);
      PassKeepsOurs(env, g, s, steps, k);
      StaysBacked(g, s, reg, s', reg, k);
    }
  }

  /** A record of ours once some reconcile of it has gone through. */
  lemma RecordGetsAddress(env: Env, g: Identity, pool: Key, s: Store, steps: seq<Step>, s': Store, k: Key)
    requires StoreInv(env, s) && Serves(env, g, pool) && LargeEnough(env, s, pool)
    requires IsOurPass(env, g, s, steps) && s' == After(env, s, steps)
    requires Ours(g, s, k) && Credits(steps, k) > 0
    ensures StoreInv(env, s') && Ours(g, s', k)
    ensures s'[k].assignedAddr.Some? && s'[k].desiredAddr == s'[k].assignedAddr
  {
    assert s[k].key == k;
    OurPassIsPass(env, g, s, steps);
    ServedPool(env, g, pool, s[k]);
    PassProgress(env, s, pool, steps, k);
    PassKeepsOurs(env, g, s, steps, k);
    PassIsRun(env, s, steps);
    RunKeepsStoreInv(env, s, steps);
  }

  /** The same record once it is recorded again and applied. */
  lemma AssignedRecordEndsApplied(g: Identity, e: Discovered, d: Detector, d': Detector, reg: Registry)
    requires d.assignedAddr.Some? && d.desiredAddr == d.assignedAddr && Mine(g, d) && g.device != ""
    requires SameSpec(Upserted(g, e, Some(d)), d') && InForce(d', reg)
    ensures Mine(g, d') && d'.key == d.key && d'.netID == e.netID && d'.phase == Applied
    ensures d'.desiredAddr.Some? && d'.desiredAddr == d'.assignedAddr == Reported(reg, e.netID)
  {}

  /** What is left behind of a module found: its record is Applied, and desired,
      assigned and module address are one, in the pool's range. */
  ghost predicate EndsApplied(env: Env, g: Identity, pool: Key, last: Store, reg: Registry, n: uint16) {
    var k := KeyOf(g, n);
    && pool in env.pools
    && Ours(g, last, k) && last[k].netID == n && last[k].phase == Applied
    && Reported(reg, n).Some? && last[k].desiredAddr == last[k].assignedAddr == Reported(reg, n)
    && InRange(env.pools[pool], Reported(reg, n).value)
  }

  lemma ModuleEndsApplied(env: Env, g: Identity, pool: Key, reg: Registry, s: Store, mid: Store, last: Store,
                          reg': Registry, n: uint16)
    requires RegistryInv(reg) && Serves(env, g, pool) && WellKeyed(s) && StoreInv(env, last) && pool in env.pools
    requires n in Expected(reg) && Ours(g, s, KeyOf(g, n)) && IsRecorded(g, s, Expected(reg), mid)
    requires s[KeyOf(g, n)].assignedAddr.Some? && s[KeyOf(g, n)].desiredAddr == s[KeyOf(g, n)].assignedAddr
    requires KeyOf(g, n) in mid && KeyOf(g, n) in last && SameSpec(mid[KeyOf(g, n)], last[KeyOf(g, n)])
    requires Ours(g, last, KeyOf(g, n)) ==> InForce(last[KeyOf(g, n)], reg')
    ensures EndsApplied(env, g, pool, last, reg', n)
  {
    var k := KeyOf(g, n);
    var e, d, d' := Expected(reg)[n], s[k], last[k];
    assert e == EntryOf(reg[n]) && d.key == k;
    assert mid[k] == Upserted(g, e, Some(d));
    assert Ours(g, last, k);
    AssignedRecordEndsApplied(g, e, d, d', reg');
    ServedPool(env, g, pool, d');
    assert Effective(d').Some?;
    assert InItsPool(env, d');
  }

  lemma EndsApart(env: Env, g: Identity, pool: Key, last: Store, reg: Registry, m: uint16, n: uint16)
    requires StoreInv(env, last) && m != n
    requires EndsApplied(env, g, pool, last, reg, m) && EndsApplied(env, g, pool, last, reg, n)
    ensures Reported(reg, m) != Reported(reg, n)
  {
    var j, k := KeyOf(g, m), KeyOf(g, n);
    assert j != k;
    assert DeviceKey(last[j]) == DeviceKey(last[k]);
    assert !Clash(env, last[j], last[k]);
  }

  ghost predicate AllInForce(g: Identity, o: Outcome) {
    forall k :: Ours(g, o.store, k) ==> InForce(o.store[k], o.reg)
  }

  /** What is one of our records in `s` is so in `s'`, with its address assigned. */
  ghost predicate AllAssigned(g: Identity, s: Store, s': Store) {
    forall k :: Ours(g, s, k) ==>
      Ours(g, s', k) && s'[k].assignedAddr.Some? && s'[k].desiredAddr == s'[k].assignedAddr
  }

  /** The reconciles get through to every record of ours. */
  ghost predicate AllReconciled(g: Identity, s: Store, steps: seq<Step>) {
    forall k :: Ours(g, s, k) ==> Credits(steps, k) > 0
  }

  lemma Between(env: Env, g: Identity, pool: Key, s: Store, reg: Registry, steps: seq<Step>, s': Store)
    requires StoreInv(env, s) && Serves(env, g, pool) && LargeEnough(env, s, pool) && AllBacked(g, s, reg)
    requires IsOurPass(env, g, s, steps) && AllReconciled(g, s, steps) && s' == After(env, s, steps)
    ensures StoreInv(env, s') && AllBacked(g, s', reg) && AllAssigned(g, s, s')
  {
    OurPassIsPass(env, g, s, steps);
    PassIsRun(env, s, steps);
    RunKeepsStoreInv(env, s, steps);
    ReconcilesKeepBacked(env, g, s, reg, steps, s');
    forall k | Ours(g, s, k)
      ensures Ours(g, s', k) && s'[k].assignedAddr.Some? && s'[k].desiredAddr == s'[k].assignedAddr
    {
      RecordGetsAddress(env, g, pool, s, steps, s', k);
    }
  }

  /** A gateway pass: it succeeds, and leaves everything fit for the rest. */
  lemma OnePass(env: Env, g: Identity, s: Store, reg: Registry, mid: Store, items: seq<Detector>, o: Outcome)
    requires StoreInv(env, s) && RegistryInv(reg) && '/' !in g.ns && AllBacked(g, s, reg)
    requires IsRecorded(g, s, Expected(reg), mid) && IsListing(items, mid)
    requires o == ApplyUpTo(g, mid, reg, items, |items|)
    ensures o.ok && StoreInv(env, o.store) && RegistryInv(o.reg) && AllBacked(g, o.store, o.reg) && SamePresence(reg, o.reg)
    ensures AllInForce(g, o)
  {
    BackedIsReady(g, s, reg);
    PassPutsInForce(g, s, reg, mid, items);
    ModulesDoNotShareAddresses(env, g, s, reg, mid, items);
    RecordingKeepsBacked(g, s, reg, mid);
    ApplyKeepsBacked(g, mid, reg, items, o);
    PassIntact(g, mid, reg, items, |items|);
  }

  /** The second gateway pass, after the reconciles. */
  lemma SecondPass(env: Env, g: Identity, pool: Key, s: Store, reg: Registry, mid: Store, items: seq<Detector>,
                   o: Outcome, n: uint16)
    requires StoreInv(env, s) && RegistryInv(reg) && '/' !in g.ns && AllBacked(g, s, reg)
    requires Serves(env, g, pool) && pool in env.pools
    requires IsRecorded(g, s, Expected(reg), mid) && IsListing(items, mid)
    requires o == ApplyUpTo(g, mid, reg, items, |items|)
    requires n in Expected(reg) && Ours(g, s, KeyOf(g, n))
    requires s[KeyOf(g, n)].assignedAddr.Some? && s[KeyOf(g, n)].desiredAddr == s[KeyOf(g, n)].assignedAddr
    ensures EndsApplied(env, g, pool, o.store, o.reg, n)
  {
    var k := KeyOf(g, n);
    OnePass(env, g, s, reg, mid, items, o);
    assert k in mid;
    PassKeeps(g, mid, reg, items, |items|, k);
    ModuleEndsApplied(env, g, pool, reg, s, mid, o.store, o.reg, n);
  }

  /** A module is found exactly if it answers and its id is not the poll-all id; what answers stays. */
  lemma FoundAgain(reg: Registry, reg': Registry, n: uint16)
    requires RegistryInv(reg) && RegistryInv(reg') && SamePresence(reg, reg')
    ensures n in Expected(reg) <==> n in Expected(reg')
  {
    assert n in Expected(reg) <==> Reported(reg, n).Some? && n != POLL_ALL;
    assert n in Expected(reg') <==> Reported(reg', n).Some? && n != POLL_ALL;
  }

  /** The discovered modules that are ours in `s`. */
  ghost predicate Found(g: Identity, reg: Registry, s: Store, n: uint16) {
    n in Expected(reg) && Ours(g, s, KeyOf(g, n))
  }

  ghost predicate AllEndApplied(env: Env, g: Identity, pool: Key, reg: Registry, s: Store, o: Outcome) {
    forall n :: Found(g, reg, s, n) ==> EndsApplied(env, g, pool, o.store, o.reg, n)
  }

  ghost predicate AllApart(g: Identity, reg: Registry, s: Store, o: Outcome) {
    forall m, n :: Found(g, reg, s, m) && Found(g, reg, s, n) && m != n ==> Reported(o.reg, m) != Reported(o.reg, n)
  }

  lemma AppliedAreApart(env: Env, g: Identity, pool: Key, reg: Registry, s: Store, o: Outcome)
    requires StoreInv(env, o.store) && AllEndApplied(env, g, pool, reg, s, o)
    ensures AllApart(g, reg, s, o)
  {
    forall m, n | Found(g, reg, s, m) && Found(g, reg, s, n) && m != n ensures Reported(o.reg, m) != Reported(o.reg, n) {
      EndsApart(env, g, pool, o.store, o.reg, m, n);
    }
  }

  lemma SecondPassForAll(env: Env, g: Identity, pool: Key, reg: Registry, start: Outcome,
                         s: Store, mid: Store, items: seq<Detector>, o: Outcome)
    requires RegistryInv(reg) && SamePresence(reg, start.reg)
    requires StoreInv(env, s) && RegistryInv(start.reg) && '/' !in g.ns && AllBacked(g, s, start.reg)
    requires Serves(env, g, pool) && pool in env.pools && AllAssigned(g, start.store, s)
    requires IsRecorded(g, s, Expected(start.reg), mid) && IsListing(items, mid)
    requires o == ApplyUpTo(g, mid, start.reg, items, |items|)
    ensures AllEndApplied(env, g, pool, reg, start.store, o)
  {
    forall n | Found(g, reg, start.store, n) ensures EndsApplied(env, g, pool, o.store, o.reg, n) {
      FoundAgain(reg, start.reg, n);
      SecondPass(env, g, pool, s, start.reg, mid, items, o, n);
    }
  }

  /** A discovered module's record is ours after a gateway pass, exactly unless
      another device's record had its name. */
  lemma BecomesOurs(g: Identity, s: Store, reg: Registry, mid: Store, items: seq<Detector>, o: Outcome, n: uint16)
    requires RegistryInv(reg) && n in Expected(reg) && WellKeyed(s)
    requires IsRecorded(g, s, Expected(reg), mid) && IsListing(items, mid) && o == ApplyUpTo(g, mid, reg, items, |items|)
    ensures Found(g, reg, o.store, n) <==>
              KeyOf(g, n) in s ==> s[KeyOf(g, n)].deviceRef == "" || s[KeyOf(g, n)].deviceRef == g.device
  {
    var k := KeyOf(g, n);
    assert Expected(reg)[n] == EntryOf(reg[n]);
    assert mid[k] == Upserted(g, Expected(reg)[n], Lookup(s, k));
    assert Ours(g, mid, k) <==> mid[k].deviceRef == g.device;
    PassKeeps(g, mid, reg, items, |items|, k);
  }

  /** From discovery to distinct modules.  Start from no records, or from any
      store that satisfies the allocation invariant and in which the device's
      records are the gateway's, about modules that answer.  A gateway pass, a
      pass of reconciles that gets through to each of the device's records at
      least once, in any order, with crashes, and in a large enough pool, and a
      second gateway pass all succeed; then every module discovered for the
      device is Applied at the address assigned to it, that address lies in the
      pool's range, and no two modules share one. */
  lemma DiscoveredModulesEndUpApart(env: Env, g: Identity, pool: Key, first: Store, reg: Registry,
                                    mid: Store, items: seq<Detector>, one: Outcome,
                                    steps: seq<Step>, s: Store,
                                    mid': Store, items': seq<Detector>, two: Outcome)
    requires StoreInv(env, first) && RegistryInv(reg) && '/' !in g.ns && Serves(env, g, pool) && AllBacked(g, first, reg)
    requires IsRecorded(g, first, Expected(reg), mid) && IsListing(items, mid)
    requires one == ApplyUpTo(g, mid, reg, items, |items|)
    requires LargeEnough(env, one.store, pool) && IsOurPass(env, g, one.store, steps)
    requires AllReconciled(g, one.store, steps)
    requires s == After(env, one.store, steps)
    requires IsRecorded(g, s, Expected(one.reg), mid') && IsListing(items', mid')
    requires two == ApplyUpTo(g, mid', one.reg, items', |items'|)
    ensures one.ok && two.ok && StoreInv(env, two.store)
    ensures AllEndApplied(env, g, pool, reg, one.store, two) && AllApart(g, reg, one.store, two)
  {
    OnePass(env, g, first, reg, mid, items, one);
    Between(env, g, pool, one.store, one.reg, steps, s);
    OnePass(env, g, s, one.reg, mid', items', two);
    SecondPassForAll(env, g, pool, reg, one, s, mid', items', two);
    AppliedAreApart(env, g, pool, reg, one.store, two);
  }

  // ---- discovery once, then reconciles, then an apply pass alone ----

  /** Whatever our record says was observed is what its module reports. */
  ghost predicate Accurate(g: Identity, s: Store, reg: Registry, k: Key) {
    Ours(g, s, k) && s[k].observedAddr.Some? ==> s[k].observedAddr == Reported(reg, s[k].netID)
  }

  ghost predicate AllAccurate(g: Identity, s: Store, reg: Registry) {
    forall k :: Accurate(g, s, reg, k)
  }

  /** Touches of our records keep their modules, and what they say was observed is true. */
  ghost predicate IsTruePass(env: Env, g: Identity, reg: Registry, s: Store, steps: seq<Step>)
    decreases |steps|
  {
    steps == [] || (&& Enabled(s, steps[0]) && InPass(s, steps[0]) && KeepsModule(g, s, steps[0])
                    && (steps[0].Touch? ==> Accurate(g, s[steps[0].det.key := steps[0].det], reg, steps[0].det.key))
                    && IsTruePass(env, g, reg, ApplyStep(env, s, steps[0]), steps[1..]))
  }

  lemma {:induction false} TruePassIsOurPass(env: Env, g: Identity, reg: Registry, s: Store, steps: seq<Step>)
    requires IsTruePass(env, g, reg, s, steps)
    ensures IsOurPass(env, g, s, steps)
    decreases |steps|
  {
    if steps != [] { TruePassIsOurPass(env, g, reg, ApplyStep(env, s, steps[0]), steps[1..]); }
  }

  lemma StepKeepsAccurate(env: Env, g: Identity, reg: Registry, s: Store, step: Step, k: Key)
    requires StoreInv(env, s) && Enabled(s, step) && InPass(s, step) && KeepsModule(g, s, step)
    requires step.Touch? ==> Accurate(g, s[step.det.key := step.det], reg, step.det.key)
    requires Accurate(g, s, reg, k)
    ensures Accurate(g, ApplyStep(env, s, step), reg, k)
  {
    StepKeepsOurs(env, g, s, step, k);
  }

  lemma {:induction false} PassKeepsAccurate(env: Env, g: Identity, reg: Registry, s: Store, steps: seq<Step>, k: Key)
    requires StoreInv(env, s) && IsTruePass(env, g, reg, s, steps) && Accurate(g, s, reg, k)
    ensures Accurate(g, After(env, s, steps), reg, k)
    decreases |steps|
  {
    if steps != [] {
      StepKeepsAccurate(env, g, reg, s, steps[0], k);
      StepKeepsInv(env, s, steps[0]);
      PassKeepsAccurate(env, g, reg, ApplyStep(env, s, steps[0]), steps[1..], k);
    }
  }

  /** After a discovery our records say what their modules report. */
  lemma DiscoveryIsAccurate(g: Identity, s: Store, reg: Registry, mid: Store)
    requires WellKeyed(s) && RegistryInv(reg) && '/' !in g.ns && AllBacked(g, s, reg)
    requires IsRecorded(g, s, Expected(reg), mid)
    ensures AllAccurate(g, mid, reg)
  {
    forall k ensures Accurate(g, mid, reg, k) {
      if Ours(g, mid, k) {
        RecordedRecord(g, s, reg, mid, k);
        if Ours(g, s, k) { OursIsNamed(g, s, reg, k); }
      }
    }
  }

  lemma OursIsNamed(g: Identity, s: Store, reg: Registry, k: Key)
    requires AllBacked(g, s, reg) && Ours(g, s, k)
    ensures Names(g, Expected(reg), k)
  {
    assert Backed(g, s, reg, k);
    assert s[k].netID in Expected(reg) && k == KeyOf(g, s[k].netID);
  }

  /** An apply pass alone, over records that are backed and accurate. */
  lemma ApplyAlone(g: Identity, s: Store, reg: Registry, items: seq<Detector>, o: Outcome)
    requires WellKeyed(s) && RegistryInv(reg) && IsListing(items, s)
    requires AllBacked(g, s, reg) && AllAccurate(g, s, reg) && o == ApplyUpTo(g, s, reg, items, |items|)
    ensures o.ok && AllInForce(g, o)
  {
    BackedIsReady(g, s, reg);
    PassSucceedsExactly(g, s, reg, items);
    PassIntact(g, s, reg, items, |items|);
    forall k | Ours(g, o.store, k) ensures InForce(o.store[k], o.reg) {
      PassKeeps(g, s, reg, items, |items|, k);
      assert Accurate(g, s, reg, k);
      NamedIsAlone(g, s, k);
      var i :| 0 <= i < |items| && items[i] == s[k];
      AllReached(g, s, reg, items, i);
    }
  }

  lemma AppliedAlone(env: Env, g: Identity, pool: Key, s: Store, reg: Registry, items: seq<Detector>, o: Outcome, n: uint16)
    requires StoreInv(env, s) && StoreInv(env, o.store) && RegistryInv(reg) && IsListing(items, s)
    requires Serves(env, g, pool) && pool in env.pools && AllInForce(g, o)
    requires o == ApplyUpTo(g, s, reg, items, |items|) && AllBacked(g, s, reg)
    requires Ours(g, s, KeyOf(g, n))
    requires s[KeyOf(g, n)].assignedAddr.Some? && s[KeyOf(g, n)].desiredAddr == s[KeyOf(g, n)].assignedAddr
    ensures EndsApplied(env, g, pool, o.store, o.reg, n)
  {
    var k := KeyOf(g, n);
    PassKeeps(g, s, reg, items, |items|, k);
    assert Backed(g, s, reg, k);
    DetectorNameInjective(s[k].netID, n);
    var d' := o.store[k];
    assert Ours(g, o.store, k);
    ServedPool(env, g, pool, d');
    assert Effective(d').Some?;
    assert InItsPool(env, d');
  }

  /** The gateway's usual course: it discovers once, on connecting, and later
      only applies.  From the same start, a discovery, reconciles getting through
      to each of the device's records, with true reports recorded in between,
      and one apply pass leave every module discovered for the device Applied at
      its assigned address in the pool's range, no two sharing one. */
  lemma DiscoveredOnceEndUpApart(env: Env, g: Identity, pool: Key, first: Store, reg: Registry, mid: Store,
                                 steps: seq<Step>, s: Store, items: seq<Detector>, o: Outcome)
    requires StoreInv(env, first) && RegistryInv(reg) && '/' !in g.ns && Serves(env, g, pool) && AllBacked(g, first, reg)
    requires IsRecorded(g, first, Expected(reg), mid)
    requires LargeEnough(env, mid, pool) && IsTruePass(env, g, reg, mid, steps) && AllReconciled(g, mid, steps)
    requires s == After(env, mid, steps) && IsListing(items, s)
    requires o == ApplyUpTo(g, s, reg, items, |items|)
    ensures o.ok && StoreInv(env, o.store)
    ensures AllEndApplied(env, g, pool, reg, mid, o) && AllApart(g, reg, mid, o)
  {
    ExpectedKeyed(reg);
    RecordingKeepsInv(env, g, first, Expected(reg), mid);
    RecordingKeepsBacked(g, first, reg, mid);
    DiscoveryIsAccurate(g, first, reg, mid);
    TruePassIsOurPass(env, g, reg, mid, steps);
    Between(env, g, pool, mid, reg, steps, s);
    forall k ensures Accurate(g, s, reg, k) {
      assert Accurate(g, mid, reg, k);
      PassKeepsAccurate(env, g, reg, mid, steps, k);
    }
    ApplyAlone(g, s, reg, items, o);
    Gateway.ApplyKeepsInv(env, g, s, reg, items, o);
    forall n | Found(g, reg, mid, n) ensures EndsApplied(env, g, pool, o.store, o.reg, n) {
      AppliedAlone(env, g, pool, s, reg, items, o, n);
    }
    AppliedAreApart(env, g, pool, reg, mid, o);
  }
}

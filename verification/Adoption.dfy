/** Across discovery, allocation and the apply pass: modules keep the addresses
    they have, as long as nobody disputes them. */
module Adoption {
  import opened Basics
  import opened PoolConfig
  import opened PoolSpec
  import opened Detectors
  import opened Allocation
  import opened DetectorProtocol
  import opened Liveness
  import opened Wire
  import opened SimRegistry
  import opened Discovery
  import opened Gateway
  import opened EndToEnd

  // ---- one module ----

  /** A module found for the first time, whose reported address lies in its
      pool's range and is held by nobody else there, is given that very address
      by the next reconcile of its record; a reconcile that makes both writes
      records it as assigned. */
  lemma NextReconcileAdopts(env: Env, g: Identity, pool: Key, first: Store, reg: Registry, mid: Store, n: uint16,
                            s: Store, items: seq<Detector>, mode: Mode)
    requires RegistryInv(reg) && IsRecorded(g, first, Expected(reg), mid) && n in Expected(reg) && KeyOf(g, n) !in first
    requires StoreInv(env, s) && IsListing(items, s) && KeyOf(g, n) in s && s[KeyOf(g, n)] == mid[KeyOf(g, n)]
    requires Serves(env, g, pool) && pool in env.pools && ValidConfig(env.pools[pool])
    requires env.pools[pool].start <= reg[n].moduleAddr <= env.pools[pool].end
    requires FreeFor(env, s, KeyOf(g, n), reg[n].moduleAddr)
    ensures var s' := Reconciled(env, s, KeyOf(g, n), items, mode);
            && KeyOf(g, n) in s' && s'[KeyOf(g, n)].desiredAddr == Some(reg[n].moduleAddr)
            && (mode != Cut ==> s'[KeyOf(g, n)].assignedAddr == Some(reg[n].moduleAddr))
  {
    var k := KeyOf(g, n);
    DiscoveredRecord(g, first, reg, mid, n);
    ServedPool(env, g, pool, s[k]);
    FreeIsAdopted(env, s, pool, k, items, reg[n].moduleAddr);
    AdoptedRecord(env, s, k, items, mode, reg[n].moduleAddr);
  }

  /** A record without an address that may adopt the free one its module reports is given it. */
  lemma FreeIsAdopted(env: Env, s: Store, pool: Key, k: Key, items: seq<Detector>, a: uint16)
    requires StoreInv(env, s) && IsListing(items, s) && k in s && PoolOf(env, s[k]) == Some(pool)
    requires pool in env.pools && ValidConfig(env.pools[pool])
    requires s[k].assignedAddr.None? && s[k].desiredAddr.None?
    requires s[k].adopt != Some(false) && s[k].observedAddr == Some(a)
    requires env.pools[pool].start <= a <= env.pools[pool].end && FreeFor(env, s, k, a)
    ensures NewAddress(env, items, s[k]) == Some(a)
  {
    var c, ds := env.pools[pool], PoolDetectors(env, items, pool);
    FreshListing(env, s, items, pool);
    FreshShowsItself(env, s, k, items);
    NotTaken(env, s, pool, k, ds, a);
    NewAddressExactly(env, s, k, items, a);
  }

  lemma NotTaken(env: Env, s: Store, pool: Key, k: Key, ds: seq<Detector>, a: uint16)
    requires WellKeyed(s) && k in s && PoolOf(env, s[k]) == Some(pool) && Effective(s[k]).None? && FreeFor(env, s, k, a)
    requires forall d :: d in ds ==> d.key in s && s[d.key] == d && PoolOf(env, d) == Some(pool)
    ensures a !in Taken(ds)
  {
    forall i | 0 <= i < |ds| ensures Effective(ds[i]) != Some(a) { assert ds[i] in ds; }
  }

  lemma AdoptedRecord(env: Env, s: Store, k: Key, items: seq<Detector>, mode: Mode, a: uint16)
    requires StoreInv(env, s) && IsListing(items, s) && k in s && Effective(s[k]).None?
    requires NewAddress(env, items, s[k]) == Some(a)
    ensures var s' := Reconciled(env, s, k, items, mode);
            && k in s' && s'[k].desiredAddr == Some(a) && (mode != Cut ==> s'[k].assignedAddr == Some(a))
  {
    FreshShowsItself(env, s, k, items);
    TargetOnListing(env, s, k, items);
    WrittenRecord(s, k, Target(env, items, s[k]), mode);
  }

  // ---- a pool without disputes ----

  /** The address a record stands for: assigned, else desired, else the reported one unless it refuses adoption. */
  function Wish(d: Detector): Option<uint16> {
    if d.assignedAddr.Some? then d.assignedAddr
    else if d.desiredAddr.Some? then d.desiredAddr
    else if d.adopt == Some(false) then None
    else d.observedAddr
  }

  /** Every member of the pool stands for an address in its range, no two for the same. */
  ghost predicate Harmonious(env: Env, s: Store, pool: Key) {
    && pool in env.pools && ValidConfig(env.pools[pool])
    && (forall k :: k in Members(env, s, pool) ==> Wish(s[k]).Some? && InRange(env.pools[pool], Wish(s[k]).value))
    && (forall j, k :: j in Members(env, s, pool) && k in Members(env, s, pool) && j != k ==> Wish(s[j]) != Wish(s[k]))
  }

  /** A touch of a member of the pool leaves what it stands for. */
  ghost predicate KeepsWish(env: Env, s: Store, pool: Key, step: Step) {
    step.Touch? && step.det.key in Members(env, s, pool) ==> Wish(step.det) == Wish(s[step.det.key])
  }

  ghost predicate IsWishPass(env: Env, s: Store, pool: Key, steps: seq<Step>)
    decreases |steps|
  {
    steps == [] || (&& Enabled(s, steps[0]) && InPass(s, steps[0]) && KeepsWish(env, s, pool, steps[0])
                    && IsWishPass(env, ApplyStep(env, s, steps[0]), pool, steps[1..]))
  }

  /** The gateway's recording of a report that is no news keeps what its record stands for. */
  lemma UpsertKeepsWish(env: Env, g: Identity, s: Store, pool: Key, e: Discovered)
    requires KeyOf(g, e.netID) in s && s[KeyOf(g, e.netID)].key == KeyOf(g, e.netID)
    requires s[KeyOf(g, e.netID)].observedAddr == Some(e.addr)
    ensures KeepsWish(env, s, pool, UpsertStep(g, e, s))
  {}

  /** In a pool without disputes a reconcile gives a member what it stands for. */
  lemma WishGranted(env: Env, s: Store, pool: Key, k: Key, items: seq<Detector>, mode: Mode)
    requires StoreInv(env, s) && IsListing(items, s) && Harmonious(env, s, pool) && k in Members(env, s, pool)
    ensures var s' := Reconciled(env, s, k, items, mode);
            && k in s' && s' == s[k := s'[k]] && SameDetector(s[k], s'[k])
            && Effective(s'[k]) == Wish(s'[k]) == Wish(s[k])
  {
    FreshShowsItself(env, s, k, items);
    ReconciledRecord(env, s, k, items, mode);
    if Effective(s[k]).None? {
      forall j | j in s && j != k && PoolOf(env, s[j]) == PoolOf(env, s[k]) ensures Effective(s[j]) != Wish(s[k]) {
        assert j in Members(env, s, pool);
      }
      FreeIsAdopted(env, s, pool, k, items, Wish(s[k]).value);
    }
  }

  lemma StepKeepsWish(env: Env, s: Store, pool: Key, step: Step, k: Key)
    requires StoreInv(env, s) && Harmonious(env, s, pool) && k in Members(env, s, pool)
    requires Enabled(s, step) && InPass(s, step) && KeepsWish(env, s, pool, step)
    ensures var s' := ApplyStep(env, s, step);
            && k in s' && Wish(s'[k]) == Wish(s[k])
            && (Effective(s[k]).Some? || (step.Reconcile? && step.key == k) ==> Effective(s'[k]) == Wish(s[k]))
  {
    PassStepRecords(env, s, step);
    if step.Reconcile? && step.key == k { WishGranted(env, s, pool, k, step.items, step.mode); }
    if Effective(s[k]).Some? { StepIsSticky(env, s, step, k, Effective(s[k]).value); }
  }

  lemma StepKeepsHarmony(env: Env, s: Store, pool: Key, step: Step)
    requires StoreInv(env, s) && Harmonious(env, s, pool)
    requires Enabled(s, step) && InPass(s, step) && KeepsWish(env, s, pool, step)
    ensures Harmonious(env, ApplyStep(env, s, step), pool)
  {
    var s' := ApplyStep(env, s, step);
    PassStepKeepsMembers(env, s, pool, step);
    forall k | k in Members(env, s, pool) ensures k in s' && Wish(s'[k]) == Wish(s[k]) {
      StepKeepsWish(env, s, pool, step, k);
    }
  }

  /** Every member of a pool without disputes ends up, once a reconcile reached
      it, at the address it stood for. */
  lemma {:induction false} WishesHold(env: Env, s: Store, pool: Key, steps: seq<Step>, k: Key)
    requires StoreInv(env, s) && Harmonious(env, s, pool) && IsWishPass(env, s, pool, steps) && k in Members(env, s, pool)
    ensures var s' := After(env, s, steps);
            && k in s' && Wish(s'[k]) == Wish(s[k])
            && (Effective(s[k]).Some? || Reached(steps, k) ==> Effective(s'[k]) == Wish(s[k]))
    decreases |steps|
  {
    if steps != [] {
      StepKeepsWish(env, s, pool, steps[0], k);
      StepKeepsHarmony(env, s, pool, steps[0]);
      StepKeepsInv(env, s, steps[0]);
      PassStepKeepsMembers(env, s, pool, steps[0]);
      FirstAndRest(steps, k);
      WishesHold(env, ApplyStep(env, s, steps[0]), pool, steps[1..], k);
    } else {
      assert !Reached(steps, k);
    }
  }

  // ---- all the way ----

  /** Nobody disputes what the modules report: all members of the pool already
      hold addresses, discovery takes over no stray record, and the modules new
      to it report different addresses in range that no member holds. */
  ghost predicate Undisputed(env: Env, g: Identity, pool: Key, s: Store, reg: Registry) {
    && pool in env.pools && ValidConfig(env.pools[pool])
    && (forall k :: k in Members(env, s, pool) ==> Effective(s[k]).Some?)
    && (forall n :: n in Expected(reg) && KeyOf(g, n) in s ==> s[KeyOf(g, n)].deviceRef != "")
    && (forall n :: New(g, s, reg, n) ==>
          && InRange(env.pools[pool], reg[n].moduleAddr)
          && forall k :: k in Members(env, s, pool) ==> Effective(s[k]) != Some(reg[n].moduleAddr))
    && (forall m, n :: New(g, s, reg, m) && New(g, s, reg, n) && m != n ==> reg[m].moduleAddr != reg[n].moduleAddr)
  }

  /** A module found that has no record yet. */
  ghost predicate New(g: Identity, s: Store, reg: Registry, n: uint16) {
    n in Expected(reg) && n in reg && KeyOf(g, n) !in s
  }

  /** What a member of the pool stands for after the discovery: what it held, or what its new module reports. */
  lemma MemberAfterDiscovery(env: Env, g: Identity, pool: Key, s: Store, reg: Registry, mid: Store, k: Key)
    requires StoreInv(env, s) && RegistryInv(reg) && '/' !in g.ns && Undisputed(env, g, pool, s, reg)
    requires IsRecorded(g, s, Expected(reg), mid) && k in Members(env, mid, pool)
    ensures k in s ==> k in Members(env, s, pool) && Wish(mid[k]) == Effective(s[k]) && Effective(s[k]).Some?
    ensures k !in s ==>
              && New(g, s, reg, mid[k].netID) && k == KeyOf(g, mid[k].netID)
              && Wish(mid[k]) == Some(reg[mid[k].netID].moduleAddr)
  {
    RecordedRecord(g, s, reg, mid, k);
    if Names(g, Expected(reg), k) { FoundMember(env, g, s, reg, mid, mid[k].netID); }
  }

  /** What the record of a module found stands for. */
  lemma FoundMember(env: Env, g: Identity, s: Store, reg: Registry, mid: Store, n: uint16)
    requires StoreInv(env, s) && RegistryInv(reg) && IsRecorded(g, s, Expected(reg), mid) && n in Expected(reg)
    requires KeyOf(g, n) in s ==> s[KeyOf(g, n)].deviceRef != ""
    ensures n in reg && KeyOf(g, n) in mid
    ensures var k := KeyOf(g, n);
            if k in s then PoolOf(env, mid[k]) == PoolOf(env, s[k]) && (Effective(s[k]).Some? ==> Wish(mid[k]) == Effective(s[k]))
            else Wish(mid[k]) == Some(reg[n].moduleAddr)
  {
    var k := KeyOf(g, n);
    DiscoveredRecord(g, s, reg, mid, n);
    if k in s { SamePool(env, s[k], mid[k]); }
  }

  lemma SamePool(env: Env, d: Detector, d': Detector)
    requires d'.key == d.key && d'.deviceRef == d.deviceRef
    ensures PoolOf(env, d') == PoolOf(env, d)
  {}

  lemma DiscoveryIsHarmonious(env: Env, g: Identity, pool: Key, s: Store, reg: Registry, mid: Store)
    requires StoreInv(env, s) && RegistryInv(reg) && '/' !in g.ns && Undisputed(env, g, pool, s, reg)
    requires IsRecorded(g, s, Expected(reg), mid)
    ensures Harmonious(env, mid, pool)
  {
    forall k | k in Members(env, mid, pool)
      ensures Wish(mid[k]).Some? && InRange(env.pools[pool], Wish(mid[k]).value)
    {
      MemberAfterDiscovery(env, g, pool, s, reg, mid, k);
      if k in s { assert InItsPool(env, s[k]); }
    }
    forall j, k | j in Members(env, mid, pool) && k in Members(env, mid, pool) && j != k
      ensures Wish(mid[j]) != Wish(mid[k])
    {
      MemberAfterDiscovery(env, g, pool, s, reg, mid, j);
      MemberAfterDiscovery(env, g, pool, s, reg, mid, k);
      if j in s && k in s { assert !Clash(env, s[j], s[k]); }
    }
  }

  /** Modules keep their addresses.  In the gateway's usual course - a discovery,
      reconciles that reach every record of its device, with records touched in
      between as long as they stay true and stand for the same address, and one
      apply pass - every module new to it whose address nobody disputes ends
      Applied, in agreement with its record, at the very address it reported. */
  lemma {:induction false} ModulesKeepTheirAddresses(env: Env, g: Identity, pool: Key, first: Store, reg: Registry,
                                                     mid: Store, steps: seq<Step>, s: Store, items: seq<Detector>,
                                                     o: Outcome, n: uint16)
    requires StoreInv(env, first) && RegistryInv(reg) && '/' !in g.ns && Serves(env, g, pool) && AllBacked(g, first, reg)
    requires Undisputed(env, g, pool, first, reg) && IsRecorded(g, first, Expected(reg), mid)
    requires LargeEnough(env, mid, pool) && AllReconciled(g, mid, steps)
    requires IsTruePass(env, g, reg, mid, steps) && IsWishPass(env, mid, pool, steps)
    requires s == After(env, mid, steps) && IsListing(items, s) && o == ApplyUpTo(g, s, reg, items, |items|)
    requires New(g, first, reg, n)
    ensures o.ok && EndsApplied(env, g, pool, o.store, o.reg, n)
    ensures Reported(o.reg, n) == Reported(reg, n) == Some(reg[n].moduleAddr)
  {
    var k := KeyOf(g, n);
    DiscoveredOnceEndUpApart(env, g, pool, first, reg, mid, steps, s, items, o);
    NewIsFound(env, g, pool, first, reg, mid, n);
    assert Found(g, reg, mid, n);
    WishKept(env, g, pool, first, reg, mid, steps, s, k);
    KeptThroughApply(env, g, s, reg, items, o, k);
  }

  lemma NewIsFound(env: Env, g: Identity, pool: Key, first: Store, reg: Registry, mid: Store, n: uint16)
    requires RegistryInv(reg) && Serves(env, g, pool) && IsRecorded(g, first, Expected(reg), mid) && New(g, first, reg, n)
    ensures Found(g, reg, mid, n) && KeyOf(g, n) in Members(env, mid, pool)
    ensures Wish(mid[KeyOf(g, n)]) == Reported(reg, n) == Some(reg[n].moduleAddr)
  {
    DiscoveredRecord(g, first, reg, mid, n);
    ServedPool(env, g, pool, mid[KeyOf(g, n)]);
  }

  lemma WishKept(env: Env, g: Identity, pool: Key, first: Store, reg: Registry, mid: Store,
                 steps: seq<Step>, s: Store, k: Key)
    requires StoreInv(env, first) && RegistryInv(reg) && '/' !in g.ns
    requires Undisputed(env, g, pool, first, reg) && IsRecorded(g, first, Expected(reg), mid)
    requires IsWishPass(env, mid, pool, steps) && s == After(env, mid, steps)
    requires k in Members(env, mid, pool) && Credits(steps, k) > 0
    ensures k in s && Effective(s[k]) == Wish(mid[k])
  {
    ExpectedKeyed(reg);
    RecordingKeepsInv(env, g, first, Expected(reg), mid);
    DiscoveryIsHarmonious(env, g, pool, first, reg, mid);
    CreditIsReached(steps, k);
    WishesHold(env, mid, pool, steps, k);
  }

  lemma {:induction false} CreditIsReached(steps: seq<Step>, k: Key)
    requires Credits(steps, k) > 0
    ensures Reached(steps, k)
  {
    if Credit(steps[0], k) > 0 {
      assert steps[0].Reconcile? && steps[0].key == k;
    } else {
      CreditIsReached(steps[1..], k);
      FirstAndRest(steps, k);
    }
  }

  lemma KeptThroughApply(env: Env, g: Identity, s: Store, reg: Registry, items: seq<Detector>, o: Outcome, k: Key)
    requires RegistryInv(reg) && IsListing(items, s) && o == ApplyUpTo(g, s, reg, items, |items|) && k in s
    ensures k in o.store && o.store[k].assignedAddr == s[k].assignedAddr && o.store[k].desiredAddr == s[k].desiredAddr
  {
    PassKeeps(g, s, reg, items, |items|, k);
  }
}

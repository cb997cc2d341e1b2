/** What the allocation protocol has to be kept from, exactly: addresses preset by
    others than the controller, and listings that leave out what is held. */
module Hazards {
  import opened Basics
  import opened PoolConfig
  import opened PoolSpec
  import opened Detectors
  import opened Allocation
  import opened DetectorProtocol

  // ---- why addresses are the controller's to write ----

  /** A record created with a desired address of its own keeps the invariant
      exactly if that address lies in its pool and nobody there holds it; if its
      pool exists and it does not, then no detector of the pool is allocated
      anything any more, whatever the order of the listing. */
  lemma PresetAddressExact(env: Env, s: Store, d: Detector)
    requires StoreInv(env, s) && d.key !in s && '/' !in d.key.ns && d.assignedAddr.None?
    ensures StoreInv(env, s[d.key := d]) <==>
              d.desiredAddr.Some? ==> InItsPool(env, d) && forall k :: k in s ==> !Clash(env, d, s[k])
    ensures var pool := PoolOf(env, d);
            !StoreInv(env, s[d.key := d]) && pool.Some? && pool.value in env.pools ==>
              forall items, e :: IsListing(items, s[d.key := d]) ==>
                Decide(env.pools[pool.value], PoolDetectors(env, items, pool.value), e).phase == Failed
  {
    var s', pool := s[d.key := d], PoolOf(env, d);
    if !StoreInv(env, s') && pool.Some? && pool.value in env.pools {
      forall items, e | IsListing(items, s')
        ensures Decide(env.pools[pool.value], PoolDetectors(env, items, pool.value), e).phase == Failed
      {
        PresetSpoilsPool(env, s, d, pool.value);
        SpoiltPoolServesNobody(env, s', pool.value, items, e);
      }
    }
  }

  lemma PresetSpoilsPool(env: Env, s: Store, d: Detector, pool: Key)
    requires StoreInv(env, s) && d.key !in s && '/' !in d.key.ns && d.assignedAddr.None?
    requires PoolOf(env, d) == Some(pool) && pool in env.pools
    requires !(d.desiredAddr.Some? ==> InItsPool(env, d) && forall k :: k in s ==> !Clash(env, d, s[k]))
    ensures ValidConfig(env.pools[pool]) ==> !PoolConsistent(env, s[d.key := d], pool)
  {
    var s' := s[d.key := d];
    if InItsPool(env, d) {
      var k :| k in s && Clash(env, d, s[k]);
      assert s'[d.key] == d && Clash(env, s'[d.key], s'[k]);
    } else {
      assert s'[d.key] == d;
    }
  }

  /** One address out of range, or held twice, in a pool's records fails every
      decision of that pool, for every detector. */
  lemma SpoiltPoolServesNobody(env: Env, s: Store, pool: Key, items: seq<Detector>, e: Detector)
    requires WellKeyed(s) && IsListing(items, s) && pool in env.pools
    requires ValidConfig(env.pools[pool]) ==> !PoolConsistent(env, s, pool)
    ensures Decide(env.pools[pool], PoolDetectors(env, items, pool), e).phase == Failed
  {
    var c, ds := env.pools[pool], PoolDetectors(env, items, pool);
    AcceptsExactlyValid(c);
    if ValidConfig(c) {
      ListingShows(env, s, items, pool);
      ListingConsistent(env, s, ds, pool);
      AssignedValid(c, ds);
      RebuildExact(c, Assigned(ds));
    }
  }

  // ---- how stale a listing may be ----

  /** Two reconciles working from one listing, fresh for the first: the
      invariant is lost exactly if the two draw on one pool and one address is
      due to both. */
  lemma SharedListingExact(env: Env, s: Store, j: Key, k: Key, items: seq<Detector>, first: Mode, second: Mode)
    requires StoreInv(env, s) && IsListing(items, s) && j in s && k in s && j != k
    ensures var s1 := Reconciled(env, s, j, items, first);
            StoreInv(env, Reconciled(env, s1, k, items, second)) <==>
              !(PoolOf(env, s[j]) == PoolOf(env, s[k]) && exists a: uint16 :: Due(env, items, s[j], a) && Due(env, items, s[k], a))
  {
    SharedListingGives(env, s, j, k, items, first, second);
    FreshShowsItself(env, s, j, items);
    FreshShowsItself(env, s, k, items);
    forall a: uint16
      ensures NewAddress(env, items, s[j]) == Some(a) <==> Due(env, items, s[j], a)
      ensures NewAddress(env, items, s[k]) == Some(a) <==> Due(env, items, s[k], a)
    {
      NewAddressExactly(env, s, j, items, a);
      NewAddressExactly(env, s, k, items, a);
    }
  }

  lemma SharedListingGives(env: Env, s: Store, j: Key, k: Key, items: seq<Detector>, first: Mode, second: Mode)
    requires StoreInv(env, s) && IsListing(items, s) && j in s && k in s && j != k
    ensures var s1 := Reconciled(env, s, j, items, first);
            var a, b := NewAddress(env, items, s[j]), NewAddress(env, items, s[k]);
            StoreInv(env, Reconciled(env, s1, k, items, second)) <==>
              !(PoolOf(env, s[j]) == PoolOf(env, s[k]) && a.Some? && a == b)
  {
    var s1 := FirstOfTwo(env, s, j, items, first);
    NewIsFree(env, s, k, items);
    SecondOfTwo(env, s, j, k, items, s1, second);
  }

  lemma SecondOfTwo(env: Env, s: Store, j: Key, k: Key, items: seq<Detector>, s1: Store, mode: Mode)
    requires StoreInv(env, s1) && ShowsItself(items, s, k) && j in s && j != k && j in s1 && s1 == s[j := s1[j]]
    requires PoolOf(env, s1[j]) == PoolOf(env, s[j])
    requires Effective(s1[j]) == if Effective(s[j]).Some? then Effective(s[j]) else NewAddress(env, items, s[j])
    requires var b := NewAddress(env, items, s[k]); b.Some? ==> FreeFor(env, s, k, b.value)
    ensures var a, b := NewAddress(env, items, s[j]), NewAddress(env, items, s[k]);
            StoreInv(env, Reconciled(env, s1, k, items, mode)) <==>
              !(PoolOf(env, s[j]) == PoolOf(env, s[k]) && a.Some? && a == b)
  {
    var b := NewAddress(env, items, s[k]);
    assert s1[k] == s[k];
    SafeIfGivenIsFree(env, s1, k, items, mode);
    if b.Some? {
      OneMoreHolder(env, s, j, k, s1, b.value);
      assert Effective(s[j]).Some? && PoolOf(env, s[j]) == PoolOf(env, s[k]) ==> Effective(s[j]) != b;
    }
  }

  /** Where the first of the two leaves the store. */
  lemma FirstOfTwo(env: Env, s: Store, j: Key, items: seq<Detector>, mode: Mode) returns (s1: Store)
    requires StoreInv(env, s) && IsListing(items, s) && j in s
    ensures s1 == Reconciled(env, s, j, items, mode) && StoreInv(env, s1)
    ensures j in s1 && s1 == s[j := s1[j]] && PoolOf(env, s1[j]) == PoolOf(env, s[j])
    ensures Effective(s1[j]) == if Effective(s[j]).Some? then Effective(s[j]) else NewAddress(env, items, s[j])
  {
    s1 := Reconciled(env, s, j, items, mode);
    FreshShowsItself(env, s, j, items);
    ReconciledRecord(env, s, j, items, mode);
    CoveringListingIsSafe(env, s, j, items, mode);
  }

  /** On a fresh listing what is newly given is free. */
  lemma NewIsFree(env: Env, s: Store, k: Key, items: seq<Detector>)
    requires StoreInv(env, s) && IsListing(items, s) && k in s
    ensures ShowsItself(items, s, k)
    ensures NewAddress(env, items, s[k]).Some? ==> FreeFor(env, s, k, NewAddress(env, items, s[k]).value)
  {
    FreshShowsItself(env, s, k, items);
    TargetOnListing(env, s, k, items);
    if NewAddress(env, items, s[k]).Some? { CoveredAreFree(env, s, k, items); }
  }

  /** What is free once one more record may hold an address. */
  lemma OneMoreHolder(env: Env, s: Store, j: Key, k: Key, s1: Store, a: uint16)
    requires j in s && k in s && j != k && j in s1 && s1 == s[j := s1[j]]
    requires PoolOf(env, s1[j]) == PoolOf(env, s[j]) && FreeFor(env, s, k, a)
    ensures FreeFor(env, s1, k, a) <==> PoolOf(env, s[j]) != PoolOf(env, s[k]) || Effective(s1[j]) != Some(a)
  {}

  /** An address missing from the listing is enough: a detector whose module
      reports it adopts it, and clashes with its holder. */
  lemma UncoveredAddressClashes(env: Env, s: Store, j: Key, k: Key, items: seq<Detector>, mode: Mode, pool: Key)
    requires StoreInv(env, s) && ShowsItself(items, s, k) && j in s && j != k
    requires PoolOf(env, s[j]) == PoolOf(env, s[k]) == Some(pool) && pool in env.pools
    requires Consistent(env.pools[pool], PoolDetectors(env, items, pool))
    requires Effective(s[j]).Some? && Effective(s[j]).value !in Taken(PoolDetectors(env, items, pool))
    requires Effective(s[k]).None? && AdoptObservedEnabled(s[k]) && s[k].observedAddr == Effective(s[j])
    ensures !StoreInv(env, Reconciled(env, s, k, items, mode))
  {
    assert InItsPool(env, s[j]);
    var c, ds := env.pools[pool], PoolDetectors(env, items, pool);
    ListingOfPool(env, items, pool);
    OnlyOneOfAKey(ds, s[k]);
    DecisionCharacterised(c, ds, s[k]);
    SafeIfGivenIsFree(env, s, k, items, mode);
  }

  /** Two detectors of a pool without addresses, neither able to adopt one, are
      reconciled one after the other from one listing: both get the same
      address, and the invariant is gone. */
  lemma StaleListingClashes(env: Env, s: Store, j: Key, k: Key, items: seq<Detector>, pool: Key)
    requires StoreInv(env, s) && IsListing(items, s) && j in s && k in s && j != k
    requires PoolOf(env, s[j]) == PoolOf(env, s[k]) == Some(pool)
    requires pool in env.pools && ValidConfig(env.pools[pool])
    requires Effective(s[j]).None? && Effective(s[k]).None?
    requires s[j].observedAddr.None? && s[k].observedAddr.None?
    requires exists a :: Choosable(env.pools[pool], PoolDetectors(env, items, pool), a)
    ensures !StoreInv(env, Reconciled(env, Reconciled(env, s, j, items, Whole), k, items, Whole))
  {
    FreshListing(env, s, items, pool);
    var a := LeastChoosable(env.pools[pool], PoolDetectors(env, items, pool));
    assert Due(env, items, s[j], a) && Due(env, items, s[k], a);
    SharedListingExact(env, s, j, k, items, Whole, Whole);
  }

  lemma LeastChoosable(c: Config, ds: seq<Detector>) returns (a: uint16)
    requires exists x :: Choosable(c, ds, x)
    ensures IsLeastChoosable(c, ds, a)
  {
    var x: uint16 :| Choosable(c, ds, x);
    a := LeastChoosableUpTo(c, ds, x);
  }

  lemma {:induction false} LeastChoosableUpTo(c: Config, ds: seq<Detector>, x: uint16) returns (a: uint16)
    requires Choosable(c, ds, x)
    ensures IsLeastChoosable(c, ds, a)
    decreases x
  {
    if y: uint16 :| y < x && Choosable(c, ds, y) { a := LeastChoosableUpTo(c, ds, y); } else { a := x; }
  }
}

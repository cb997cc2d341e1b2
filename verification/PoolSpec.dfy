/** The abstract pool: two maps kept in step, and what each operation of
    packages/canpool/pool.go does to them.  The class in CanPool is proved to
    perform exactly these transitions; everything said about pools over whole
    runs is proved here. */
module PoolSpec {
  import opened Basics
  import opened PoolConfig

  datatype PoolError =
    | OwnerRequired
    | AddressRequired(owner: string)
    | AddressOutOfRange
    | AddressInUse(other: string)
    | OwnerAlreadyAssigned(existing: uint16)
    | NoAddressAvailable
    | OwnerNotFound

  datatype Assignment = Assignment(owner: string, addr: uint16, netID: uint16)

  datatype PoolState = PoolState(cfg: Config, ownerByAddr: map<uint16, string>, addrByOwner: map<string, uint16>)

  predicate InRange(c: Config, a: uint16) {
    c.start <= a <= c.end
  }

  /** The representation invariant: the two maps are mutual inverses within the range. */
  ghost predicate Inv(p: PoolState) {
    && ValidConfig(p.cfg)
    && (forall a :: a in p.ownerByAddr ==>
          && InRange(p.cfg, a) && p.ownerByAddr[a] != ""
          && p.ownerByAddr[a] in p.addrByOwner && p.addrByOwner[p.ownerByAddr[a]] == a)
    && (forall o :: o in p.addrByOwner ==>
          p.addrByOwner[o] in p.ownerByAddr && p.ownerByAddr[p.addrByOwner[o]] == o)
  }

  predicate IsAvailable(p: PoolState, a: uint16) {
    InRange(p.cfg, a) && a !in p.ownerByAddr
  }

  predicate IsAutoAllocatable(p: PoolState, a: uint16) {
    IsAvailable(p, a) && a !in ReservedSet(p.cfg)
  }

  /** The least auto-allocatable address not below `a`. */
  function FirstFree(p: PoolState, a: uint16): (r: Option<uint16>)
    requires p.cfg.end <= MAX_MODULE_ADDRESS
    ensures r.Some? ==> a <= r.value && IsAutoAllocatable(p, r.value)
                        && forall b :: a <= b < r.value ==> !IsAutoAllocatable(p, b)
    ensures r.None? ==> forall b :: a <= b ==> !IsAutoAllocatable(p, b)
    decreases 0x1_0000 - a
  {
    if a > p.cfg.end then None
    else if IsAutoAllocatable(p, a) then Some(a)
    else FirstFree(p, Inc16(a))
  }

  /** The addresses Allocate may choose, ascending, from `a` on. */
  function AvailableFrom(p: PoolState, a: uint16): (s: seq<uint16>)
    requires p.cfg.end <= MAX_MODULE_ADDRESS
    decreases 0x1_0000 - a
  {
    if a > p.cfg.end then []
    else if IsAutoAllocatable(p, a) then [a] + AvailableFrom(p, Inc16(a))
    else AvailableFrom(p, Inc16(a))
  }

  // ---- transitions ----

  function Empty(c: Config): PoolState {
    PoolState(c, map[], map[])
  }

  function Bind(p: PoolState, owner: string, a: uint16): PoolState {
    p.(ownerByAddr := p.ownerByAddr[a := owner], addrByOwner := p.addrByOwner[owner := a])
  }

  function Allocate(p: PoolState, owner: string): (PoolState, Result<uint16, PoolError>)
    requires p.cfg.end <= MAX_MODULE_ADDRESS
  {
    if owner == "" then (p, Err(OwnerRequired))
    else if owner in p.addrByOwner then (p, Ok(p.addrByOwner[owner]))
    else
      match FirstFree(p, p.cfg.start)
      case Some(a) => (Bind(p, owner, a), Ok(a))
      case None => (p, Err(NoAddressAvailable))
  }

  function ClaimError(p: PoolState, owner: string, a: uint16): Option<PoolError> {
    if owner == "" then Some(OwnerRequired)
    else if a == 0 then Some(AddressRequired(owner))
    else if !InRange(p.cfg, a) then Some(AddressOutOfRange)
    else if owner in p.addrByOwner then
      (if p.addrByOwner[owner] == a then None else Some(OwnerAlreadyAssigned(p.addrByOwner[owner])))
    else if a in p.ownerByAddr then Some(AddressInUse(p.ownerByAddr[a]))
    else None
  }

  function Claim(p: PoolState, owner: string, a: uint16): PoolState {
    if ClaimError(p, owner, a).Some? || owner in p.addrByOwner then p else Bind(p, owner, a)
  }

  function ReleaseError(p: PoolState, owner: string): Option<PoolError> {
    if owner == "" then Some(OwnerRequired)
    else if owner !in p.addrByOwner then Some(OwnerNotFound)
    else None
  }

  function Release(p: PoolState, owner: string): PoolState {
    if ReleaseError(p, owner).Some? then p
    else p.(addrByOwner := p.addrByOwner - {owner}, ownerByAddr := p.ownerByAddr - {p.addrByOwner[owner]})
  }

  function ReleaseAddressError(p: PoolState, a: uint16): Option<PoolError> {
    if a !in p.ownerByAddr then Some(OwnerNotFound) else ReleaseError(p, p.ownerByAddr[a])
  }

  function ReleaseAddress(p: PoolState, a: uint16): PoolState {
    if a !in p.ownerByAddr then p else Release(p, p.ownerByAddr[a])
  }

  /** Why one more assignment cannot be loaded into `p`. */
  function LoadError(p: PoolState, x: Assignment): Option<PoolError> {
    if x.owner == "" then Some(OwnerRequired)
    else if x.addr == 0 then Some(AddressRequired(x.owner))
    else if !InRange(p.cfg, x.addr) then Some(AddressOutOfRange)
    else if x.addr in p.ownerByAddr then Some(AddressInUse(p.ownerByAddr[x.addr]))
    else if x.owner in p.addrByOwner then Some(OwnerAlreadyAssigned(p.addrByOwner[x.owner]))
    else None
  }

  /** Loading goes on until an assignment is refused. */
  function LoadOne(r: (PoolState, Option<PoolError>), x: Assignment): (PoolState, Option<PoolError>) {
    if r.1.Some? then r
    else if LoadError(r.0, x).Some? then (r.0, LoadError(r.0, x))
    else (Bind(r.0, x.owner, x.addr), None)
  }

  /** Loading a list into an empty pool, stopping at the first assignment refused. */
  function Rebuild(c: Config, xs: seq<Assignment>): (r: (PoolState, Option<PoolError>))
    ensures r.0.cfg == c
  {
    if xs == [] then (Empty(c), None) else LoadOne(Rebuild(c, xs[..|xs| - 1]), xs[|xs| - 1])
  }

  // ---- every run of operations ----

  datatype Op =
    | DoRebuild(xs: seq<Assignment>)
    | DoAllocate(owner: string)
    | DoClaim(owner: string, addr: uint16)
    | DoRelease(owner: string)
    | DoReleaseAddress(addr: uint16)

  function Apply(p: PoolState, op: Op): (q: PoolState)
    requires p.cfg.end <= MAX_MODULE_ADDRESS
    ensures q.cfg == p.cfg
  {
    match op
    case DoRebuild(xs) => Rebuild(p.cfg, xs).0
    case DoAllocate(owner) => Allocate(p, owner).0
    case DoClaim(owner, a) => Claim(p, owner, a)
    case DoRelease(owner) => Release(p, owner)
    case DoReleaseAddress(a) => ReleaseAddress(p, a)
  }

  function Run(c: Config, ops: seq<Op>): (p: PoolState)
    requires c.end <= MAX_MODULE_ADDRESS
    ensures p.cfg == c
  {
    if ops == [] then Empty(c) else Apply(Run(c, ops[..|ops| - 1]), ops[|ops| - 1])
  }

  lemma BindKeepsInv(p: PoolState, owner: string, a: uint16)
    requires Inv(p) && owner != "" && owner !in p.addrByOwner && IsAvailable(p, a)
    ensures Inv(Bind(p, owner, a))
  {}

  lemma ReleaseKeepsInv(p: PoolState, owner: string)
    requires Inv(p)
    ensures Inv(Release(p, owner))
  {}

  lemma {:induction false} RebuildKeepsInv(c: Config, xs: seq<Assignment>)
    requires ValidConfig(c)
    ensures Inv(Rebuild(c, xs).0)
  {
    if xs != [] {
      RebuildKeepsInv(c, xs[..|xs| - 1]);
    }
  }

  lemma ApplyKeepsInv(p: PoolState, op: Op)
    requires Inv(p)
    ensures Inv(Apply(p, op))
  {
    match op
    case DoRebuild(xs) => RebuildKeepsInv(p.cfg, xs);
    case DoAllocate(owner) =>
    case DoClaim(owner, a) =>
    case DoRelease(owner) => ReleaseKeepsInv(p, owner);
    case DoReleaseAddress(a) => if a in p.ownerByAddr { ReleaseKeepsInv(p, p.ownerByAddr[a]); }
  }

  /** After any sequence of operations the maps are mutual inverses within the range. */
  lemma {:induction false} RunKeepsInv(c: Config, ops: seq<Op>)
    requires ValidConfig(c)
    ensures Inv(Run(c, ops))
  {
    if ops != [] {
      RunKeepsInv(c, ops[..|ops| - 1]);
      ApplyKeepsInv(Run(c, ops[..|ops| - 1]), ops[|ops| - 1]);
    }
  }

  // ---- Available and Allocate ----

  ghost predicate Ascending(s: seq<uint16>) {
    forall i, j :: 0 <= i < j < |s| ==> s[i] < s[j]
  }

  lemma {:induction false} AvailableFromCorrect(p: PoolState, a: uint16)
    requires p.cfg.end <= MAX_MODULE_ADDRESS
    ensures Ascending(AvailableFrom(p, a))
    ensures forall b :: b in AvailableFrom(p, a) <==> a <= b && IsAutoAllocatable(p, b)
    decreases 0x1_0000 - a
  {
    if a <= p.cfg.end {
      AvailableFromCorrect(p, Inc16(a));
      var rest := AvailableFrom(p, Inc16(a));
      assert forall b :: b in rest ==> a < b;
      LeastFirst(a, rest);
      assert AvailableFrom(p, a) == if IsAutoAllocatable(p, a) then [a] + rest else rest;
    }
  }

  lemma LeastFirst(a: uint16, rest: seq<uint16>)
    requires Ascending(rest) && forall b :: b in rest ==> a < b
    ensures Ascending([a] + rest) && forall b :: b in [a] + rest <==> b == a || b in rest
  {
    assert forall i :: 0 <= i < |rest| ==> rest[i] in rest;
  }

  function Available(p: PoolState): seq<uint16>
    requires p.cfg.end <= MAX_MODULE_ADDRESS
  {
    AvailableFrom(p, p.cfg.start)
  }

  /** Allocate serves a fresh owner with the head of Available, touching nothing
      else, and refuses it exactly when Available is empty. */
  lemma AllocateTakesHeadOfAvailable(p: PoolState, owner: string)
    requires Inv(p) && owner != "" && owner !in p.addrByOwner
    ensures Available(p) == [] <==> Allocate(p, owner) == (p, Err(NoAddressAvailable))
    ensures Available(p) != [] ==>
              var (q, r) := Allocate(p, owner);
              && r == Ok(Available(p)[0])
              && q.addrByOwner == p.addrByOwner[owner := Available(p)[0]]
              && q.ownerByAddr == p.ownerByAddr[Available(p)[0] := owner]
              && Available(q) == Available(p)[1..]
  {
    var free := Available(p);
    AvailableFromCorrect(p, p.cfg.start);
    var r := FirstFree(p, p.cfg.start);
    assert free != [] ==> free[0] in free;
    if r.Some? {
      assert r.value in free;
      assert free[0] == r.value;
      var q := Allocate(p, owner).0;
      AvailableFromCorrect(q, q.cfg.start);
      forall b ensures b in free[1..] <==> b in Available(q) {
        assert b in free <==> b == free[0] || b in free[1..];
      }
      AscendingUnique(free[1..], Available(q));
    }
  }

  /** An ascending sequence is determined by its members. */
  lemma {:induction false} AscendingUnique(s: seq<uint16>, t: seq<uint16>)
    requires Ascending(s) && Ascending(t)
    requires forall x :: x in s <==> x in t
    ensures s == t
  {
    assert s != [] ==> s[0] in s;
    assert t != [] ==> t[0] in t;
    if s != [] && t != [] {
      assert s[0] == t[0];
      forall x ensures x in s[1..] <==> x in t[1..] {
        assert x in s <==> x == s[0] || x in s[1..];
        assert x in t <==> x == t[0] || x in t[1..];
      }
      AscendingUnique(s[1..], t[1..]);
    }
  }

  // ---- Claim and Release ----

  /** A claim is granted exactly to a named owner, for an address in range,
      when neither is bound elsewhere; then it binds precisely that pair. */
  lemma ClaimGranted(p: PoolState, owner: string, a: uint16)
    requires Inv(p)
    ensures ClaimError(p, owner, a).None? <==>
              && owner != "" && InRange(p.cfg, a)
              && (owner in p.addrByOwner ==> p.addrByOwner[owner] == a)
              && (a in p.ownerByAddr ==> p.ownerByAddr[a] == owner)
    ensures ClaimError(p, owner, a).None? ==>
              Claim(p, owner, a).addrByOwner == p.addrByOwner[owner := a]
    ensures ClaimError(p, owner, a).Some? ==> Claim(p, owner, a) == p
  {}

  /** Why a claim is refused: each complaint is made exactly when it is true and
      none comes before it, and names the address or owner in the way. */
  lemma ClaimRefused(p: PoolState, owner: string, a: uint16)
    requires Inv(p)
    ensures var e, usable := ClaimError(p, owner, a), owner != "" && p.cfg.start <= a <= p.cfg.end;
            && (e == Some(OwnerRequired) <==> owner == "")
            && (e == Some(AddressRequired(owner)) <==> owner != "" && a == 0)
            && (e == Some(AddressOutOfRange) <==> owner != "" && a != 0 && !(p.cfg.start <= a <= p.cfg.end))
            && (forall b :: e == Some(OwnerAlreadyAssigned(b)) <==>
                  usable && owner in p.addrByOwner && p.addrByOwner[owner] == b && b != a)
            && (forall o :: e == Some(AddressInUse(o)) <==>
                  usable && owner !in p.addrByOwner && a in p.ownerByAddr && p.ownerByAddr[a] == o)
  {}

  /** Why Rebuild stops at an entry. */
  lemma LoadRefused(p: PoolState, x: Assignment)
    requires Inv(p)
    ensures var e, usable := LoadError(p, x), x.owner != "" && p.cfg.start <= x.addr <= p.cfg.end;
            && (e == Some(OwnerRequired) <==> x.owner == "")
            && (e == Some(AddressRequired(x.owner)) <==> x.owner != "" && x.addr == 0)
            && (e == Some(AddressOutOfRange) <==> x.owner != "" && x.addr != 0 && !(p.cfg.start <= x.addr <= p.cfg.end))
            && (forall o :: e == Some(AddressInUse(o)) <==>
                  usable && x.addr in p.ownerByAddr && p.ownerByAddr[x.addr] == o)
            && (forall b :: e == Some(OwnerAlreadyAssigned(b)) <==>
                  usable && x.addr !in p.ownerByAddr && x.owner in p.addrByOwner && p.addrByOwner[x.owner] == b)
  {}

  /** Why a release is refused, and what it otherwise removes. */
  lemma ReleaseExactly(p: PoolState, owner: string, a: uint16)
    requires Inv(p)
    ensures ReleaseError(p, owner) == Some(OwnerRequired) <==> owner == ""
    ensures ReleaseError(p, owner) == Some(OwnerNotFound) <==> owner != "" && owner !in p.addrByOwner
    ensures Release(p, owner).addrByOwner == p.addrByOwner - {owner}
    ensures ReleaseAddressError(p, a) == if a in p.ownerByAddr then None else Some(OwnerNotFound)
    ensures ReleaseAddress(p, a).ownerByAddr == p.ownerByAddr - {a}
    ensures forall o :: o in p.addrByOwner && p.addrByOwner[o] != a ==>
              o in ReleaseAddress(p, a).addrByOwner && ReleaseAddress(p, a).addrByOwner[o] == p.addrByOwner[o]
  {}

  /** Allocating again for an owner returns the address it has and changes nothing. */
  lemma AllocateAgain(p: PoolState, owner: string)
    requires Inv(p) && Allocate(p, owner).1.Ok?
    ensures var (q, got) := Allocate(p, owner);
            && owner in q.addrByOwner && q.addrByOwner[owner] == got.value
            && Allocate(q, owner) == (q, got)
    ensures owner in p.addrByOwner ==> Allocate(p, owner) == (p, Ok(p.addrByOwner[owner]))
  {}

  /** Releasing undoes the claim or the allocation that bound a fresh owner. */
  lemma ReleaseUndoesBinding(p: PoolState, owner: string, a: uint16)
    requires Inv(p) && owner !in p.addrByOwner
    ensures ClaimError(p, owner, a).None? ==>
              Release(Claim(p, owner, a), owner) == p == ReleaseAddress(Claim(p, owner, a), a)
    ensures Release(Allocate(p, owner).0, owner) == p
  {
    assert p.addrByOwner - {owner} == p.addrByOwner;
    forall b | b !in p.ownerByAddr
      ensures Release(Bind(p, owner, b), owner).ownerByAddr == p.ownerByAddr || owner == ""
      ensures Release(Bind(p, owner, b), owner).addrByOwner == p.addrByOwner || owner == ""
    {
    }
  }

  // ---- Rebuild ----

  ghost function Owners(xs: seq<Assignment>): set<string> {
    set i | 0 <= i < |xs| :: xs[i].owner
  }

  ghost function Addrs(xs: seq<Assignment>): set<uint16> {
    set i | 0 <= i < |xs| :: xs[i].addr
  }

  /** A list Rebuild should accept: every entry named and in range, owners and
      addresses pairwise distinct. */
  ghost predicate ValidList(c: Config, xs: seq<Assignment>) {
    && (forall i :: 0 <= i < |xs| ==> xs[i].owner != "" && InRange(c, xs[i].addr))
    && (forall i, j :: 0 <= i < j < |xs| ==> xs[i].owner != xs[j].owner && xs[i].addr != xs[j].addr)
  }

  /** The maps hold the list and nothing else. */
  ghost predicate Holds(p: PoolState, xs: seq<Assignment>) {
    && p.addrByOwner.Keys == Owners(xs)
    && p.ownerByAddr.Keys == Addrs(xs)
    && forall i :: 0 <= i < |xs| ==>
         p.addrByOwner[xs[i].owner] == xs[i].addr && p.ownerByAddr[xs[i].addr] == xs[i].owner
  }

  lemma ValidListSnoc(c: Config, xs: seq<Assignment>, x: Assignment)
    ensures Owners(xs + [x]) == Owners(xs) + {x.owner}
    ensures Addrs(xs + [x]) == Addrs(xs) + {x.addr}
    ensures ValidList(c, xs + [x]) <==>
              && ValidList(c, xs) && x.owner != "" && InRange(c, x.addr)
              && x.owner !in Owners(xs) && x.addr !in Addrs(xs)
  {
    var ys := xs + [x];
    assert ys[|xs|] == x && forall i :: 0 <= i < |xs| ==> ys[i] == xs[i];
    forall o ensures o in Owners(ys) <==> o in Owners(xs) + {x.owner} {
      if o in Owners(xs) { var i :| 0 <= i < |xs| && xs[i].owner == o; assert ys[i].owner == o; }
    }
    forall a ensures a in Addrs(ys) <==> a in Addrs(xs) + {x.addr} {
      if a in Addrs(xs) { var i :| 0 <= i < |xs| && xs[i].addr == a; assert ys[i].addr == a; }
    }
  }

  lemma BindHolds(c: Config, p: PoolState, xs: seq<Assignment>, x: Assignment)
    requires Holds(p, xs) && x.owner !in p.addrByOwner && x.addr !in p.ownerByAddr
    ensures Holds(Bind(p, x.owner, x.addr), xs + [x])
  {
    ValidListSnoc(c, xs, x);
  }

  /** The outcome `r` of loading `xs`: it stopped at the k-th entry, the first to spoil the list. */
  ghost predicate Loaded(c: Config, xs: seq<Assignment>, r: (PoolState, Option<PoolError>), k: nat) {
    && k <= |xs| && ValidList(c, xs[..k]) && Holds(r.0, xs[..k])
    && (k == |xs| <==> r.1.None?)
    && (k < |xs| ==> !ValidList(c, xs[..k + 1]) && r.1 == LoadError(r.0, xs[k]))
  }

  lemma LoadedNext(c: Config, xs: seq<Assignment>, x: Assignment, r: (PoolState, Option<PoolError>))
    requires 1 <= c.start && r.0.cfg == c && Loaded(c, xs, r, |xs|)
    ensures Loaded(c, xs + [x], LoadOne(r, x), if ValidList(c, xs + [x]) then |xs| + 1 else |xs|)
  {
    var ys := xs + [x];
    assert ys[..|xs|] == xs == xs[..|xs|] && ys[..|xs| + 1] == ys;
    ValidListSnoc(c, xs, x);
    if ValidList(c, ys) { BindHolds(c, r.0, xs, x); }
  }

  /** Rebuild stops at the first entry that spoils the list, if there is one;
      what it has loaded by then is exactly the list before that entry. */
  lemma {:induction false} RebuildLoadsLongestValidPrefix(c: Config, xs: seq<Assignment>) returns (k: nat)
    requires ValidConfig(c)
    ensures Loaded(c, xs, Rebuild(c, xs), k)
  {
    if xs == [] {
      k := 0;
    } else {
      var n := |xs| - 1;
      var ys, x := xs[..n], xs[n];
      assert xs == ys + [x];
      k := RebuildLoadsLongestValidPrefix(c, ys);
      assert Rebuild(c, xs) == LoadOne(Rebuild(c, ys), x);
      if k == n {
        LoadedNext(c, ys, x, Rebuild(c, ys));
        k := if ValidList(c, xs) then n + 1 else n;
      } else {
        assert ys[..k] == xs[..k] && ys[..k + 1] == xs[..k + 1];
      }
    }
  }

  lemma LoadedAll(c: Config, xs: seq<Assignment>, r: (PoolState, Option<PoolError>), k: nat)
    requires Loaded(c, xs, r, k)
    ensures r.1.None? <==> ValidList(c, xs)
    ensures r.1.None? ==> Holds(r.0, xs)
  {
    assert xs[..|xs|] == xs;
    if k < |xs| { ValidPrefix(c, xs, k + 1); }
  }

  lemma ValidPrefix(c: Config, xs: seq<Assignment>, k: nat)
    requires k <= |xs|
    ensures ValidList(c, xs) ==> ValidList(c, xs[..k])
  {}

  /** Rebuild accepts exactly the valid lists, and then holds exactly the list. */
  lemma RebuildExact(c: Config, xs: seq<Assignment>)
    requires ValidConfig(c)
    ensures Rebuild(c, xs).1.None? <==> ValidList(c, xs)
    ensures ValidList(c, xs) ==> Holds(Rebuild(c, xs).0, xs)
    ensures Inv(Rebuild(c, xs).0)
  {
    var k := RebuildLoadsLongestValidPrefix(c, xs);
    LoadedAll(c, xs, Rebuild(c, xs), k);
    RebuildKeepsInv(c, xs);
  }

  // ---- Assignments: the way back ----

  /** What Assignments returns: the bindings, strictly ascending by address, NetID dropped. */
  ghost predicate IsAssignments(p: PoolState, xs: seq<Assignment>) {
    && (forall i, j :: 0 <= i < j < |xs| ==> xs[i].addr < xs[j].addr)
    && p.ownerByAddr.Keys == Addrs(xs)
    && (forall i :: 0 <= i < |xs| ==> xs[i] == Assignment(p.ownerByAddr[xs[i].addr], xs[i].addr, 0))
  }

  lemma AssignmentsValid(p: PoolState, xs: seq<Assignment>)
    requires Inv(p) && IsAssignments(p, xs)
    ensures ValidList(p.cfg, xs)
  {}

  lemma HeldAssignments(p: PoolState, q: PoolState, xs: seq<Assignment>)
    requires Inv(p) && Inv(q) && p.cfg == q.cfg && IsAssignments(p, xs) && Holds(q, xs)
    ensures p == q
  {}

  /** Rebuilding from a pool's own assignments restores both maps. */
  lemma RebuildOfAssignments(p: PoolState, xs: seq<Assignment>)
    requires Inv(p) && IsAssignments(p, xs)
    ensures Rebuild(p.cfg, xs) == (p, None)
  {
    AssignmentsValid(p, xs);
    RebuildExact(p.cfg, xs);
    HeldAssignments(p, Rebuild(p.cfg, xs).0, xs);
  }

  /** `xs` with the NetIDs dropped. */
  function Stripped(xs: seq<Assignment>): (ys: seq<Assignment>) {
    seq(|xs|, i requires 0 <= i < |xs| => xs[i].(netID := 0))
  }

  /** The assignments of a pool rebuilt from a valid list are that list,
      sorted by address, NetIDs dropped. */
  lemma AssignmentsOfRebuild(c: Config, xs: seq<Assignment>, ys: seq<Assignment>)
    requires ValidConfig(c) && ValidList(c, xs) && IsAssignments(Rebuild(c, xs).0, ys)
    ensures multiset(ys) == multiset(Stripped(xs))
  {
    RebuildExact(c, xs);
    AssignmentsOfHeld(Rebuild(c, xs).0, xs, ys);
    assert Distinct(ys);
    assert Distinct(Stripped(xs)) by {
      assert forall i :: 0 <= i < |xs| ==> Stripped(xs)[i].owner == xs[i].owner;
    }
    DistinctPermutation(ys, Stripped(xs));
  }

  lemma AssignmentsOfHeld(p: PoolState, xs: seq<Assignment>, ys: seq<Assignment>)
    requires Holds(p, xs) && IsAssignments(p, ys)
    ensures forall x :: x in ys <==> x in Stripped(xs)
  {
    var zs := Stripped(xs);
    forall x | x in ys ensures x in zs {
      var i :| 0 <= i < |ys| && ys[i] == x;
      assert x.addr in Addrs(ys);
      var j :| 0 <= j < |xs| && xs[j].addr == x.addr;
      assert zs[j] == x;
    }
    forall x | x in zs ensures x in ys {
      var j :| 0 <= j < |zs| && zs[j] == x;
      assert xs[j].addr in Addrs(xs);
      var i :| 0 <= i < |ys| && ys[i].addr == x.addr;
      assert ys[i] == x;
    }
  }

  // ---- Stats: nothing is lost ----

  datatype Stats = Stats(rangeSize: int, reserved: int, inUse: int, autoAvailable: int)

  function CountFree(p: PoolState, a: uint16): nat
    requires p.cfg.end <= MAX_MODULE_ADDRESS
  {
    |AvailableFrom(p, a)|
  }

  function StatsOf(p: PoolState): Stats
    requires p.cfg.end <= MAX_MODULE_ADDRESS
  {
    Stats(p.cfg.end - p.cfg.start + 1, |ReservedSet(p.cfg)|, |p.ownerByAddr|, |Available(p)|)
  }

  lemma ReservedSize(c: Config)
    requires ValidConfig(c)
    ensures |ReservedSet(c)| == |c.reserved|
  {
    DistinctSize(c.reserved);
  }

  /** Conservation: every address of the range is available, allocated, or
      reserved and unassigned, and is so only once. */
  lemma StatsConserved(p: PoolState)
    requires Inv(p)
    ensures var s := StatsOf(p);
            && s.rangeSize == s.autoAvailable + s.inUse + |ReservedSet(p.cfg) - p.ownerByAddr.Keys|
            && s.reserved == |p.cfg.reserved|
  {
    var free := Available(p);
    AvailableFromCorrect(p, p.cfg.start);
    DistinctSize(free);
    ReservedSize(p.cfg);
    RangePartition(p, set a | a in free);
  }

  lemma RangePartition(p: PoolState, free: set<uint16>)
    requires Inv(p)
    requires forall a :: a in free <==> IsAutoAllocatable(p, a)
    ensures p.cfg.end - p.cfg.start + 1
         == |free| + |p.ownerByAddr| + |ReservedSet(p.cfg) - p.ownerByAddr.Keys|
  {
    var used, reserved := p.ownerByAddr.Keys, ReservedSet(p.cfg);
    assert forall a :: a in used ==> InRange(p.cfg, a);
    assert forall a :: a in reserved ==> InRange(p.cfg, a);
    assert forall a :: a in free <==> InRange(p.cfg, a) && a !in used && a !in reserved;
    SplitRange(p.cfg, free, used, reserved);
    assert |used| == |p.ownerByAddr|;
  }

  lemma SplitRange(c: Config, free: set<uint16>, used: set<uint16>, reserved: set<uint16>)
    requires c.start <= c.end
    requires forall a :: a in used ==> InRange(c, a)
    requires forall a :: a in reserved ==> InRange(c, a)
    requires forall a :: a in free <==> InRange(c, a) && a !in used && a !in reserved
    ensures c.end - c.start + 1 == |free| + |used| + |reserved - used|
  {
    var range := Interval(c.start, c.end + 1);
    forall a ensures a in range <==> a in free || a in used || a in reserved - used {
      if c.start <= a <= c.end { var b: uint16 := a; assert InRange(c, b); }
    }
    assert range == free + used + (reserved - used);
    ThreeParts(range, free, used, reserved - used);
  }

  lemma ThreeParts(whole: set<int>, x: set<int>, y: set<int>, z: set<int>)
    requires whole == x + y + z && x !! y && x !! z && y !! z
    ensures |whole| == |x| + |y| + |z|
  {}

  /** Conservation after any sequence of operations on a new pool. */
  lemma RunConserves(c: Config, ops: seq<Op>)
    requires ValidConfig(c)
    ensures var p := Run(c, ops);
            StatsOf(p).rangeSize == StatsOf(p).autoAvailable + StatsOf(p).inUse
                                    + |ReservedSet(c) - p.ownerByAddr.Keys|
  {
    RunKeepsInv(c, ops);
    StatsConserved(Run(c, ops));
  }
}

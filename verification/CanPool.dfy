/** packages/canpool/pool.go: the allocator itself, a mutable object over two
    maps.  Every method is proved to make exactly the transition PoolSpec
    names, and so to keep the representation invariant. */
module CanPool {
  import opened Basics
  import opened PoolConfig
  import Spec = PoolSpec
  import opened PoolSpec

  class Pool {
    const cfg: Config
    const reserved: set<uint16>
    var ownerByAddr: map<uint16, string>
    var addrByOwner: map<string, uint16>

    ghost function View(): PoolState
      reads this
    {
      PoolState(cfg, ownerByAddr, addrByOwner)
    }

    ghost predicate Valid()
      reads this
    {
      Inv(View()) && reserved == ReservedSet(cfg)
    }

    constructor (cfg: Config, reserved: set<uint16>)
      requires ValidConfig(cfg) && reserved == ReservedSet(cfg)
      ensures Valid() && View() == Empty(cfg)
    {
      this.cfg, this.reserved := cfg, reserved;
      ownerByAddr, addrByOwner := map[], map[];
    }

    static method New(cfg: Config) returns (r: Result<Pool, ConfigError>)
      ensures r.Ok? <==> ValidConfig(cfg)
      ensures r.Err? ==> Some(r.error) == FirstError(cfg)
      ensures r.Ok? ==> fresh(r.value) && r.value.Valid() && r.value.View() == Empty(cfg)
    {
      var err := Validate(cfg);
      if err.Some? { return Err(err.value); }
      var reserved := BuildReservedSet(cfg);
      var pool := new Pool(cfg, reserved);
      return Ok(pool);
    }

    predicate IsAvailable(a: uint16)
      reads this
    {
      InRange(cfg, a) && a !in ownerByAddr
    }

    predicate IsAutoAllocatable(a: uint16)
      reads this
    {
      IsAvailable(a) && a !in reserved
    }

    method Rebuild(xs: seq<Assignment>) returns (err: Option<PoolError>)
      requires Valid()
      modifies this
      ensures Valid()
      ensures (View(), err) == Spec.Rebuild(cfg, xs)
      ensures err.None? <==> ValidList(cfg, xs)
      ensures err.None? ==> Holds(View(), xs)
    {
      ownerByAddr, addrByOwner := map[], map[];
      RebuildExact(cfg, xs);
      var i := 0;
      while i < |xs|
        invariant 0 <= i <= |xs|
        invariant (View(), None) == Spec.Rebuild(cfg, xs[..i])
      {
        var x := xs[i];
        RebuildOneMore(cfg, xs, i);
        err := CheckLoad(x);
        if err.Some? {
          RefusalIsFinal(cfg, xs, i + 1);
          return;
        }
        ownerByAddr := ownerByAddr[x.addr := x.owner];
        addrByOwner := addrByOwner[x.owner := x.addr];
        i := i + 1;
      }
      assert xs[..i] == xs;
      return None;
    }

    /** The five checks Rebuild makes on one assignment. */
    method CheckLoad(x: Assignment) returns (err: Option<PoolError>)
      ensures err == LoadError(View(), x)
    {
      if x.owner == "" { return Some(OwnerRequired); }
      if x.addr == 0 { return Some(AddressRequired(x.owner)); }
      if !InRange(cfg, x.addr) { return Some(AddressOutOfRange); }
      if x.addr in ownerByAddr { return Some(AddressInUse(ownerByAddr[x.addr])); }
      if x.owner in addrByOwner { return Some(OwnerAlreadyAssigned(addrByOwner[x.owner])); }
      return None;
    }

    method Allocate(owner: string) returns (r: Result<uint16, PoolError>)
      requires Valid()
      modifies this
      ensures Valid()
      ensures (View(), r) == Spec.Allocate(old(View()), owner)
    {
      if owner == "" { return Err(OwnerRequired); }
      if owner in addrByOwner { return Ok(addrByOwner[owner]); }
      var addr := ScanFree();
      if addr.None? { return Err(NoAddressAvailable); }
      Assign(owner, addr.value);
      return Ok(addr.value);
    }

    /** The scan of Allocate, in 16 bits: the bound on the range keeps it from wrapping. */
    method ScanFree() returns (free: Option<uint16>)
      requires Valid()
      ensures free == FirstFree(View(), cfg.start)
    {
      ghost var p := View();
      var addr: uint16 := cfg.start;
      while addr <= cfg.end
        invariant cfg.start <= addr && FirstFree(p, cfg.start) == FirstFree(p, addr)
        decreases 0x1_0000 - addr
      {
        FirstFreeStep(p, addr);
        if addr !in reserved && addr !in ownerByAddr { return Some(addr); }
        addr := Inc16(addr);
      }
      return None;
    }

    /** Both maps learn of a new binding. */
    method Assign(owner: string, addr: uint16)
      requires Valid() && owner != "" && owner !in addrByOwner && InRange(cfg, addr) && addr !in ownerByAddr
      modifies this
      ensures Valid() && View() == Bind(old(View()), owner, addr)
    {
      BindKeepsInv(View(), owner, addr);
      ownerByAddr := ownerByAddr[addr := owner];
      addrByOwner := addrByOwner[owner := addr];
    }

    method Claim(owner: string, a: uint16) returns (err: Option<PoolError>)
      requires Valid()
      modifies this
      ensures Valid()
      ensures err == ClaimError(old(View()), owner, a)
      ensures View() == Spec.Claim(old(View()), owner, a)
    {
      if owner == "" { return Some(OwnerRequired); }
      if a == 0 { return Some(AddressRequired(owner)); }
      if !InRange(cfg, a) { return Some(AddressOutOfRange); }
      if owner in addrByOwner {
        var existing := addrByOwner[owner];
        if existing == a { return None; }
        return Some(OwnerAlreadyAssigned(existing));
      }
      if a in ownerByAddr { return Some(AddressInUse(ownerByAddr[a])); }
      Assign(owner, a);
      return None;
    }

    method Release(owner: string) returns (err: Option<PoolError>)
      requires Valid()
      modifies this
      ensures Valid()
      ensures err == ReleaseError(old(View()), owner)
      ensures View() == Spec.Release(old(View()), owner)
    {
      if owner == "" { return Some(OwnerRequired); }
      if owner !in addrByOwner { return Some(OwnerNotFound); }
      ReleaseKeepsInv(View(), owner);
      var a := addrByOwner[owner];
      addrByOwner := addrByOwner - {owner};
      ownerByAddr := ownerByAddr - {a};
      return None;
    }

    method ReleaseAddress(a: uint16) returns (err: Option<PoolError>)
      requires Valid()
      modifies this
      ensures Valid()
      ensures err == ReleaseAddressError(old(View()), a)
      ensures View() == Spec.ReleaseAddress(old(View()), a)
    {
      if a !in ownerByAddr { return Some(OwnerNotFound); }
      err := Release(ownerByAddr[a]);
    }

    function AddressOf(owner: string): Option<uint16>
      reads this
    {
      if owner in addrByOwner then Some(addrByOwner[owner]) else None
    }

    method Available() returns (out: seq<uint16>)
      requires Valid()
      ensures out == Spec.Available(View())
    {
      ghost var p := View();
      ghost var rest := Spec.Available(p);
      out := [];
      var addr: uint16 := cfg.start;
      while addr <= cfg.end
        invariant cfg.start <= addr && rest == AvailableFrom(p, addr) && out + rest == Spec.Available(p)
        decreases 0x1_0000 - addr
      {
        AvailableStep(p, addr);
        rest := AvailableFrom(p, Inc16(addr));
        if IsAutoAllocatable(addr) {
          AppendAssociates(out, addr, rest);
          out := out + [addr];
        }
        addr := Inc16(addr);
      }
      assert out + [] == out;
    }

    /** Go's map iteration order is arbitrary; the sort makes the result unique. */
    method Assignments() returns (out: seq<Assignment>)
      requires Valid()
      ensures IsAssignments(View(), out)
    {
      out := [];
      var todo := ownerByAddr.Keys;
      while todo != {}
        invariant todo <= ownerByAddr.Keys
        invariant forall y :: y in out <==> y.addr in ownerByAddr.Keys - todo
                                            && y == Assignment(ownerByAddr[y.addr], y.addr, 0)
        invariant AscendingAddrs(out)
        decreases todo
      {
        var a :| a in todo;
        out := InsertByAddress(out, Assignment(ownerByAddr[a], a, 0));
        todo := todo - {a};
      }
      forall a ensures a in Addrs(out) <==> a in ownerByAddr {
        if a in ownerByAddr { assert Assignment(ownerByAddr[a], a, 0) in out; }
      }
    }

    method Stats() returns (s: Stats)
      requires Valid()
      ensures s == StatsOf(View())
      ensures s.rangeSize == s.autoAvailable + s.inUse + |ReservedSet(cfg) - ownerByAddr.Keys|
    {
      var autoAvail := 0;
      var addr: uint16 := cfg.start;
      while addr <= cfg.end
        invariant autoAvail + CountFree(View(), addr) == |Spec.Available(View())|
        decreases 0x1_0000 - addr
      {
        if IsAutoAllocatable(addr) {
          autoAvail := autoAvail + 1;
        }
        addr := Inc16(addr);
      }
      StatsConserved(View());
      return Spec.Stats(cfg.end - cfg.start + 1, |reserved|, |ownerByAddr|, autoAvail);
    }
  }

  lemma AppendAssociates(out: seq<uint16>, a: uint16, rest: seq<uint16>)
    ensures out + ([a] + rest) == (out + [a]) + rest
  {}

  lemma AvailableStep(p: PoolState, a: uint16)
    requires a <= p.cfg.end <= MAX_MODULE_ADDRESS
    ensures AvailableFrom(p, a) ==
              if Spec.IsAutoAllocatable(p, a) then [a] + AvailableFrom(p, Inc16(a)) else AvailableFrom(p, Inc16(a))
  {}

  lemma FirstFreeStep(p: PoolState, a: uint16)
    requires a <= p.cfg.end <= MAX_MODULE_ADDRESS
    ensures FirstFree(p, a) == if IsAutoAllocatable(p, a) then Some(a) else FirstFree(p, Inc16(a))
  {}

  lemma RebuildOneMore(c: Config, xs: seq<Assignment>, i: nat)
    requires i < |xs|
    ensures Spec.Rebuild(c, xs[..i + 1]) == LoadOne(Spec.Rebuild(c, xs[..i]), xs[i])
  {
    assert xs[..i + 1][..i] == xs[..i];
  }

  /** Once an entry is refused nothing later is loaded. */
  lemma {:induction false} RefusalIsFinal(c: Config, xs: seq<Assignment>, k: nat)
    requires k <= |xs| && Spec.Rebuild(c, xs[..k]).1.Some?
    ensures Spec.Rebuild(c, xs) == Spec.Rebuild(c, xs[..k])
  {
    if k < |xs| {
      var n := |xs| - 1;
      assert xs[..n][..k] == xs[..k];
      RefusalIsFinal(c, xs[..n], k);
    } else {
      assert xs[..k] == xs;
    }
  }

  ghost predicate AscendingAddrs(xs: seq<Assignment>) {
    forall i, j :: 0 <= i < j < |xs| ==> xs[i].addr < xs[j].addr
  }

  /** One step of the library sort: put `x` where its address belongs. */
  function InsertByAddress(xs: seq<Assignment>, x: Assignment): (ys: seq<Assignment>)
    requires AscendingAddrs(xs)
    requires forall y :: y in xs ==> y.addr != x.addr
    ensures AscendingAddrs(ys)
    ensures forall y :: y in ys <==> y in xs || y == x
  {
    if xs == [] then [x]
    else if x.addr < xs[0].addr then [x] + xs
    else
      var rest := InsertByAddress(xs[1..], x);
      assert xs == [xs[0]] + xs[1..];
      assert xs[0].addr < x.addr && forall y :: y in xs[1..] ==> xs[0].addr < y.addr;
      assert forall i :: 0 <= i < |rest| ==> rest[i] in rest;
      [xs[0]] + rest
  }
}

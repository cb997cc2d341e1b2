/** packages/canpool/config.go: the allocatable range of one command station. */
module PoolConfig {
  import opened Basics

  const MAX_MODULE_ADDRESS: uint16 := 255

  datatype Config = Config(start: uint16, end: uint16, reserved: seq<uint16>)

  datatype ConfigError =
    | StartZero
    | EndTooHigh
    | StartAfterEnd
    | ReservedZero
    | ReservedOutside(addr: uint16)
    | ReservedDuplicate(addr: uint16)

  /** What a usable configuration is, independently of how it is checked. */
  ghost predicate ValidConfig(c: Config) {
    && 1 <= c.start <= c.end <= 255
    && (forall i :: 0 <= i < |c.reserved| ==> c.start <= c.reserved[i] <= c.end)
    && Distinct(c.reserved)
  }

  /** The complaint about the i-th reserved address, given the earlier ones. */
  function EntryError(c: Config, i: nat): Option<ConfigError>
    requires i < |c.reserved|
  {
    var a := c.reserved[i];
    if a == 0 then Some(ReservedZero)
    else if a < c.start || a > c.end then Some(ReservedOutside(a))
    else if a in c.reserved[..i] then Some(ReservedDuplicate(a))
    else None
  }

  /** The first complaint about the reserved addresses from the i-th on. */
  function ReservedError(c: Config, i: nat): (e: Option<ConfigError>)
    requires i <= |c.reserved|
    ensures e.None? <==> forall j :: i <= j < |c.reserved| ==> EntryError(c, j).None?
    decreases |c.reserved| - i
  {
    if i == |c.reserved| then None
    else if EntryError(c, i).Some? then EntryError(c, i)
    else ReservedError(c, i + 1)
  }

  /** It is the complaint about some entry, and there is none about the entries before. */
  lemma {:induction false} ReservedErrorIsFirst(c: Config, i: nat) returns (j: nat)
    requires i <= |c.reserved| && ReservedError(c, i).Some?
    ensures i <= j < |c.reserved| && EntryError(c, j) == ReservedError(c, i)
    ensures forall k :: i <= k < j ==> EntryError(c, k).None?
    decreases |c.reserved| - i
  {
    if EntryError(c, i).Some? { j := i; } else { j := ReservedErrorIsFirst(c, i + 1); }
  }

  function FirstError(c: Config): Option<ConfigError> {
    if c.start == 0 then Some(StartZero)
    else if c.end > MAX_MODULE_ADDRESS then Some(EndTooHigh)
    else if c.start > c.end then Some(StartAfterEnd)
    else ReservedError(c, 0)
  }

  /** The checks, made in order and against the entries seen so far, accept
      exactly the configurations that are valid as a whole. */
  lemma AcceptsExactlyValid(c: Config)
    ensures FirstError(c).None? <==> ValidConfig(c)
  {
    if FirstError(c).None? {
      forall i, j | 0 <= i < j < |c.reserved| ensures c.reserved[i] != c.reserved[j] {
        assert EntryError(c, j).None?;
        assert c.reserved[i] == c.reserved[..j][i];
      }
      forall i | 0 <= i < |c.reserved| ensures c.start <= c.reserved[i] <= c.end {
        assert EntryError(c, i).None?;
      }
    }
  }

  /** What each complaint says. */
  lemma ComplaintsSay(c: Config)
    ensures FirstError(c) == Some(StartZero) <==> c.start == 0
    ensures FirstError(c) == Some(EndTooHigh) <==> c.start > 0 && c.end > 255
    ensures FirstError(c) == Some(StartAfterEnd) <==> c.start > 0 && c.end <= 255 && c.start > c.end
    ensures forall i :: 0 <= i < |c.reserved| ==>
              && (EntryError(c, i) == Some(ReservedZero) <==> c.reserved[i] == 0)
              && (EntryError(c, i) == Some(ReservedOutside(c.reserved[i])) <==>
                    c.reserved[i] != 0 && !(c.start <= c.reserved[i] <= c.end))
              && (EntryError(c, i) == Some(ReservedDuplicate(c.reserved[i])) <==>
                    c.reserved[i] != 0 && c.start <= c.reserved[i] <= c.end
                    && exists j :: 0 <= j < i && c.reserved[j] == c.reserved[i])
  {
    ReservedErrorKinds(c, 0);
  }

  lemma {:induction false} ReservedErrorKinds(c: Config, i: nat)
    requires i <= |c.reserved|
    ensures ReservedError(c, i).Some? ==>
              var e := ReservedError(c, i).value; e.ReservedZero? || e.ReservedOutside? || e.ReservedDuplicate?
    decreases |c.reserved| - i
  {
    if i < |c.reserved| { ReservedErrorKinds(c, i + 1); }
  }

  method Validate(c: Config) returns (err: Option<ConfigError>)
    ensures err == FirstError(c)
    ensures err.None? <==> ValidConfig(c)
  {
    AcceptsExactlyValid(c);
    if c.start == 0 { return Some(StartZero); }
    if c.end > MAX_MODULE_ADDRESS { return Some(EndTooHigh); }
    if c.start > c.end { return Some(StartAfterEnd); }

    var seen: set<uint16> := {};
    var i := 0;
    while i < |c.reserved|
      invariant 0 <= i <= |c.reserved|
      invariant seen == set a | a in c.reserved[..i]
      invariant ReservedError(c, 0) == ReservedError(c, i)
    {
      var addr := c.reserved[i];
      if addr == 0 { return Some(ReservedZero); }
      if addr < c.start || addr > c.end { return Some(ReservedOutside(addr)); }
      if addr in seen { return Some(ReservedDuplicate(addr)); }
      seen := seen + {addr};
      i := i + 1;
    }
    return None;
  }

  function ReservedSet(c: Config): set<uint16> {
    set a | a in c.reserved
  }

  method BuildReservedSet(c: Config) returns (s: set<uint16>)
    ensures s == ReservedSet(c)
  {
    s := {};
    for i := 0 to |c.reserved|
      invariant s == set a | a in c.reserved[..i]
    {
      s := s + {c.reserved[i]};
    }
    assert c.reserved[..|c.reserved|] == c.reserved;
  }
}

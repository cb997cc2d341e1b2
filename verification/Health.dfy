/** apps/z21-gateway/internal/status/healthloop.go: reachability with hysteresis.
    A tracker with wrapping 32-bit counters, fed one probe result a tick, with
    thresholds that may change every tick. */
module Health {
  import opened Basics

  const DEFAULT_FAILURE_THRESHOLD: int32 := 3
  const DEFAULT_SUCCESS_THRESHOLD: int32 := 1

  datatype HealthCheckSpec = HealthCheckSpec(failureThreshold: int32, successThreshold: int32)

  datatype HealthUpdate = HealthUpdate(deviceReachable: bool, degraded: bool, failures: int32, lastSuccess: Option<int>)

  /** One turn of the loop: the probe's outcome, its time, and the thresholds then in force. */
  datatype Tick = Tick(success: bool, at: int, spec: HealthCheckSpec)

  function FailuresNeeded(spec: HealthCheckSpec): (n: int32)
    ensures n >= 1
  {
    if spec.failureThreshold <= 0 then DEFAULT_FAILURE_THRESHOLD else spec.failureThreshold
  }

  function SuccessesNeeded(spec: HealthCheckSpec): (n: int32)
    ensures n >= 1
  {
    if spec.successThreshold <= 0 then DEFAULT_SUCCESS_THRESHOLD else spec.successThreshold
  }

  /** The tracker's fields. */
  datatype State = State(failures: int32, successes: int32, reachable: bool, degraded: bool)

  const START := State(0, 0, false, false)

  function Record(st: State, t: Tick): State {
    if t.success then
      var n := Inc32(st.successes);
      if !st.reachable && n >= SuccessesNeeded(t.spec) then State(0, n, true, false)
      else State(0, n, st.reachable, st.degraded)
    else
      var n := Inc32(st.failures);
      if n >= FailuresNeeded(t.spec) then State(n, 0, false, true)
      else State(n, 0, st.reachable, st.degraded)
  }

  function After(ticks: seq<Tick>): State {
    if ticks == [] then START else Record(After(ticks[..|ticks| - 1]), ticks[|ticks| - 1])
  }

  class HealthTracker {
    var consecutiveFailures: int32
    var consecutiveSuccesses: int32
    var reachable: bool
    var degraded: bool

    ghost function View(): State
      reads this
    {
      State(consecutiveFailures, consecutiveSuccesses, reachable, degraded)
    }

    constructor ()
      ensures View() == START
    {
      consecutiveFailures, consecutiveSuccesses, reachable, degraded := 0, 0, false, false;
    }

    /** Every call reports a change: a success carries a timestamp, a failure moves the count. */
    method RecordProbe(success: bool, at: int, spec: HealthCheckSpec) returns (next: HealthUpdate, changed: bool)
      modifies this
      ensures View() == Record(old(View()), Tick(success, at, spec))
      ensures next == HealthUpdate(reachable, degraded, consecutiveFailures, if success then Some(at) else None)
      ensures changed
    {
      var failureThreshold := spec.failureThreshold;
      if failureThreshold <= 0 { failureThreshold := DEFAULT_FAILURE_THRESHOLD; }
      var successThreshold := spec.successThreshold;
      if successThreshold <= 0 { successThreshold := DEFAULT_SUCCESS_THRESHOLD; }

      var prev := HealthUpdate(reachable, degraded, consecutiveFailures, if success then Some(at) else None);
      if success {
        consecutiveFailures := 0;
        consecutiveSuccesses := Inc32(consecutiveSuccesses);
        if !reachable && consecutiveSuccesses >= successThreshold {
          reachable := true;
          degraded := false;
        }
      } else {
        consecutiveSuccesses := 0;
        consecutiveFailures := Inc32(consecutiveFailures);
        if consecutiveFailures >= failureThreshold {
          if reachable { reachable := false; }
          degraded := true;
        }
      }
      next := HealthUpdate(reachable, degraded, consecutiveFailures, if success then Some(at) else None);
      changed := next.deviceReachable != prev.deviceReachable || next.degraded != prev.degraded
                 || next.failures != prev.failures || (success && next.lastSuccess.Some?);
    }

    /** The loop.  Without thresholds there is no probe; a verdict that cannot be
        stored is lost, and the tracker goes on. */
    method Run(turns: seq<Turn>) returns (published: seq<HealthUpdate>)
      requires View() == START
      modifies this
      ensures View() == After(Ticks(turns))
      ensures published == Stored(turns)
    {
      published := [];
      var i := 0;
      while i < |turns|
        invariant 0 <= i <= |turns|
        invariant View() == After(Ticks(turns[..i]))
        invariant published == Stored(turns[..i])
      {
        assert turns[..i + 1][..i] == turns[..i];
        var turn := turns[i];
        i := i + 1;
        if turn.Unread? { continue; }
        TicksSnoc(turns[..i - 1], turn);
        assert turns[..i] == turns[..i - 1] + [turn];
        var t := turn.tick;
        var update, changed := RecordProbe(t.success, t.at, t.spec);
        if changed && turn.stored { published := published + [update]; }
      }
      assert turns[..i] == turns;
    }
  }

  /** One turn of the loop: the thresholds could not be read, or a probe was
      made and its verdict stored or lost. */
  datatype Turn = Unread | Probed(tick: Tick, stored: bool)

  /** The probes made. */
  function Ticks(turns: seq<Turn>): seq<Tick> {
    if turns == [] then []
    else
      var before, last := Ticks(turns[..|turns| - 1]), turns[|turns| - 1];
      if last.Unread? then before else before + [last.tick]
  }

  function UpdateOf(st: State, t: Tick): HealthUpdate {
    HealthUpdate(st.reachable, st.degraded, st.failures, if t.success then Some(t.at) else None)
  }

  /** What reaches the device's status, in order. */
  function Stored(turns: seq<Turn>): seq<HealthUpdate> {
    if turns == [] then []
    else
      var before, last := Stored(turns[..|turns| - 1]), turns[|turns| - 1];
      if last.Unread? || !last.stored then before else before + [UpdateOf(After(Ticks(turns)), last.tick)]
  }

  lemma TicksSnoc(turns: seq<Turn>, last: Turn)
    ensures Ticks(turns + [last]) == if last.Unread? then Ticks(turns) else Ticks(turns) + [last.tick]
    ensures last.Probed? ==> After(Ticks(turns + [last])) == Record(After(Ticks(turns)), last.tick)
  {
    assert (turns + [last])[..|turns|] == turns;
    if last.Probed? { assert (Ticks(turns) + [last.tick])[..|Ticks(turns)|] == Ticks(turns); }
  }

  // ---- what the history says ----

  /** The run of successes the history ends with. */
  function TrailingSuccesses(ticks: seq<Tick>): nat {
    if ticks == [] || !ticks[|ticks| - 1].success then 0 else 1 + TrailingSuccesses(ticks[..|ticks| - 1])
  }

  /** The run of failures the history ends with. */
  function TrailingFailures(ticks: seq<Tick>): nat {
    if ticks == [] || ticks[|ticks| - 1].success then 0 else 1 + TrailingFailures(ticks[..|ticks| - 1])
  }

  /** At tick i the run of successes met the threshold then in force, 1 unless set. */
  predicate Up(ticks: seq<Tick>, i: nat)
    requires i < |ticks|
  {
    TrailingSuccesses(ticks[..i + 1])
      >= if ticks[i].spec.successThreshold <= 0 then 1 else ticks[i].spec.successThreshold
  }

  /** At tick i the run of failures met the threshold then in force, 3 unless set. */
  predicate Down(ticks: seq<Tick>, i: nat)
    requires i < |ticks|
  {
    TrailingFailures(ticks[..i + 1])
      >= if ticks[i].spec.failureThreshold <= 0 then 3 else ticks[i].spec.failureThreshold
  }

  // ---- counters that never wrap ----

  datatype Ideal = Ideal(failures: nat, successes: nat, reachable: bool, degraded: bool)

  function IdealRecord(st: Ideal, t: Tick): Ideal {
    if t.success then
      var n := st.successes + 1;
      if !st.reachable && n >= SuccessesNeeded(t.spec) then Ideal(0, n, true, false)
      else Ideal(0, n, st.reachable, st.degraded)
    else
      var n := st.failures + 1;
      if n >= FailuresNeeded(t.spec) then Ideal(n, 0, false, true)
      else Ideal(n, 0, st.reachable, st.degraded)
  }

  function IdealAfter(ticks: seq<Tick>): Ideal {
    if ticks == [] then Ideal(0, 0, false, false)
    else IdealRecord(IdealAfter(ticks[..|ticks| - 1]), ticks[|ticks| - 1])
  }

  /** What is left of a count in 32 bits, two's complement. */
  function Wrap32(n: nat): int32 {
    (n + 0x8000_0000) % 0x1_0000_0000 - 0x8000_0000
  }

  lemma Wrap32Inc(n: nat)
    ensures Wrap32(n + 1) == Inc32(Wrap32(n))
    ensures n < 0x8000_0000 ==> Wrap32(n) == n
  {}

  /** The simulation relation.  While a verdict is still open its counter is
      below every possible threshold's reach, so the wrap cannot matter. */
  ghost predicate Simulates(st: State, ideal: Ideal) {
    && st.reachable == ideal.reachable && st.degraded == ideal.degraded
    && st.failures == Wrap32(ideal.failures) && st.successes == Wrap32(ideal.successes)
    && (!ideal.reachable ==> ideal.successes < 0x7FFF_FFFF)
    && (!ideal.degraded ==> ideal.failures < 0x7FFF_FFFF)
    && !(ideal.reachable && ideal.degraded)
  }

  lemma RecordSimulates(st: State, ideal: Ideal, t: Tick)
    requires Simulates(st, ideal)
    ensures Simulates(Record(st, t), IdealRecord(ideal, t))
  {
    Wrap32Inc(ideal.successes);
    Wrap32Inc(ideal.failures);
    Wrap32Inc(ideal.successes + 1);
    Wrap32Inc(ideal.failures + 1);
  }

  /** Whatever the probes and thresholds, the verdicts reached with wrapping
      counters are those of unbounded counters. */
  lemma {:induction false} WrappingIsInvisible(ticks: seq<Tick>)
    ensures Simulates(After(ticks), IdealAfter(ticks))
  {
    if ticks != [] {
      WrappingIsInvisible(ticks[..|ticks| - 1]);
      RecordSimulates(After(ticks[..|ticks| - 1]), IdealAfter(ticks[..|ticks| - 1]), ticks[|ticks| - 1]);
    }
  }

  // ---- the verdicts, read off the history ----

  /** Tick i met its success threshold, and no later tick met its failure threshold. */
  ghost predicate LastUp(ticks: seq<Tick>, i: int) {
    0 <= i < |ticks| && Up(ticks, i) && forall j :: i < j < |ticks| ==> !Down(ticks, j)
  }

  /** Tick i met its failure threshold, and no later tick met its success threshold. */
  ghost predicate LastDown(ticks: seq<Tick>, i: int) {
    0 <= i < |ticks| && Down(ticks, i) && forall j :: i < j < |ticks| ==> !Up(ticks, j)
  }

  lemma {:induction false} IdealCounts(ticks: seq<Tick>)
    ensures IdealAfter(ticks).successes == TrailingSuccesses(ticks)
    ensures IdealAfter(ticks).failures == TrailingFailures(ticks)
  {
    if ticks != [] { IdealCounts(ticks[..|ticks| - 1]); }
  }

  lemma PrefixVerdicts(ticks: seq<Tick>, n: nat)
    requires |ticks| == n + 1
    ensures forall i :: 0 <= i < n ==> Up(ticks[..n], i) == Up(ticks, i) && Down(ticks[..n], i) == Down(ticks, i)
    ensures Up(ticks, n) <==> TrailingSuccesses(ticks) >= SuccessesNeeded(ticks[n].spec)
    ensures Down(ticks, n) <==> TrailingFailures(ticks) >= FailuresNeeded(ticks[n].spec)
    ensures !(Up(ticks, n) && Down(ticks, n))
  {
    assert ticks[..n + 1] == ticks;
    forall i | 0 <= i < n ensures Up(ticks[..n], i) == Up(ticks, i) && Down(ticks[..n], i) == Down(ticks, i) {
      assert ticks[..n][..i + 1] == ticks[..i + 1];
    }
  }

  lemma ExtendUp(ticks: seq<Tick>, n: nat)
    requires |ticks| == n + 1
    ensures (exists i :: LastUp(ticks, i)) <==> Up(ticks, n) || (!Down(ticks, n) && exists i :: LastUp(ticks[..n], i))
  {
    PrefixVerdicts(ticks, n);
    if Up(ticks, n) {
      assert LastUp(ticks, n);
    } else {
      forall i | i < n && !Down(ticks, n) ensures LastUp(ticks, i) <==> LastUp(ticks[..n], i) {}
      if i :| LastUp(ticks[..n], i) { assert !Down(ticks, n) ==> LastUp(ticks, i); }
      if i :| LastUp(ticks, i) { assert i < n && LastUp(ticks[..n], i); }
    }
  }

  lemma ExtendDown(ticks: seq<Tick>, n: nat)
    requires |ticks| == n + 1
    ensures (exists i :: LastDown(ticks, i)) <==> Down(ticks, n) || (!Up(ticks, n) && exists i :: LastDown(ticks[..n], i))
  {
    PrefixVerdicts(ticks, n);
    if Down(ticks, n) {
      assert LastDown(ticks, n);
    } else {
      forall i | i < n && !Up(ticks, n) ensures LastDown(ticks, i) <==> LastDown(ticks[..n], i) {}
      if i :| LastDown(ticks[..n], i) { assert !Up(ticks, n) ==> LastDown(ticks, i); }
      if i :| LastDown(ticks, i) { assert i < n && LastDown(ticks[..n], i); }
    }
  }

  lemma {:induction false} IdealVerdicts(ticks: seq<Tick>)
    ensures IdealAfter(ticks).reachable <==> exists i :: LastUp(ticks, i)
    ensures IdealAfter(ticks).degraded <==> exists i :: LastDown(ticks, i)
    ensures !(IdealAfter(ticks).reachable && IdealAfter(ticks).degraded)
  {
    if ticks != [] {
      var n := |ticks| - 1;
      IdealVerdicts(ticks[..n]);
      IdealCounts(ticks[..n]);
      ExtendUp(ticks, n);
      ExtendDown(ticks, n);
      PrefixVerdicts(ticks, n);
    }
  }

  /** The trace specification.  After any probe sequence the device is reachable
      exactly if some tick's run of successes met its threshold and no later
      tick's run of failures met its own; it is degraded exactly in the mirror
      case; never both; and the reported failure count is the current run of
      failures in 32 bits, hence true until that run passes 2^31 - 1. */
  lemma VerdictsMatchHistory(ticks: seq<Tick>)
    ensures After(ticks).reachable <==> exists i :: LastUp(ticks, i)
    ensures After(ticks).degraded <==> exists i :: LastDown(ticks, i)
    ensures !(After(ticks).reachable && After(ticks).degraded)
    ensures After(ticks).failures == Wrap32(TrailingFailures(ticks))
    ensures After(ticks).failures == TrailingFailures(ticks) <==> TrailingFailures(ticks) <= 0x7FFF_FFFF
  {
    WrappingIsInvisible(ticks);
    IdealVerdicts(ticks);
    IdealCounts(ticks);
  }

  /** A verdict that is stored speaks for the whole history, whatever was lost
      before: it is reachable, or degraded, exactly as the history says. */
  lemma StoredVerdictIsCurrent(turns: seq<Turn>)
    requires turns != [] && turns[|turns| - 1].Probed? && turns[|turns| - 1].stored
    ensures Stored(turns) != []
    ensures var latest := Stored(turns)[|Stored(turns)| - 1];
            && (latest.deviceReachable <==> exists i :: LastUp(Ticks(turns), i))
            && (latest.degraded <==> exists i :: LastDown(Ticks(turns), i))
            && latest.failures == Wrap32(TrailingFailures(Ticks(turns)))
            && latest.lastSuccess == (var t := turns[|turns| - 1].tick; if t.success then Some(t.at) else None)
  {
    VerdictsMatchHistory(Ticks(turns));
  }

  // ---- hysteresis, in the thresholds' own terms ----

  /** The failure threshold in force is `f`: set to it, or not set and 3. */
  predicate FailsAt(t: Tick, f: int) {
    t.spec.failureThreshold == f > 0 || (t.spec.failureThreshold <= 0 && f == 3)
  }

  /** The success threshold in force is `n`: set to it, or not set and 1. */
  predicate RecoversAt(t: Tick, n: int) {
    t.spec.successThreshold == n > 0 || (t.spec.successThreshold <= 0 && n == 1)
  }

  lemma NextFailure(ticks: seq<Tick>, t: Tick, f: int)
    requires !t.success && FailsAt(t, f)
    ensures TrailingFailures(ticks + [t]) == TrailingFailures(ticks) + 1
    ensures After(ticks + [t]).reachable <==> After(ticks).reachable && TrailingFailures(ticks) + 1 < f
    ensures After(ticks + [t]).degraded <==> After(ticks).degraded || TrailingFailures(ticks) + 1 >= f
  {
    assert (ticks + [t])[..|ticks|] == ticks;
    WrappingIsInvisible(ticks);
    WrappingIsInvisible(ticks + [t]);
    IdealCounts(ticks);
  }

  lemma NextSuccess(ticks: seq<Tick>, t: Tick, n: int)
    requires t.success && RecoversAt(t, n)
    ensures TrailingSuccesses(ticks + [t]) == TrailingSuccesses(ticks) + 1
    ensures After(ticks + [t]).reachable <==> After(ticks).reachable || TrailingSuccesses(ticks) + 1 >= n
    ensures After(ticks + [t]).degraded <==> After(ticks).degraded && TrailingSuccesses(ticks) + 1 < n
  {
    assert (ticks + [t])[..|ticks|] == ticks;
    WrappingIsInvisible(ticks);
    WrappingIsInvisible(ticks + [t]);
    IdealCounts(ticks);
  }

  /** Failures in a row under one failure threshold: a reachable device stays so
      while they, with those that ended what came before, are fewer than the
      threshold; from then on it is unreachable and degraded. */
  lemma {:induction false} FailuresDegrade(before: seq<Tick>, run: seq<Tick>, f: int)
    requires run != [] && forall i :: 0 <= i < |run| ==> !run[i].success && FailsAt(run[i], f)
    ensures TrailingFailures(before + run) == TrailingFailures(before) + |run|
    ensures After(before + run).reachable <==> After(before).reachable && TrailingFailures(before) + |run| < f
    ensures After(before + run).degraded <==> After(before).degraded || TrailingFailures(before) + |run| >= f
  {
    var head, last := run[..|run| - 1], run[|run| - 1];
    assert (before + head) + [last] == before + run;
    if head == [] { assert before + head == before; } else { FailuresDegrade(before, head, f); }
    NextFailure(before + head, last, f);
  }

  /** Successes in a row under one success threshold: an unreachable device
      becomes reachable, and stops being degraded, with the one that completes
      the threshold and not before. */
  lemma {:induction false} SuccessesRecover(before: seq<Tick>, run: seq<Tick>, n: int)
    requires run != [] && forall i :: 0 <= i < |run| ==> run[i].success && RecoversAt(run[i], n)
    ensures TrailingSuccesses(before + run) == TrailingSuccesses(before) + |run|
    ensures After(before + run).reachable <==> After(before).reachable || TrailingSuccesses(before) + |run| >= n
    ensures After(before + run).degraded <==> After(before).degraded && TrailingSuccesses(before) + |run| < n
  {
    var head, last := run[..|run| - 1], run[|run| - 1];
    assert (before + head) + [last] == before + run;
    if head == [] { assert before + head == before; } else { SuccessesRecover(before, head, n); }
    NextSuccess(before + head, last, n);
  }
}

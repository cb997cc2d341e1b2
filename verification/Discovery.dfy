/** apps/z21-gateway/internal/detector/manager.go: what the gateway makes of the
    detector reports it collects. */
module Discovery {
  import opened Basics
  import opened Wire
  import opened SimRegistry

  /** One module seen during discovery. */
  datatype Discovered = Discovered(netID: uint16, addr: uint16, ports: set<uint8>)

  type Summary = map<uint16, Discovered>

  /** The report a message carries for the summary: none if it is not a report,
      or is one for the poll-all id; an error if it does not parse. */
  datatype Reading = Skipped | Unreadable | Of(report: Report)

  function Read(m: Message): Reading {
    if !m.Packet? || m.header != CanDetector then Skipped
    else
      match ParseReport(m.data)
      case None => Unreadable
      case Some(r) => if r.netID == POLL_ALL then Skipped else Of(r)
  }

  function Add(s: Summary, r: Report): Summary {
    var e := if r.netID in s then s[r.netID] else Discovered(r.netID, 0, {});
    s[r.netID := e.(addr := if e.addr == 0 then r.addr else e.addr, ports := e.ports + {r.port})]
  }

  /** The entries collected from a sequence of messages, and none at all if one is unreadable. */
  function Summarize(msgs: seq<Message>): Option<Summary> {
    if msgs == [] then Some(map[])
    else
      match Summarize(msgs[..|msgs| - 1])
      case None => None
      case Some(s) =>
        match Read(msgs[|msgs| - 1])
        case Skipped => Some(s)
        case Unreadable => None
        case Of(r) => Some(Add(s, r))
  }

  method SummarizeDiscovery(msgs: seq<Message>) returns (out: Option<seq<Discovered>>)
    ensures out.None? <==> Summarize(msgs).None?
    ensures out.Some? ==> IsEnumeration(out.value, Summarize(msgs).value)
  {
    var byNetID: Summary := map[];
    var i := 0;
    while i < |msgs|
      invariant 0 <= i <= |msgs|
      invariant Summarize(msgs[..i]) == Some(byNetID)
    {
      assert msgs[..i + 1][..i] == msgs[..i];
      var m := msgs[i];
      i := i + 1;
      if !m.Packet? || m.header != CanDetector { continue; }
      var report := ParseReport(m.data);
      if report.None? {
        UnreadableIsFinal(msgs, i);
        return None;
      }
      var r := report.value;
      if r.netID == POLL_ALL { continue; }
      var entry := if r.netID in byNetID then byNetID[r.netID] else Discovered(r.netID, 0, {});
      if entry.addr == 0 { entry := entry.(addr := r.addr); }
      entry := entry.(ports := entry.ports + {r.port});
      byNetID := byNetID[r.netID := entry];
    }
    assert msgs[..i] == msgs;
    SummaryKeys(msgs);
    var entries := Enumerate(byNetID);
    return Some(entries);
  }

  /** A summary as a list: each entry once, in any order. */
  ghost predicate IsEnumeration(ds: seq<Discovered>, s: Summary) {
    && Keyed(s)
    && (forall d :: d in ds <==> d.netID in s && s[d.netID] == d)
    && (forall i, j :: 0 <= i < j < |ds| ==> ds[i].netID != ds[j].netID)
  }

  ghost predicate Keyed(s: Summary) {
    forall n :: n in s ==> s[n].netID == n
  }

  method Enumerate(s: Summary) returns (out: seq<Discovered>)
    requires Keyed(s)
    ensures IsEnumeration(out, s)
  {
    out := [];
    var todo := s.Keys;
    while todo != {}
      invariant todo <= s.Keys
      invariant forall d :: d in out <==> d.netID in s.Keys - todo && s[d.netID] == d
      invariant forall i, j :: 0 <= i < j < |out| ==> out[i].netID != out[j].netID
      decreases todo
    {
      var n :| n in todo;
      assert forall i :: 0 <= i < |out| ==> out[i] in out;
      out := out + [s[n]];
      todo := todo - {n};
    }
  }

  lemma {:induction false} UnreadableIsFinal(msgs: seq<Message>, k: nat)
    requires k <= |msgs| && Summarize(msgs[..k]).None?
    ensures Summarize(msgs).None?
  {
    if k < |msgs| {
      assert msgs[..|msgs| - 1][..k] == msgs[..k];
      UnreadableIsFinal(msgs[..|msgs| - 1], k);
    } else {
      assert msgs[..k] == msgs;
    }
  }

  lemma {:induction false} SummaryKeys(msgs: seq<Message>)
    requires Summarize(msgs).Some?
    ensures Keyed(Summarize(msgs).value)
  {
    if msgs != [] { SummaryKeys(msgs[..|msgs| - 1]); }
  }

  // ---- what a summary contains ----

  ghost predicate HeardFrom(msgs: seq<Message>, n: uint16) {
    exists m :: m in msgs && Read(m).Of? && Read(m).report.netID == n
  }

  ghost predicate HeardPort(msgs: seq<Message>, n: uint16, p: uint8) {
    exists m :: m in msgs && Read(m).Of? && Read(m).report.netID == n && Read(m).report.port == p
  }

  /** The entry `s` has for a module heard from in `msgs`, always with address `a`. */
  ghost predicate Faithful(s: Summary, msgs: seq<Message>, n: uint16, a: uint16) {
    && (n in s <==> HeardFrom(msgs, n))
    && (n in s ==> s[n].netID == n && s[n].addr == a && forall p :: p in s[n].ports <==> HeardPort(msgs, n, p))
  }

  ghost predicate AllReadable(msgs: seq<Message>) {
    forall m :: m in msgs ==> !Read(m).Unreadable?
  }

  ghost predicate SpeaksWith(msgs: seq<Message>, n: uint16, a: uint16) {
    forall m :: m in msgs && Read(m).Of? && Read(m).report.netID == n ==> Read(m).report.addr == a
  }

  lemma {:induction false} SummaryFaithful(msgs: seq<Message>, n: uint16, a: uint16)
    requires AllReadable(msgs) && SpeaksWith(msgs, n, a)
    ensures Summarize(msgs).Some? && Faithful(Summarize(msgs).value, msgs, n, a)
  {
    if msgs != [] {
      var k := |msgs| - 1;
      var before, last := msgs[..k], msgs[k];
      assert msgs == before + [last];
      SummaryFaithful(before, n, a);
      AddFaithful(Summarize(before).value, before, last, n, a);
    }
  }

  lemma AddFaithful(s: Summary, before: seq<Message>, last: Message, n: uint16, a: uint16)
    requires Faithful(s, before, n, a) && !Read(last).Unreadable? && SpeaksWith(before + [last], n, a)
    ensures Faithful(if Read(last).Of? then Add(s, Read(last).report) else s, before + [last], n, a)
  {}

  /** The first address other than 0 that the messages report for a module, or 0. */
  function FirstReported(msgs: seq<Message>, n: uint16): uint16 {
    if msgs == [] then 0
    else
      var r := Read(msgs[0]);
      if r.Of? && r.report.netID == n && r.report.addr != 0 then r.report.addr else FirstReported(msgs[1..], n)
  }

  lemma {:induction false} FirstReportedLast(msgs: seq<Message>, n: uint16)
    requires msgs != []
    ensures var before, r := FirstReported(msgs[..|msgs| - 1], n), Read(msgs[|msgs| - 1]);
            FirstReported(msgs, n) ==
              if before == 0 && r.Of? && r.report.netID == n then r.report.addr else before
  {
    if |msgs| > 1 {
      FirstReportedLast(msgs[1..], n);
      assert msgs[1..][..|msgs| - 2] == msgs[..|msgs| - 1][1..];
    }
  }

  /** A summary of any messages, whatever they report: none if one is unreadable;
      else an entry for each module heard from, with the first address reported
      for it that is not 0 and every port it was heard on. */
  lemma {:induction false} SummaryOf(msgs: seq<Message>, n: uint16)
    ensures Summarize(msgs).Some? <==> AllReadable(msgs)
    ensures Summarize(msgs).Some? ==>
              var s := Summarize(msgs).value;
              && (n in s <==> HeardFrom(msgs, n))
              && (n in s ==> s[n].netID == n && s[n].addr == FirstReported(msgs, n)
                             && forall p :: p in s[n].ports <==> HeardPort(msgs, n, p))
              && (n !in s ==> FirstReported(msgs, n) == 0)
  {
    if msgs != [] {
      var before, last := msgs[..|msgs| - 1], msgs[|msgs| - 1];
      SummaryOf(before, n);
      FirstReportedLast(msgs, n);
      HeardLast(msgs, n);
    }
  }

  /** Who is heard from in one message more. */
  lemma HeardLast(msgs: seq<Message>, n: uint16)
    requires msgs != []
    ensures var before, r := msgs[..|msgs| - 1], Read(msgs[|msgs| - 1]);
            && (AllReadable(msgs) <==> AllReadable(before) && !r.Unreadable?)
            && (HeardFrom(msgs, n) <==> HeardFrom(before, n) || (r.Of? && r.report.netID == n))
            && forall p :: HeardPort(msgs, n, p) <==>
                 HeardPort(before, n, p) || (r.Of? && r.report.netID == n && r.report.port == p)
  {
    assert msgs == msgs[..|msgs| - 1] + [msgs[|msgs| - 1]];
  }

  // ---- polling the simulator ----

  /** The entry discovery should have for a registered detector. */
  function EntryOf(d: Device): Discovered {
    Discovered(d.netID, d.moduleAddr, set i | 0 <= i < |d.ports| :: i % 0x100)
  }

  /** What discovery should find: every detector but one registered under the poll-all id. */
  function Expected(reg: Registry): Summary {
    map n | n in reg && reg[n].kind == DetectorKind && n != POLL_ALL :: EntryOf(reg[n])
  }

  lemma ReadReport(d: Device, i: nat)
    requires i < |d.ports|
    ensures Read(ReportMessage(d, i)) ==
              if d.netID == POLL_ALL then Skipped
              else Of(Report(d.netID, d.moduleAddr, i % 0x100, OCCUPANCY, d.ports[i], 0))
  {}

  lemma PollReplyReads(reg: Registry, msgs: seq<Message>)
    requires RegistryInv(reg) && IsPollReply(reg, POLL_ALL, msgs)
    ensures AllReadable(msgs)
    ensures forall m :: m in msgs && Read(m).Of? ==>
              var r := Read(m).report;
              && Polled(reg, POLL_ALL, r.netID) && r.netID != POLL_ALL && r.addr == reg[r.netID].moduleAddr
              && exists i :: 0 <= i < |reg[r.netID].ports| && r.port == i % 0x100
  {}

  /** Discovery is exact.  For every sound registry, the answers to a poll-all,
      in any order and however often repeated, are summarised to exactly one
      entry per detector whose id is not the poll-all id, with its module
      address and the ports its reports can name. */
  lemma DiscoveryIsExact(reg: Registry, msgs: seq<Message>)
    requires RegistryInv(reg) && IsPollReply(reg, POLL_ALL, msgs)
    ensures Summarize(msgs) == Some(Expected(reg))
  {
    PollReplyReads(reg, msgs);
    SummaryFaithful(msgs, POLL_ALL, 0);
    var s := Summarize(msgs).value;
    forall n ensures n in s <==> n in Expected(reg)
      ensures n in s && n in Expected(reg) ==> s[n] == Expected(reg)[n]
    {
      EntryIsExact(reg, msgs, n);
    }
    assert s == Expected(reg);
  }

  /** Whom a full poll reply is heard from, and on which ports. */
  lemma PollReplyHeard(reg: Registry, msgs: seq<Message>, n: uint16)
    requires RegistryInv(reg) && IsPollReply(reg, POLL_ALL, msgs)
    ensures HeardFrom(msgs, n) <==> n in Expected(reg)
    ensures n in Expected(reg) ==> forall p :: HeardPort(msgs, n, p) <==> p in EntryOf(reg[n]).ports
  {
    PollReplyReads(reg, msgs);
    if n in Expected(reg) {
      assert Polled(reg, POLL_ALL, n);
      forall i | 0 <= i < |reg[n].ports| ensures HeardPort(msgs, n, i % 0x100) {
        ReadReport(reg[n], i);
        assert ReportMessage(reg[n], i) in msgs;
      }
      assert HeardPort(msgs, n, 0 % 0x100);
    }
  }

  lemma EntryIsExact(reg: Registry, msgs: seq<Message>, n: uint16)
    requires RegistryInv(reg) && IsPollReply(reg, POLL_ALL, msgs) && Summarize(msgs).Some?
    ensures var s := Summarize(msgs).value;
            && (n in s <==> n in Expected(reg))
            && (n in s ==> s[n] == Expected(reg)[n])
  {
    PollReplyReads(reg, msgs);
    PollReplyHeard(reg, msgs, n);
    var s := Summarize(msgs).value;
    SummaryFaithful(msgs, n, if n in reg then reg[n].moduleAddr else 0);
    if n in s { assert s[n].ports == EntryOf(reg[n]).ports; }
  }
}

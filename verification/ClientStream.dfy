/** From the hub to the client: what streamDevices writes of a subscription
    (apps/api/internal/api/stream.go), read back over a connection that may break. */
module ClientStream {
  import opened Basics
  import opened StreamHub
  import Sse

  /** What the handler's select picks next: an event from its channel, a
      keepalive tick, or the end of the request. */
  datatype Pick = TakeEvent | Tick | GiveUp

  function FrameOf(e: Event): Sse.Frame {
    Sse.Event(e.kind, e.body)
  }

  /** The turns of the handler's loop, taking the received events in order. */
  function Turns(picks: seq<Pick>, events: seq<Event>): seq<Sse.Turn> {
    if picks == [] then []
    else
      match picks[0]
      case Tick => [Sse.Turn.Frame(Sse.KeepAlive)] + Turns(picks[1..], events)
      case GiveUp => [Sse.Done]
      case TakeEvent =>
        if events == [] then [Sse.Closed]
        else [Sse.Turn.Frame(FrameOf(events[0]))] + Turns(picks[1..], events[1..])
  }

  /** The whole response: the snapshot, then the loop. */
  function Response(snapshot: Event, picks: seq<Pick>, events: seq<Event>): seq<Sse.Turn> {
    [Sse.Turn.Frame(FrameOf(snapshot))] + Turns(picks, events)
  }

  function Bodies(es: seq<Event>): seq<string> {
    seq(|es|, i requires 0 <= i < |es| => es[i].body)
  }

  /** An event whose type and JSON stay on their lines. */
  predicate Clean(e: Event) {
    Sse.OneLine(FrameOf(e))
  }

  /** How many events are taken before the loop ends. */
  function TakenBy(picks: seq<Pick>, events: seq<Event>): (n: nat)
    ensures n <= |events|
  {
    if picks == [] || picks[0] == GiveUp then 0
    else if picks[0] == Tick then TakenBy(picks[1..], events)
    else if events == [] then 0
    else 1 + TakenBy(picks[1..], events[1..])
  }

  lemma SentCons(f: Sse.Frame, turns: seq<Sse.Turn>)
    ensures Sse.Sent([Sse.Turn.Frame(f)] + turns) == [f] + Sse.Sent(turns)
  {
    assert ([Sse.Turn.Frame(f)] + turns)[1..] == turns;
  }

  lemma PayloadsOfSent(f: Sse.Frame, turns: seq<Sse.Turn>)
    ensures Sse.Payloads(Sse.Sent([Sse.Turn.Frame(f)] + turns))
         == (if f.Event? then [f.data] else []) + Sse.Payloads(Sse.Sent(turns))
  {
    SentCons(f, turns);
    Sse.PayloadsCons(f, Sse.Sent(turns));
    Sse.PayloadsOne(f);
  }

  lemma OneLineSent(f: Sse.Frame, turns: seq<Sse.Turn>)
    requires Sse.OneLine(f) && Sse.AllOneLine(Sse.Sent(turns))
    ensures Sse.AllOneLine(Sse.Sent([Sse.Turn.Frame(f)] + turns))
  {
    SentCons(f, turns);
  }

  /** The loop writes the bodies of the events it takes, in order, on clean lines. */
  lemma {:induction false} LoopWrites(picks: seq<Pick>, events: seq<Event>)
    requires forall e :: e in events ==> Clean(e)
    ensures Sse.Payloads(Sse.Sent(Turns(picks, events))) == Bodies(events[..TakenBy(picks, events)])
    ensures Sse.AllOneLine(Sse.Sent(Turns(picks, events)))
    decreases |picks|
  {
    if picks == [] || picks[0] == GiveUp || (picks[0] == TakeEvent && events == []) {
      assert events[..0] == [];
    } else if picks[0] == Tick {
      LoopWrites(picks[1..], events);
      PayloadsOfSent(Sse.KeepAlive, Turns(picks[1..], events));
      OneLineSent(Sse.KeepAlive, Turns(picks[1..], events));
    } else {
      var e, rest := events[0], events[1..];
      assert e in events && forall x :: x in rest ==> x in events;
      LoopWrites(picks[1..], rest);
      PayloadsOfSent(FrameOf(e), Turns(picks[1..], rest));
      OneLineSent(FrameOf(e), Turns(picks[1..], rest));
      var n := TakenBy(picks[1..], rest);
      assert Bodies(events[..n + 1]) == [e.body] + Bodies(rest[..n]);
    }
  }

  lemma ResponseWrites(snapshot: Event, picks: seq<Pick>, events: seq<Event>)
    requires Clean(snapshot) && forall e :: e in events ==> Clean(e)
    ensures var sent := Sse.Sent(Response(snapshot, picks, events));
            && Sse.Payloads(sent) == Bodies([snapshot] + events[..TakenBy(picks, events)])
            && Sse.AllOneLine(sent)
  {
    LoopWrites(picks, events);
    PayloadsOfSent(FrameOf(snapshot), Turns(picks, events));
    OneLineSent(FrameOf(snapshot), Turns(picks, events));
    var taken := events[..TakenBy(picks, events)];
    assert Bodies([snapshot] + taken) == [snapshot.body] + Bodies(taken);
  }

  /** The payloads handed over are bodies of these events, in order, the last perhaps only in part. */
  ghost predicate HandedOf(handed: seq<string>, es: seq<Event>) {
    && |handed| == |es|
    && (forall i :: 0 <= i < |es| - 1 ==> handed[i] == es[i].body)
    && (es != [] ==> handed[|es| - 1] != "" && handed[|es| - 1] <= es[|es| - 1].body)
  }

  lemma TruncatedHanded(handed: seq<string>, es: seq<Event>)
    requires Sse.TruncatedTo(handed, Bodies(es)) && forall e :: e in es ==> Clean(e)
    ensures |handed| <= |es| && HandedOf(handed, es[..|handed|])
  {
    var n := |handed|;
    if n > 0 {
      assert es[n - 1] in es;
      if handed == Bodies(es)[..n] {
        assert forall i :: 0 <= i < n ==> handed[i] == Bodies(es)[i] == es[i].body;
      } else {
        assert forall i :: 0 <= i < n - 1 ==> handed[i] == handed[..n - 1][i] == Bodies(es)[..n - 1][i] == es[i].body;
      }
    }
  }

  // ---- subsequences ----

  lemma {:induction false} PrefixIsSubsequence(a: seq<Event>, b: seq<Event>, n: nat)
    requires Subsequence(a, b) && n <= |a|
    ensures Subsequence(a[..n], b)
    decreases |a| + |b|
  {
    if n == |a| {
      assert a[..n] == a;
    } else if b != [] {
      var a', b' := a[..|a| - 1], b[..|b| - 1];
      if a[|a| - 1] == b[|b| - 1] && Subsequence(a', b') {
        PrefixIsSubsequence(a', b', n);
        assert a'[..n] == a[..n];
      } else {
        PrefixIsSubsequence(a, b', n);
      }
    }
  }

  // ---- the whole way ----

  /** The subscription's events are clean. */
  ghost predicate CleanWorld(w: World, c: ChanId)
    requires c in w.hist
  {
    forall e :: e in w.hist[c].received ==> Clean(e)
  }

  /** Whatever the interleaving of the hub, the handler's choices, the reader's
      refusals and the break of the connection, a client is handed nothing, or
      the snapshot and after it, in order, bodies of events published to its
      namespace during its subscription; all whole, except that the last thing
      handed over may be a non-empty part. */
  lemma ClientSeesItsEvents(steps: seq<Step>, c: ChanId, snapshot: Event, picks: seq<Pick>,
                            limit: Option<nat>, accepts: string -> bool)
    requires IsRun(steps) && c in After(steps).hub.chans
    requires c in After(steps).hist && Clean(snapshot) && CleanWorld(After(steps), c)
    ensures var w := After(steps);
            var text := Sse.Clip(Sse.Write(Sse.Sent(Response(snapshot, picks, w.hist[c].received))), limit);
            var handed := Sse.Read(accepts, text).0;
            && Spans(w, c)
            && (handed == []
                || exists seen :: Subsequence(seen, Offered(w, c)) && HandedOf(handed, [snapshot] + seen))
  {
    var w := After(steps);
    var events := w.hist[c].received;
    SubscribersSeeTheirEvents(steps, c);
    ResponseWrites(snapshot, picks, events);
    Sse.BrokenStreamIsTruncated(accepts, Response(snapshot, picks, events), limit);
    var text := Sse.Clip(Sse.Write(Sse.Sent(Response(snapshot, picks, events))), limit);
    var handed := Sse.Read(accepts, text).0;
    if handed != [] { SeenEvents(handed, snapshot, events, TakenBy(picks, events), w.hub.chans[c].buf, Offered(w, c)); }
  }

  lemma SeenEvents(handed: seq<string>, snapshot: Event, events: seq<Event>, n: nat, buf: seq<Event>, offered: seq<Event>)
    requires handed != [] && n <= |events| && Clean(snapshot) && forall e :: e in events ==> Clean(e)
    requires Sse.TruncatedTo(handed, Bodies([snapshot] + events[..n])) && Subsequence(events + buf, offered)
    ensures exists seen :: Subsequence(seen, offered) && HandedOf(handed, [snapshot] + seen)
  {
    var all := [snapshot] + events[..n];
    assert forall e :: e in all ==> e == snapshot || e in events;
    TruncatedHanded(handed, all);
    var m := |handed| - 1;
    var seen := events[..m];
    assert all[..|handed|] == [snapshot] + seen;
    PrefixIsSubsequence(events + buf, offered, m);
    assert (events + buf)[..m] == seen;
  }

  /** When nothing is lost, exactly: if no event was dropped, all are received
      and taken, and the connection holds, then the client is handed the
      snapshot and every event offered, and its read ends cleanly, if and only
      if every one of them fits its buffer and is accepted. */
  lemma NothingLost(steps: seq<Step>, c: ChanId, snapshot: Event, picks: seq<Pick>, accepts: string -> bool)
    requires IsRun(steps) && c in After(steps).hub.chans
    requires c in After(steps).hist && Clean(snapshot) && CleanWorld(After(steps), c)
    requires After(steps).hist[c].dropped == 0 && After(steps).hub.chans[c].buf == []
    requires TakenBy(picks, After(steps).hist[c].received) == |After(steps).hist[c].received|
    ensures var w := After(steps);
            var sent := Sse.Sent(Response(snapshot, picks, w.hist[c].received));
            && Spans(w, c)
            && (Sse.Read(accepts, Sse.Write(sent)) == (Bodies([snapshot] + Offered(w, c)), None) <==>
                  forall i :: 0 <= i < |sent| ==> Sse.Passes(accepts, sent[i]))
  {
    var w := After(steps);
    var events := w.hist[c].received;
    SubscribersSeeTheirEvents(steps, c);
    ResponseWrites(snapshot, picks, events);
    assert events + [] == events == events[..|events|];
    Sse.RoundTripExact(accepts, Sse.Sent(Response(snapshot, picks, events)));
  }
}

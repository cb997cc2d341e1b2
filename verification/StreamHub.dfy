/** apps/api/internal/api/stream.go: the hub that fans device events out to
    subscribers over bounded channels.

    A publish holds the read lock throughout and a subscription or the first
    half of a cancel holds the write lock.  The read lock is shared, but the only
    publisher is one informer's event handler, which is called for one event at
    a time (apps/api/internal/k8s/watch.go:42-64); so each of the three is one
    step.  A receive, and the second half of a cancel (closing the channel),
    happen outside the lock at any point between those steps. */
module StreamHub {
  import opened Basics

  const CAPACITY: nat := 32

  datatype Event = Event(kind: string, body: string)

  type ChanId = nat

  datatype Channel = Channel(ns: string, buf: seq<Event>, closed: bool)

  datatype Hub = Hub(subscribers: map<string, set<ChanId>>, chans: map<ChanId, Channel>, next: ChanId, panicked: bool)

  const EMPTY := Hub(map[], map[], 0, false)

  function Subscribers(h: Hub, ns: string): set<ChanId> {
    if ns in h.subscribers then h.subscribers[ns] else {}
  }

  /** A non-blocking send: a full buffer drops the event. */
  function Send(ch: Channel, e: Event): Channel {
    if !ch.closed && |ch.buf| < CAPACITY then ch.(buf := ch.buf + [e]) else ch
  }

  function Subscribe(h: Hub, ns: string): Hub {
    h.(subscribers := h.subscribers[ns := Subscribers(h, ns) + {h.next}],
       chans := h.chans[h.next := Channel(ns, [], false)], next := h.next + 1)
  }

  /** Sending to a closed channel panics. */
  function Publish(h: Hub, ns: string, e: Event): Hub {
    h.(chans := map c | c in h.chans :: if c in Subscribers(h, ns) then Send(h.chans[c], e) else h.chans[c],
       panicked := h.panicked || exists c :: c in Subscribers(h, ns) && c in h.chans && h.chans[c].closed)
  }

  function Receive(h: Hub, c: ChanId): Hub
    requires c in h.chans
  {
    if h.chans[c].buf == [] then h else h.(chans := h.chans[c := h.chans[c].(buf := h.chans[c].buf[1..])])
  }

  /** The first half of a cancel: out of the subscriber map, and the map entry with the last one. */
  function Detach(h: Hub, c: ChanId): Hub
    requires c in h.chans
  {
    var ns := h.chans[c].ns;
    if ns !in h.subscribers then h
    else
      var left := h.subscribers[ns] - {c};
      h.(subscribers := if left == {} then h.subscribers - {ns} else h.subscribers[ns := left])
  }

  /** The second half: closing twice panics. */
  function Close(h: Hub, c: ChanId): Hub
    requires c in h.chans
  {
    if h.chans[c].closed then h.(panicked := true) else h.(chans := h.chans[c := h.chans[c].(closed := true)])
  }

  /** The hub as it is mutated.  Channels are known by their creation order. */
  class DeviceStreamHub {
    var subscribers: map<string, set<ChanId>>
    var chans: map<ChanId, Channel>
    var next: ChanId
    var panicked: bool

    ghost function View(): Hub
      reads this
    {
      Hub(subscribers, chans, next, panicked)
    }

    /** Every registered subscriber is a channel. */
    ghost predicate Valid()
      reads this
    {
      forall ns :: ns in subscribers ==> subscribers[ns] <= chans.Keys
    }

    constructor ()
      ensures Valid() && View() == EMPTY
    {
      subscribers, chans, next, panicked := map[], map[], 0, false;
    }

    method SubscribeTo(ns: string) returns (c: ChanId)
      requires Valid()
      modifies this
      ensures Valid()
      ensures c == old(next) && View() == Subscribe(old(View()), ns)
    {
      c := next;
      chans := chans[c := Channel(ns, [], false)];
      next := next + 1;
      if ns !in subscribers { subscribers := subscribers[ns := {}]; }
      subscribers := subscribers[ns := subscribers[ns] + {c}];
    }

    method PublishTo(ns: string, e: Event)
      requires Valid()
      modifies this
      ensures Valid()
      ensures View() == Publish(old(View()), ns, e)
    {
      ghost var h := View();
      var todo := if ns in subscribers then subscribers[ns] else {};
      while todo != {}
        invariant subscribers == h.subscribers && next == h.next && todo <= Subscribers(h, ns)
        invariant chans.Keys == h.chans.Keys
        invariant forall c :: c in chans ==>
                    chans[c] == if c in Subscribers(h, ns) - todo then Send(h.chans[c], e) else h.chans[c]
        invariant panicked <==> h.panicked || exists c :: c in Subscribers(h, ns) - todo && h.chans[c].closed
        decreases todo
      {
        var c :| c in todo;
        SendTo(c, e);
        todo := todo - {c};
      }
    }

    method SendTo(c: ChanId, e: Event)
      requires c in chans
      modifies this`chans, this`panicked
      ensures chans == old(chans)[c := Send(old(chans[c]), e)]
      ensures panicked <==> old(panicked) || old(chans[c].closed)
    {
      if chans[c].closed {
        panicked := true;
      } else if |chans[c].buf| < CAPACITY {
        chans := chans[c := chans[c].(buf := chans[c].buf + [e])];
      }
      assert chans == old(chans)[c := chans[c]];
    }

    method ReceiveFrom(c: ChanId) returns (e: Option<Event>)
      requires Valid() && c in chans
      modifies this
      ensures Valid()
      ensures View() == Receive(old(View()), c)
      ensures e == if old(chans[c].buf) == [] then None else Some(old(chans[c].buf)[0])
    {
      if chans[c].buf == [] { return None; }
      e := Some(chans[c].buf[0]);
      chans := chans[c := chans[c].(buf := chans[c].buf[1..])];
    }

    method CancelDetach(c: ChanId)
      requires Valid() && c in chans
      modifies this
      ensures Valid()
      ensures View() == Detach(old(View()), c)
    {
      var ns := chans[c].ns;
      if ns in subscribers {
        var subs := subscribers[ns] - {c};
        subscribers := subscribers[ns := subs];
        if subs == {} { subscribers := subscribers - {ns}; }
      }
    }

    method CancelClose(c: ChanId)
      requires Valid() && c in chans
      modifies this
      ensures Valid()
      ensures View() == Close(old(View()), c)
    {
      if chans[c].closed { panicked := true; } else { chans := chans[c := chans[c].(closed := true)]; }
    }
  }

  // ---- runs, with their history ----

  datatype Step =
    | DoSubscribe(ns: string)
    | DoPublish(ns: string, event: Event)
    | DoReceive(chan: ChanId)
    | DoDetach(chan: ChanId)
    | DoClose(chan: ChanId)

  /** What one subscription has seen: where in the publication log it began and
      was cancelled, what its reader took out, and how often its buffer was full. */
  datatype History = History(since: nat, until: Option<nat>, received: seq<Event>, dropped: nat)

  datatype World = World(hub: Hub, log: seq<(string, Event)>, hist: map<ChanId, History>)

  const START := World(EMPTY, [], map[])

  /** A channel can be received from and cancelled once it exists; a cancel
      closes it only after detaching it. */
  predicate Enabled(w: World, step: Step) {
    match step
    case DoSubscribe(_) => true
    case DoPublish(_, _) => true
    case DoReceive(c) => c in w.hub.chans && c in w.hist
    case DoDetach(c) => c in w.hub.chans && c in w.hist
    case DoClose(c) => c in w.hub.chans && c in w.hist && w.hist[c].until.Some?
  }

  function Missed(h: Hub, ns: string, c: ChanId): nat {
    if c in Subscribers(h, ns) && c in h.chans && |h.chans[c].buf| >= CAPACITY then 1 else 0
  }

  function Apply(w: World, step: Step): World
    requires Enabled(w, step)
  {
    var h := w.hub;
    match step
    case DoSubscribe(ns) => World(Subscribe(h, ns), w.log, w.hist[h.next := History(|w.log|, None, [], 0)])
    case DoPublish(ns, e) =>
      World(Publish(h, ns, e), w.log + [(ns, e)],
            map c | c in w.hist :: w.hist[c].(dropped := w.hist[c].dropped + Missed(h, ns, c)))
    case DoReceive(c) =>
      World(Receive(h, c), w.log,
            if h.chans[c].buf == [] then w.hist
            else w.hist[c := w.hist[c].(received := w.hist[c].received + [h.chans[c].buf[0]])])
    case DoDetach(c) =>
      World(Detach(h, c), w.log,
            if w.hist[c].until.Some? then w.hist else w.hist[c := w.hist[c].(until := Some(|w.log|))])
    case DoClose(c) => World(Close(h, c), w.log, w.hist)
  }

  predicate IsRun(steps: seq<Step>) {
    steps == [] || (IsRun(steps[..|steps| - 1]) && Enabled(After(steps[..|steps| - 1]), steps[|steps| - 1]))
  }

  /** Where a run leads; a step the world does not admit leaves it alone. */
  function After(steps: seq<Step>): World {
    if steps == [] then START
    else
      var w := After(steps[..|steps| - 1]);
      if Enabled(w, steps[|steps| - 1]) then Apply(w, steps[|steps| - 1]) else w
  }

  // ---- the invariant ----

  /** The events of one namespace, in order. */
  function Only(ns: string, log: seq<(string, Event)>): seq<Event> {
    if log == [] then []
    else Only(ns, log[..|log| - 1]) + (if log[|log| - 1].0 == ns then [log[|log| - 1].1] else [])
  }

  predicate Subsequence(a: seq<Event>, b: seq<Event>) {
    if a == [] then true
    else if b == [] then false
    else (a[|a| - 1] == b[|b| - 1] && Subsequence(a[..|a| - 1], b[..|b| - 1])) || Subsequence(a, b[..|b| - 1])
  }

  /** The events published to a subscription's namespace while it was registered. */
  function Offered(w: World, c: ChanId): seq<Event>
    requires c in w.hist && c in w.hub.chans && Spans(w, c)
  {
    var end := if w.hist[c].until.Some? then w.hist[c].until.value else |w.log|;
    Only(w.hub.chans[c].ns, w.log[w.hist[c].since..end])
  }

  predicate Spans(w: World, c: ChanId)
    requires c in w.hist
  {
    w.hist[c].since <= (if w.hist[c].until.Some? then w.hist[c].until.value else |w.log|) <= |w.log|
  }

  function Taken(w: World, c: ChanId): seq<Event>
    requires c in w.hist && c in w.hub.chans
  {
    w.hist[c].received + w.hub.chans[c].buf
  }

  /** One subscription's part: registered in its own namespace exactly until its
      cancel, closed only after it, its buffer bounded, and its events accounted for. */
  ghost predicate ChanInv(w: World, c: ChanId)
    requires c in w.hist && c in w.hub.chans
  {
    var ch, hi := w.hub.chans[c], w.hist[c];
    && (forall ns :: c in Subscribers(w.hub, ns) <==> ns == ch.ns && hi.until.None?)
    && (ch.closed ==> hi.until.Some?)
    && |ch.buf| <= CAPACITY
    && Spans(w, c)
    && Accounted(Taken(w, c), Offered(w, c), hi.dropped)
  }

  /** `taken` is `offered` less `dropped` of its events. */
  ghost predicate Accounted(taken: seq<Event>, offered: seq<Event>, dropped: nat) {
    Subsequence(taken, offered) && |offered| == |taken| + dropped
  }

  ghost predicate Shape(w: World) {
    && w.hist.Keys == w.hub.chans.Keys
    && (forall c :: c in w.hub.chans ==> c < w.hub.next)
    && (forall ns :: Subscribers(w.hub, ns) <= w.hub.chans.Keys)
    && (forall ns :: ns in w.hub.subscribers ==> w.hub.subscribers[ns] != {})
  }

  ghost predicate WorldInv(w: World) {
    Shape(w) && forall c :: c in w.hist && c in w.hub.chans ==> ChanInv(w, c)
  }

  lemma AccountOffer(taken: seq<Event>, offered: seq<Event>, dropped: nat, e: Event)
    requires Accounted(taken, offered, dropped)
    ensures Accounted(taken + [e], offered + [e], dropped) && Accounted(taken, offered + [e], dropped + 1)
  {}

  lemma {:induction false} SubsequenceLength(a: seq<Event>, b: seq<Event>)
    requires Subsequence(a, b)
    ensures |a| <= |b| && (|a| == |b| ==> a == b)
  {
    if a != [] {
      var a', b' := a[..|a| - 1], b[..|b| - 1];
      if a[|a| - 1] == b[|b| - 1] && Subsequence(a', b') {
        SubsequenceLength(a', b');
        assert a == a' + [a[|a| - 1]] && b == b' + [b[|b| - 1]];
      } else {
        SubsequenceLength(a, b');
      }
    }
  }

  lemma OnlyGrows(ns: string, log: seq<(string, Event)>, from: nat, x: (string, Event))
    requires from <= |log|
    ensures Only(ns, (log + [x])[from..]) == Only(ns, log[from..]) + (if x.0 == ns then [x.1] else [])
  {
    var l := (log + [x])[from..];
    assert l[|l| - 1] == x && l[..|l| - 1] == log[from..];
  }

  /** What a publish offers a subscription. */
  lemma PublishOffers(w: World, ns: string, e: Event, c: ChanId)
    requires c in w.hist && c in w.hub.chans && Spans(w, c)
    ensures var w' := Apply(w, DoPublish(ns, e));
            && c in w'.hist && c in w'.hub.chans && Spans(w', c)
            && Offered(w', c) == Offered(w, c) + (if w.hist[c].until.None? && ns == w.hub.chans[c].ns then [e] else [])
  {
    var w', hi := Apply(w, DoPublish(ns, e)), w.hist[c];
    if hi.until.Some? {
      assert w'.log[hi.since..hi.until.value] == w.log[hi.since..hi.until.value];
      assert Offered(w, c) + [] == Offered(w, c);
    } else {
      OnlyGrows(w.hub.chans[c].ns, w.log, hi.since, (ns, e));
      assert w.log[hi.since..|w.log|] == w.log[hi.since..];
      assert w'.log[hi.since..|w'.log|] == (w.log + [(ns, e)])[hi.since..];
    }
  }

  /** What a publish puts in its buffer. */
  lemma PublishSends(w: World, ns: string, e: Event, c: ChanId)
    requires c in w.hist && c in w.hub.chans && (w.hub.chans[c].closed ==> c !in Subscribers(w.hub, ns))
    ensures var w' := Apply(w, DoPublish(ns, e));
            var sent := c in Subscribers(w.hub, ns) && |w.hub.chans[c].buf| < CAPACITY;
            && Taken(w', c) == Taken(w, c) + (if sent then [e] else [])
            && w'.hub.chans[c] == w.hub.chans[c].(buf := w.hub.chans[c].buf + (if sent then [e] else []))
  {}

  lemma PublishKeepsChan(w: World, ns: string, e: Event, c: ChanId)
    requires c in w.hist && c in w.hub.chans && ChanInv(w, c)
    ensures ChanInv(Apply(w, DoPublish(ns, e)), c)
  {
    var w' := Apply(w, DoPublish(ns, e));
    PublishOffers(w, ns, e, c);
    PublishSends(w, ns, e, c);
    AccountOffer(Taken(w, c), Offered(w, c), w.hist[c].dropped, e);
    assert forall n :: Subscribers(w'.hub, n) == Subscribers(w.hub, n);
    if c !in Subscribers(w.hub, ns) {
      assert Offered(w, c) + [] == Offered(w, c) && Taken(w, c) + [] == Taken(w, c);
    }
  }

  lemma ReceiveKeepsChan(w: World, c: ChanId)
    requires c in w.hist && c in w.hub.chans && ChanInv(w, c)
    ensures ChanInv(Apply(w, DoReceive(c)), c)
  {
    var w' := Apply(w, DoReceive(c));
    assert forall n :: Subscribers(w'.hub, n) == Subscribers(w.hub, n);
    if w.hub.chans[c].buf != [] { MoveHead(w.hist[c].received, w.hub.chans[c].buf); }
    assert Taken(w', c) == Taken(w, c) && Offered(w', c) == Offered(w, c);
  }

  lemma MoveHead(received: seq<Event>, buf: seq<Event>)
    requires buf != []
    ensures (received + [buf[0]]) + buf[1..] == received + buf
  {}

  lemma DetachSubscribers(w: World, c: ChanId)
    requires c in w.hist && c in w.hub.chans && ChanInv(w, c)
    ensures forall ns :: Subscribers(Detach(w.hub, c), ns) == Subscribers(w.hub, ns) - {c}
  {}

  lemma CancelKeepsChan(w: World, c: ChanId)
    requires c in w.hist && c in w.hub.chans && ChanInv(w, c)
    ensures ChanInv(Apply(w, DoDetach(c)), c)
    ensures w.hist[c].until.Some? ==> ChanInv(Apply(w, DoClose(c)), c)
  {
    var d := Apply(w, DoDetach(c));
    DetachSubscribers(w, c);
    assert Taken(d, c) == Taken(w, c) && Offered(d, c) == Offered(w, c);
    if w.hist[c].until.Some? {
      var l := Apply(w, DoClose(c));
      assert forall n :: Subscribers(l.hub, n) == Subscribers(w.hub, n);
      assert Taken(l, c) == Taken(w, c) && Offered(l, c) == Offered(w, c);
    }
  }

  /** Steps of other subscriptions leave a subscription alone. */
  lemma OthersKeepChan(w: World, step: Step, c: ChanId)
    requires Enabled(w, step) && c in w.hist && c in w.hub.chans && ChanInv(w, c)
    requires step.DoSubscribe? ==> c != w.hub.next
    requires step.DoReceive? || step.DoDetach? || step.DoClose? ==>
               step.chan != c && step.chan in w.hub.chans && ChanInv(w, step.chan)
    requires !step.DoPublish?
    ensures ChanInv(Apply(w, step), c)
  {
    var w' := Apply(w, step);
    assert w'.log == w.log && w'.hist[c] == w.hist[c] && w'.hub.chans[c] == w.hub.chans[c];
    if step.DoDetach? { DetachSubscribers(w, step.chan); }
    forall ns ensures c in Subscribers(w'.hub, ns) <==> c in Subscribers(w.hub, ns) {}
    assert Taken(w', c) == Taken(w, c) && Offered(w', c) == Offered(w, c);
  }

  /** How a step changes each namespace's subscribers. */
  lemma StepSubscribers(w: World, step: Step)
    requires WorldInv(w) && Enabled(w, step)
    ensures forall ns :: Subscribers(Apply(w, step).hub, ns) ==
              if step == DoSubscribe(ns) then Subscribers(w.hub, ns) + {w.hub.next}
              else if step.DoDetach? then Subscribers(w.hub, ns) - {step.chan}
              else Subscribers(w.hub, ns)
  {
    if step.DoDetach? { DetachSubscribers(w, step.chan); }
  }

  lemma NewChan(w: World, ns: string)
    requires WorldInv(w)
    ensures ChanInv(Apply(w, DoSubscribe(ns)), w.hub.next)
  {
    var w', c := Apply(w, DoSubscribe(ns)), w.hub.next;
    StepSubscribers(w, DoSubscribe(ns));
    assert forall n :: c !in Subscribers(w.hub, n);
    assert w'.log[|w.log|..|w.log|] == [];
    assert Taken(w', c) == [] == Offered(w', c);
  }

  lemma StepKeepsShape(w: World, step: Step)
    requires WorldInv(w) && Enabled(w, step)
    ensures Shape(Apply(w, step))
  {
    StepChannels(w, step);
    SubscribersStayChannels(w, step);
    NoEmptyEntries(w, step);
  }

  lemma SubscribersStayChannels(w: World, step: Step)
    requires WorldInv(w) && Enabled(w, step)
    ensures forall ns :: Subscribers(Apply(w, step).hub, ns) <= Apply(w, step).hub.chans.Keys
  {
    StepSubscribers(w, step);
    StepChannels(w, step);
    SubscribersAreChannels(w.hub, Apply(w, step).hub, if step.DoSubscribe? then {w.hub.next} else {});
  }

  lemma SubscribersAreChannels(h: Hub, h': Hub, added: set<ChanId>)
    requires h'.chans.Keys == h.chans.Keys + added
    requires forall ns :: Subscribers(h, ns) <= h.chans.Keys && Subscribers(h', ns) <= Subscribers(h, ns) + added
    ensures forall ns :: Subscribers(h', ns) <= h'.chans.Keys
  {}

  lemma StepChannels(w: World, step: Step)
    requires Shape(w) && Enabled(w, step)
    ensures var w' := Apply(w, step);
            && w'.hist.Keys == w'.hub.chans.Keys
            && w'.hub.chans.Keys == w.hub.chans.Keys + (if step.DoSubscribe? then {w.hub.next} else {})
            && w'.hub.next == w.hub.next + (if step.DoSubscribe? then 1 else 0)
  {}

  /** A namespace nobody watches has no entry. */
  lemma NoEmptyEntries(w: World, step: Step)
    requires Shape(w) && Enabled(w, step)
    ensures forall ns :: ns in Apply(w, step).hub.subscribers ==> Apply(w, step).hub.subscribers[ns] != {}
  {
    if step.DoSubscribe? { assert w.hub.next in Subscribers(w.hub, step.ns) + {w.hub.next}; }
  }

  lemma StepKeepsChan(w: World, step: Step, c: ChanId)
    requires WorldInv(w) && Enabled(w, step)
    requires c in Apply(w, step).hist && c in Apply(w, step).hub.chans
    ensures ChanInv(Apply(w, step), c)
  {
    match step
    case DoSubscribe(ns) => if c == w.hub.next { NewChan(w, ns); } else { OthersKeepChan(w, step, c); }
    case DoPublish(ns, e) => PublishKeepsChan(w, ns, e, c);
    case DoReceive(d) => if c == d { ReceiveKeepsChan(w, c); } else { OthersKeepChan(w, step, c); }
    case DoDetach(d) => if c == d { CancelKeepsChan(w, c); } else { OthersKeepChan(w, step, c); }
    case DoClose(d) => if c == d { CancelKeepsChan(w, c); } else { OthersKeepChan(w, step, c); }
  }

  lemma StepKeepsInv(w: World, step: Step)
    requires WorldInv(w) && Enabled(w, step)
    ensures WorldInv(Apply(w, step))
  {
    StepKeepsShape(w, step);
    forall c | c in Apply(w, step).hist && c in Apply(w, step).hub.chans ensures ChanInv(Apply(w, step), c) {
      StepKeepsChan(w, step, c);
    }
  }

  lemma {:induction false} RunKeepsInv(steps: seq<Step>)
    requires IsRun(steps)
    ensures WorldInv(After(steps))
  {
    if steps != [] {
      RunKeepsInv(steps[..|steps| - 1]);
      StepKeepsInv(After(steps[..|steps| - 1]), steps[|steps| - 1]);
    }
  }

  /** A publication to `ns` finds the 32 slots of `c`, a subscriber, taken. */
  ghost predicate FindsFull(w: World, ns: string, c: ChanId) {
    c in Subscribers(w.hub, ns) && c in w.hub.chans && |w.hub.chans[c].buf| >= 32
  }

  /** No publication of the run found `c` full. */
  ghost predicate AlwaysRoom(steps: seq<Step>, c: ChanId) {
    forall i :: 0 <= i < |steps| && steps[i].DoPublish? ==> !FindsFull(After(steps[..i]), steps[i].ns, c)
  }

  lemma RoomUpTo(steps: seq<Step>, c: ChanId)
    requires steps != []
    ensures var before, last := steps[..|steps| - 1], steps[|steps| - 1];
            AlwaysRoom(steps, c) <==>
              AlwaysRoom(before, c) && (last.DoPublish? ==> !FindsFull(After(before), last.ns, c))
  {
    var before, last := steps[..|steps| - 1], steps[|steps| - 1];
    assert forall i :: 0 <= i < |before| ==> before[i] == steps[i] && before[..i] == steps[..i];
    if AlwaysRoom(before, c) && (last.DoPublish? ==> !FindsFull(After(before), last.ns, c)) {
      forall i | 0 <= i < |steps| && steps[i].DoPublish? ensures !FindsFull(After(steps[..i]), steps[i].ns, c) {
        if i < |before| { assert before[i].DoPublish?; }
      }
    }
    if AlwaysRoom(steps, c) {
      forall i | 0 <= i < |before| && before[i].DoPublish? ensures !FindsFull(After(before[..i]), before[i].ns, c) {
        assert steps[i].DoPublish?;
      }
    }
  }

  lemma {:induction false} RoomBeforeBirth(steps: seq<Step>, c: ChanId)
    requires IsRun(steps) && c !in After(steps).hub.chans
    ensures AlwaysRoom(steps, c)
  {
    if steps != [] {
      var before, last := steps[..|steps| - 1], steps[|steps| - 1];
      RunKeepsInv(before);
      StepChannels(After(before), last);
      RoomBeforeBirth(before, c);
      RoomUpTo(steps, c);
    }
  }

  /** What one step adds to the events a subscription lost. */
  lemma StepDrops(w: World, step: Step, c: ChanId)
    requires Shape(w) && Enabled(w, step) && c in w.hist
    ensures c in Apply(w, step).hist
    ensures Apply(w, step).hist[c].dropped ==
              w.hist[c].dropped + (if step.DoPublish? && FindsFull(w, step.ns, c) then 1 else 0)
  {}

  lemma BornEmpty(w: World, step: Step, c: ChanId)
    requires Shape(w) && Enabled(w, step) && c !in w.hist && c in Apply(w, step).hist
    ensures !step.DoPublish? && Apply(w, step).hist[c].dropped == 0
  {}

  /** A subscription lost an event exactly if some publication found it full. */
  lemma {:induction false} LosesOnlyWhenFull(steps: seq<Step>, c: ChanId)
    requires IsRun(steps) && c in After(steps).hist
    ensures After(steps).hist[c].dropped == 0 <==> AlwaysRoom(steps, c)
  {
    if steps != [] {
      var before, last := steps[..|steps| - 1], steps[|steps| - 1];
      RunKeepsInv(before);
      RoomUpTo(steps, c);
      if c in After(before).hist {
        LosesOnlyWhenFull(before, c);
        StepDrops(After(before), last, c);
      } else {
        RoomBeforeBirth(before, c);
        BornEmpty(After(before), last, c);
      }
    }
  }

  /** In every run, what a subscriber has received plus what is buffered for it
      is a subsequence of its own namespace's events between its subscription
      and its cancel, at most 32 of them buffered, and is all of them exactly if
      no publication found its 32 slots taken. */
  lemma SubscribersSeeTheirEvents(steps: seq<Step>, c: ChanId)
    requires IsRun(steps) && c in After(steps).hub.chans
    ensures var w := After(steps);
            && c in w.hist && Spans(w, c) && |w.hub.chans[c].buf| <= 32
            && Subsequence(Taken(w, c), Offered(w, c))
            && (Taken(w, c) == Offered(w, c) <==> w.hist[c].dropped == 0)
            && (Taken(w, c) == Offered(w, c) <==> AlwaysRoom(steps, c))
  {
    RunKeepsInv(steps);
    var w := After(steps);
    assert ChanInv(w, c);
    SubsequenceLength(Taken(w, c), Offered(w, c));
    LosesOnlyWhenFull(steps, c);
  }

  // ---- panics ----

  /** Some channel's cancel ran to its end twice. */
  ghost predicate ClosedTwice(steps: seq<Step>) {
    exists i, j :: 0 <= i < j < |steps| && steps[i].DoClose? && steps[i] == steps[j]
  }

  lemma {:induction false} ClosedMeansCancelled(steps: seq<Step>, c: ChanId)
    requires IsRun(steps)
    ensures c in After(steps).hub.chans && After(steps).hub.chans[c].closed <==> DoClose(c) in steps
  {
    if steps != [] {
      var n := |steps| - 1;
      ClosedMeansCancelled(steps[..n], c);
      RunKeepsInv(steps[..n]);
      assert steps == steps[..n] + [steps[n]];
      ClosedBySteps(After(steps[..n]), steps[n], c);
    }
  }

  lemma ClosedBySteps(w: World, step: Step, c: ChanId)
    requires Shape(w) && Enabled(w, step)
    ensures var w' := Apply(w, step);
            c in w'.hub.chans && w'.hub.chans[c].closed <==>
              (c in w.hub.chans && w.hub.chans[c].closed) || step == DoClose(c)
  {}

  lemma PanicsBySteps(w: World, step: Step)
    requires WorldInv(w) && Enabled(w, step)
    ensures Apply(w, step).hub.panicked <==>
              w.hub.panicked || (step.DoClose? && w.hub.chans[step.chan].closed)
  {}

  lemma {:induction false} PanicMeansClosedTwice(steps: seq<Step>)
    requires IsRun(steps)
    ensures After(steps).hub.panicked <==> ClosedTwice(steps)
  {
    if steps != [] {
      var before, last := steps[..|steps| - 1], steps[|steps| - 1];
      PanicMeansClosedTwice(before);
      RunKeepsInv(before);
      if last.DoClose? { ClosedMeansCancelled(before, last.chan); }
      PanicNext(After(before), steps);
    }
  }

  lemma PanicNext(w: World, steps: seq<Step>)
    requires steps != [] && WorldInv(w) && Enabled(w, steps[|steps| - 1])
    requires w.hub.panicked <==> ClosedTwice(steps[..|steps| - 1])
    requires var last := steps[|steps| - 1];
             last.DoClose? ==> (w.hub.chans[last.chan].closed <==> last in steps[..|steps| - 1])
    ensures Apply(w, steps[|steps| - 1]).hub.panicked <==> ClosedTwice(steps)
  {
    var before, last := steps[..|steps| - 1], steps[|steps| - 1];
    PanicsBySteps(w, last);
    ClosedTwiceSnoc(before, last);
    assert before + [last] == steps;
  }

  lemma ClosedTwiceSnoc(before: seq<Step>, last: Step)
    ensures ClosedTwice(before + [last]) <==> ClosedTwice(before) || (last.DoClose? && last in before)
  {
    var steps := before + [last];
    if ClosedTwice(before) {
      var i, j :| 0 <= i < j < |before| && before[i].DoClose? && before[i] == before[j];
      assert steps[i] == before[i] && steps[j] == before[j];
    }
    if last.DoClose? && last in before {
      var i :| 0 <= i < |before| && before[i] == last;
      assert steps[i] == steps[|before|];
    }
    if ClosedTwice(steps) {
      var i, j :| 0 <= i < j < |steps| && steps[i].DoClose? && steps[i] == steps[j];
      assert steps[i] == before[i];
      assert j < |before| ==> steps[j] == before[j];
    }
  }

  /** No publication ever sends on a closed channel: under any interleaving the
      hub panics exactly if some cancel function was called to its end twice. */
  lemma PanicsOnlyOnDoubleCancel(steps: seq<Step>)
    requires IsRun(steps)
    ensures After(steps).hub.panicked <==> ClosedTwice(steps)
    ensures forall ns, c :: c in Subscribers(After(steps).hub, ns) ==>
              c in After(steps).hub.chans && !After(steps).hub.chans[c].closed
  {
    PanicMeansClosedTwice(steps);
    RunKeepsInv(steps);
    var w := After(steps);
    forall ns, c | c in Subscribers(w.hub, ns) ensures c in w.hub.chans && !w.hub.chans[c].closed {
      assert ChanInv(w, c);
    }
  }
}

/** The device event stream: the frames apps/api/internal/api/stream.go writes
    and the line scanner apps/elpctl/internal/client/client.go reads them with.
    The format is that of the WHATWG HTML Living Standard, sections 9.2.5 and 9.2.6.
    A char stands for a byte of it. */
module Sse {
  import opened Basics

  /** The scanner's buffer limit: a line and its newline must fit in it. */
  const MAX_TOKEN: nat := 1024 * 1024

  // ---- the writer ----

  datatype Frame = Event(event: string, data: string) | KeepAlive

  /** The lines of one frame, each ended by a newline in the text. */
  function RawLines(f: Frame): seq<string> {
    match f
    case Event(e, d) => ["event: " + e, "data: " + d, ""]
    case KeepAlive => [": keepalive", ""]
  }

  function Unlines(lines: seq<string>): string {
    if lines == [] then "" else lines[0] + "\n" + Unlines(lines[1..])
  }

  function Text(f: Frame): string {
    Unlines(RawLines(f))
  }

  function Write(fs: seq<Frame>): string {
    if fs == [] then "" else Text(fs[0]) + Write(fs[1..])
  }

  lemma EventText(e: string, d: string)
    ensures Text(Event(e, d)) == "event: " + e + "\n" + "data: " + d + "\n" + "\n"
  {
    var b := "data: " + d;
    assert ["event: " + e, b, ""][1..] == [b, ""] && [b, ""][1..] == [""] && [""][1..] == [];
    assert Unlines([""]) == "\n" && Unlines([b, ""]) == b + "\n" + "\n";
  }

  lemma KeepAliveText()
    ensures Text(KeepAlive) == ": keepalive" + "\n" + "\n"
  {}

  /** What gets through a connection that breaks after so many bytes, if it breaks. */
  function Clip(s: string, limit: Option<nat>): string {
    if limit.None? || |s| <= limit.value then s else s[..limit.value]
  }

  /** One turn of the handler's loop: something to write, the subscription
      closed, or the request's context done. */
  datatype Turn = Frame(frame: Frame) | Closed | Done

  /** The frames the handler gets to write if the connection holds. */
  function Sent(turns: seq<Turn>): seq<Frame> {
    if turns == [] || !turns[0].Frame? then [] else [turns[0].frame] + Sent(turns[1..])
  }

  /** The response body as it grows, over a connection that may break. */
  class ResponseWriter {
    const limit: Option<nat>
    var body: string

    ghost predicate Valid()
      reads this
    {
      limit.Some? ==> |body| <= limit.value
    }

    constructor (limit: Option<nat>)
      ensures Valid() && this.limit == limit && body == ""
    {
      this.limit, body := limit, "";
    }

    method Put(s: string) returns (ok: bool)
      requires Valid()
      modifies this
      ensures Valid() && body == Clip(old(body) + s, limit)
      ensures ok <==> Clip(old(body) + s, limit) == old(body) + s
    {
      ok := limit.None? || |body| + |s| <= limit.value;
      body := Clip(body + s, limit);
    }

    method WriteSSE(event: string, data: string) returns (ok: bool)
      requires Valid()
      modifies this
      ensures Valid() && body == Clip(old(body) + Text(Event(event, data)), limit)
      ensures ok <==> body == old(body) + Text(Event(event, data))
    {
      EventText(event, data);
      ok := Put("event: " + event + "\n" + "data: " + data + "\n" + "\n");
    }

    method WriteFrame(f: Frame) returns (ok: bool)
      requires Valid()
      modifies this
      ensures Valid() && body == Clip(old(body) + Text(f), limit)
      ensures ok <==> body == old(body) + Text(f)
    {
      match f
      case Event(e, d) => ok := WriteSSE(e, d);
      case KeepAlive =>
        KeepAliveText();
        ok := Put(": keepalive" + "\n" + "\n");
    }

    /** The handler's loop: one frame per event or keepalive tick, until it is
        told to stop or a write fails. */
    method Stream(turns: seq<Turn>)
      requires Valid()
      modifies this
      ensures body == Clip(old(body) + Write(Sent(turns)), limit)
    {
      ghost var text := body + Write(Sent(turns));
      var i := 0;
      assert turns[0..] == turns;
      while i < |turns| && turns[i].Frame?
        invariant Valid() && StillToCome(turns, i, body, text)
        decreases |turns| - i
      {
        ghost var before := body;
        StreamOn(turns, i, before, text, limit);
        var ok := WriteFrame(turns[i].frame);
        if !ok { return; }
        i := i + 1;
      }
      StreamEnds(turns, i, body, text, limit);
    }
  }

  /** From the `i`th turn on, the frames still to write complete the text. */
  ghost predicate StillToCome(turns: seq<Turn>, i: nat, body: string, text: string) {
    i <= |turns| && body + Write(Sent(turns[i..])) == text
  }

  lemma StreamOn(turns: seq<Turn>, i: nat, body: string, text: string, limit: Option<nat>)
    requires i < |turns| && turns[i].Frame? && StillToCome(turns, i, body, text)
    ensures var next := body + Text(turns[i].frame);
            && StillToCome(turns, i + 1, next, text)
            && (Clip(next, limit) != next ==> Clip(text, limit) == Clip(next, limit))
  {
    var next, rest := body + Text(turns[i].frame), Write(Sent(turns[i + 1..]));
    WriteFirst(turns, i);
    Regroup(body, Text(turns[i].frame), rest);
    if Clip(next, limit) != next { ClippedEarly(next, rest, limit); }
  }

  lemma StreamEnds(turns: seq<Turn>, i: nat, body: string, text: string, limit: Option<nat>)
    requires StillToCome(turns, i, body, text) && (i < |turns| ==> !turns[i].Frame?)
    requires limit.Some? ==> |body| <= limit.value
    ensures body == Clip(text, limit)
  {
    SentNothing(turns, i);
    assert body + "" == body;
  }

  lemma SentNothing(turns: seq<Turn>, i: nat)
    requires i <= |turns| && (i < |turns| ==> !turns[i].Frame?)
    ensures Write(Sent(turns[i..])) == ""
  {}

  lemma ClippedEarly(s: string, rest: string, limit: Option<nat>)
    requires Clip(s, limit) != s
    ensures Clip(s + rest, limit) == Clip(s, limit)
  {}

  lemma WriteCons(f: Frame, fs: seq<Frame>)
    ensures Write([f] + fs) == Text(f) + Write(fs)
  {
    assert ([f] + fs)[1..] == fs;
  }

  lemma WriteFirst(turns: seq<Turn>, i: nat)
    requires i < |turns| && turns[i].Frame?
    ensures Write(Sent(turns[i..])) == Text(turns[i].frame) + Write(Sent(turns[i + 1..]))
  {
    var f, rest := turns[i].frame, Sent(turns[i + 1..]);
    assert turns[i..][1..] == turns[i + 1..];
    assert Sent(turns[i..]) == [f] + rest;
    WriteCons(f, rest);
  }

  lemma Regroup(a: string, b: string, c: string)
    ensures a + (b + c) == (a + b) + c
  {}

  // ---- the reader ----

  function FindNewline(s: string): (i: nat)
    ensures i <= |s| && '\n' !in s[..i]
    ensures i < |s| ==> s[i] == '\n'
  {
    if s == "" || s[0] == '\n' then 0
    else
      var i := FindNewline(s[1..]);
      assert s[..i + 1] == [s[0]] + s[1..][..i];
      i + 1
  }

  function DropCR(line: string): string {
    if line != "" && line[|line| - 1] == '\r' then line[..|line| - 1] else line
  }

  /** The lines the scanner yields, and whether it then gave up on one too long for its buffer. */
  function Scan(s: string): (r: (seq<string>, bool))
    decreases |s|
  {
    if s == "" then ([], false)
    else
      var i := FindNewline(s);
      if i >= MAX_TOKEN then ([], true)
      else if i == |s| then ([DropCR(s)], false)
      else
        var (lines, tooLong) := Scan(s[i + 1..]);
        ([DropCR(s[..i])] + lines, tooLong)
  }

  predicate HasPrefix(s: string, prefix: string) {
    |prefix| <= |s| && s[..|prefix|] == prefix
  }

  function Join(lines: seq<string>): string {
    if lines == [] then "" else if |lines| == 1 then lines[0] else lines[0] + "\n" + Join(lines[1..])
  }

  datatype ReadError = TooLong | DecodeFailed

  /** How a pass over the lines ends: at their end, with data lines not yet
      flushed, or at a payload the decoder or the callback refused. */
  datatype Ending = AtEnd(pending: seq<string>) | Refused

  /** The payloads handed to the decoder, in order, by the line state machine. */
  function Deliver(accepts: string -> bool, lines: seq<string>, pending: seq<string>): (r: (seq<string>, Ending))
    decreases |lines|
  {
    if lines == [] then ([], AtEnd(pending))
    else
      var line, rest := lines[0], lines[1..];
      if line == "" then
        var payload := Join(pending);
        if payload == "" then Deliver(accepts, rest, [])
        else if !accepts(payload) then ([payload], Refused)
        else
          var (more, ending) := Deliver(accepts, rest, []);
          ([payload] + more, ending)
      else Deliver(accepts, rest, Keep(pending, line))
  }

  /** What a non-empty line adds to the pending data: comments, event types and unknown fields add nothing. */
  function Keep(pending: seq<string>, line: string): seq<string> {
    if HasPrefix(line, ":") || HasPrefix(line, "event: ") then pending
    else if HasPrefix(line, "data: ") then pending + [line[6..]]
    else pending
  }

  function Finish(accepts: string -> bool, handed: seq<string>, ending: Ending, tooLong: bool)
    : (seq<string>, Option<ReadError>)
  {
    match ending
    case Refused => (handed, Some(DecodeFailed))
    case AtEnd(pending) =>
      if tooLong then (handed, Some(TooLong))
      else
        var payload := Join(pending);
        if payload == "" then (handed, None)
        else (handed + [payload], if accepts(payload) then None else Some(DecodeFailed))
  }

  /** The whole read: payloads handed over, and the error it ended with. */
  function Read(accepts: string -> bool, s: string): (seq<string>, Option<ReadError>) {
    var (lines, tooLong) := Scan(s);
    var (handed, ending) := Deliver(accepts, lines, []);
    Finish(accepts, handed, ending, tooLong)
  }

  /** The outcome once the remaining lines are gone through with some payloads
      handed over and some data pending. */
  function ResumeOn(accepts: string -> bool, handed: seq<string>, pending: seq<string>, lines: seq<string>, tooLong: bool)
    : (seq<string>, Option<ReadError>)
  {
    var (more, ending) := Deliver(accepts, lines, pending);
    Finish(accepts, handed + more, ending, tooLong)
  }

  /** The outcome of reading on from `rest`. */
  function Resume(accepts: string -> bool, handed: seq<string>, pending: seq<string>, rest: string)
    : (seq<string>, Option<ReadError>)
  {
    ResumeOn(accepts, handed, pending, Scan(rest).0, Scan(rest).1)
  }

  lemma ScanStep(rest: string)
    requires rest != "" && FindNewline(rest) < MAX_TOKEN
    ensures var i := FindNewline(rest);
            var rest' := if i == |rest| then "" else rest[i + 1..];
            Scan(rest) == ([DropCR(rest[..i])] + Scan(rest').0, Scan(rest').1)
  {
    assert rest[..|rest|] == rest;
    assert [DropCR(rest)] + [] == [DropCR(rest)];
  }

  lemma ResumeOnLine(accepts: string -> bool, handed: seq<string>, pending: seq<string>, line: string,
                     lines: seq<string>, tooLong: bool)
    ensures ResumeOn(accepts, handed, pending, [line] + lines, tooLong) ==
              if line != "" then ResumeOn(accepts, handed, Keep(pending, line), lines, tooLong)
              else
                var payload := Join(pending);
                if payload == "" then ResumeOn(accepts, handed, [], lines, tooLong)
                else if !accepts(payload) then (handed + [payload], Some(DecodeFailed))
                else ResumeOn(accepts, handed + [payload], [], lines, tooLong)
  {
    assert ([line] + lines)[1..] == lines;
    var payload, more := Join(pending), Deliver(accepts, lines, []).0;
    assert handed + ([payload] + more) == (handed + [payload]) + more;
  }

  lemma ResumeLine(accepts: string -> bool, handed: seq<string>, pending: seq<string>, rest: string)
    requires rest != "" && FindNewline(rest) < MAX_TOKEN
    ensures var i := FindNewline(rest);
            var line, rest' := DropCR(rest[..i]), if i == |rest| then "" else rest[i + 1..];
            Resume(accepts, handed, pending, rest) ==
              if line != "" then Resume(accepts, handed, Keep(pending, line), rest')
              else
                var payload := Join(pending);
                if payload == "" then Resume(accepts, handed, [], rest')
                else if !accepts(payload) then (handed + [payload], Some(DecodeFailed))
                else Resume(accepts, handed + [payload], [], rest')
  {
    var i := FindNewline(rest);
    var line, rest' := DropCR(rest[..i]), if i == |rest| then "" else rest[i + 1..];
    ScanStep(rest);
    ResumeOnLine(accepts, handed, pending, line, Scan(rest').0, Scan(rest').1);
  }

  /** readSSE.  `accepts` says whether a payload decodes and the callback takes
      it.  The event type is collected and dropped: no result depends on it. */
  method ReadSSE(accepts: string -> bool, s: string) returns (handed: seq<string>, err: Option<ReadError>)
    ensures (handed, err) == Read(accepts, s)
  {
    handed := [];
    var eventType := "";
    var dataLines: seq<string> := [];
    var rest := s;
    assert [] + Deliver(accepts, Scan(s).0, []).0 == Deliver(accepts, Scan(s).0, []).0;
    while rest != ""
      invariant Resume(accepts, handed, dataLines, rest) == Read(accepts, s)
      decreases |rest|
    {
      var i := FindNewline(rest);
      if i >= MAX_TOKEN {
        assert handed + [] == handed;
        return handed, Some(TooLong);
      }
      ResumeLine(accepts, handed, dataLines, rest);
      var line := DropCR(rest[..i]);
      rest := if i == |rest| then "" else rest[i + 1..];
      if line == "" {
        var payload := Join(dataLines);
        eventType := "";
        dataLines := [];
        if payload != "" {
          if !accepts(payload) { return handed + [payload], Some(DecodeFailed); }
          handed := handed + [payload];
        }
        continue;
      }
      if HasPrefix(line, ":") { continue; }
      if HasPrefix(line, "event: ") {
        eventType := line[7..];
        continue;
      }
      if HasPrefix(line, "data: ") { dataLines := dataLines + [line[6..]]; }
    }
    assert handed + [] == handed;
    var payload := Join(dataLines);
    if payload == "" { return handed, None; }
    return handed + [payload], if accepts(payload) then None else Some(DecodeFailed);
  }

  // ---- scanning what was written ----

  lemma {:induction false} FindNewlineIn(line: string, rest: string)
    requires '\n' !in line
    ensures FindNewline(line + "\n" + rest) == |line|
    ensures FindNewline(line) == |line|
  {
    if line != "" {
      FindNewlineIn(line[1..], rest);
      assert (line + "\n" + rest)[1..] == line[1..] + "\n" + rest;
    }
  }

  lemma ScanLine(line: string, rest: string)
    requires '\n' !in line
    ensures Scan(line + "\n" + rest) ==
              if |line| >= MAX_TOKEN then ([], true) else ([DropCR(line)] + Scan(rest).0, Scan(rest).1)
  {
    var s := line + "\n" + rest;
    FindNewlineIn(line, rest);
    assert s[..|line|] == line && s[|line| + 1..] == rest;
  }

  lemma ScanLast(line: string)
    requires '\n' !in line && line != ""
    ensures Scan(line) == if |line| >= MAX_TOKEN then ([], true) else ([DropCR(line)], false)
  {}

  /** A frame that stays on its lines: a one-line event type, and non-empty data
      without a newline that does not end in a carriage return.  JSON is such data. */
  predicate OneLine(f: Frame) {
    f.Event? ==> '\n' !in f.event && '\n' !in f.data && f.data != "" && f.data[|f.data| - 1] != '\r'
  }

  /** A frame whose lines fit the scanner's buffer. */
  predicate Fits(f: Frame) {
    f.Event? ==> |f.event| + 7 < 1048576 && |f.data| + 6 < 1048576
  }

  ghost predicate AllOneLine(fs: seq<Frame>) {
    forall i :: 0 <= i < |fs| ==> OneLine(fs[i])
  }

  /** A payload, if there is one, that decodes and that the callback takes. */
  predicate Taken(accepts: string -> bool, f: Frame) {
    f.Event? ==> accepts(f.data)
  }

  /** A frame the reader gets past. */
  predicate Passes(accepts: string -> bool, f: Frame) {
    Fits(f) && Taken(accepts, f)
  }

  function Payloads(fs: seq<Frame>): seq<string> {
    if fs == [] then [] else (if fs[0].Event? then [fs[0].data] else []) + Payloads(fs[1..])
  }

  function DropCRs(lines: seq<string>): seq<string> {
    if lines == [] then [] else [DropCR(lines[0])] + DropCRs(lines[1..])
  }

  /** Scanning undoes line by line what Unlines put together, but for trailing carriage returns. */
  lemma {:induction false} ScanUnlines(lines: seq<string>, rest: string)
    requires forall i :: 0 <= i < |lines| ==> '\n' !in lines[i] && |lines[i]| < MAX_TOKEN
    ensures Scan(Unlines(lines) + rest) == (DropCRs(lines) + Scan(rest).0, Scan(rest).1)
  {
    if lines == [] {
      assert Unlines(lines) + rest == rest;
      assert DropCRs(lines) + Scan(rest).0 == Scan(rest).0;
    } else {
      var l, ls := lines[0], lines[1..];
      ScanUnlines(ls, rest);
      assert Unlines(lines) + rest == l + "\n" + (Unlines(ls) + rest);
      ScanLine(l, Unlines(ls) + rest);
      assert [DropCR(l)] + (DropCRs(ls) + Scan(rest).0) == DropCRs(lines) + Scan(rest).0;
    }
  }

  /** The lines a frame is read back as. */
  function FrameLines(f: Frame): seq<string> {
    match f
    case Event(e, d) => [DropCR("event: " + e), "data: " + d, ""]
    case KeepAlive => [": keepalive", ""]
  }

  lemma RawLinesFit(f: Frame)
    requires OneLine(f) && Fits(f)
    ensures forall i :: 0 <= i < |RawLines(f)| ==> '\n' !in RawLines(f)[i] && |RawLines(f)[i]| < MAX_TOKEN
  {}

  lemma ScanFrame(f: Frame, rest: string)
    requires OneLine(f) && Fits(f)
    ensures Scan(Text(f) + rest) == (FrameLines(f) + Scan(rest).0, Scan(rest).1)
  {
    var raw := RawLines(f);
    RawLinesFit(f);
    ScanUnlines(raw, rest);
    FrameLinesAre(f);
  }

  lemma FrameLinesAre(f: Frame)
    requires OneLine(f)
    ensures DropCRs(RawLines(f)) == FrameLines(f)
  {
    match f
    case Event(e, d) =>
      var a, b := "event: " + e, "data: " + d;
      assert b[|b| - 1] == d[|d| - 1];
      assert [a, b, ""][1..] == [b, ""] && [b, ""][1..] == [""] && [""][1..] == [];
      assert DropCRs([""]) == [""] && DropCRs([b, ""]) == [b, ""];
    case KeepAlive =>
      assert [": keepalive", ""][1..] == [""] && [""][1..] == [];
  }

  lemma EventLineIgnored(accepts: string -> bool, e: string, rest: seq<string>, pending: seq<string>)
    ensures Deliver(accepts, [DropCR("event: " + e)] + rest, pending) == Deliver(accepts, rest, pending)
  {}

  lemma DataLineKept(accepts: string -> bool, d: string, rest: seq<string>)
    ensures Deliver(accepts, ["data: " + d] + rest, []) == Deliver(accepts, rest, [d])
  {
    var line := "data: " + d;
    assert line[..6] == "data: " && line[6..] == d && line[0] == 'd';
    assert line[..1] != ":" && !HasPrefix(line, "event: ") by { assert "event: "[0] == 'e'; }
    assert ([line] + rest)[1..] == rest && [] + [d] == [d];
  }

  /** A frame's lines hand over its payload, if any, and leave nothing pending. */
  lemma DeliverFrame(accepts: string -> bool, f: Frame, rest: seq<string>)
    requires OneLine(f) && Taken(accepts, f)
    ensures Deliver(accepts, FrameLines(f) + rest, []) ==
              (Payloads([f]) + Deliver(accepts, rest, []).0, Deliver(accepts, rest, []).1)
  {
    match f
    case Event(e, d) =>
      assert FrameLines(f) + rest == [DropCR("event: " + e)] + (["data: " + d] + ([""] + rest));
      EventLineIgnored(accepts, e, ["data: " + d] + ([""] + rest), []);
      DataLineKept(accepts, d, [""] + rest);
      assert ([""] + rest)[1..] == rest && Join([d]) == d;
      assert Deliver(accepts, [""] + rest, [d]) == ([d] + Deliver(accepts, rest, []).0, Deliver(accepts, rest, []).1);
      assert Payloads([f]) == [d] by { assert [f][1..] == []; }
    case KeepAlive =>
      var line := ": keepalive";
      assert line[..1] == ":";
      assert FrameLines(f) + rest == [line] + ([""] + rest);
      assert ([line] + ([""] + rest))[1..] == [""] + rest;
      assert ([""] + rest)[1..] == rest;
      assert Deliver(accepts, [""] + rest, []) == Deliver(accepts, rest, []);
      assert Payloads([f]) == [] by { assert [f][1..] == []; }
      assert [] + Deliver(accepts, rest, []).0 == Deliver(accepts, rest, []).0;
  }

  /** Reading a frame followed by anything hands over its payload and then reads on. */
  lemma ReadFrame(accepts: string -> bool, f: Frame, rest: string)
    requires OneLine(f) && Passes(accepts, f)
    ensures Read(accepts, Text(f) + rest) == (Payloads([f]) + Read(accepts, rest).0, Read(accepts, rest).1)
  {
    ScanFrame(f, rest);
    DeliverFrame(accepts, f, Scan(rest).0);
    var (handed, ending) := Deliver(accepts, Scan(rest).0, []);
    FinishAfter(accepts, Payloads([f]), handed, ending, Scan(rest).1);
  }

  lemma FinishAfter(accepts: string -> bool, head: seq<string>, handed: seq<string>, ending: Ending, tooLong: bool)
    ensures Finish(accepts, head + handed, ending, tooLong)
         == (head + Finish(accepts, handed, ending, tooLong).0, Finish(accepts, handed, ending, tooLong).1)
  {
    if ending.AtEnd? {
      var last := Join(ending.pending);
      assert head + (handed + [last]) == (head + handed) + [last];
    }
  }

  lemma ReadOversized(accepts: string -> bool, f: Frame, rest: string)
    requires OneLine(f) && !Fits(f)
    ensures Read(accepts, Text(f) + rest) == ([], Some(TooLong))
  {
    var a, b := "event: " + f.event, "data: " + f.data;
    EventText(f.event, f.data);
    var tail := b + "\n" + ("\n" + rest);
    assert Text(f) + rest == a + "\n" + tail;
    ScanLine(a, tail);
    if |a| < MAX_TOKEN {
      ScanLine(b, "\n" + rest);
      assert Scan(tail) == ([], true);
      assert [DropCR(a)] + [] == [DropCR(a)];
      EventLineIgnored(accepts, f.event, [], []);
    }
  }

  /** A refused payload is the last thing handed over, whatever follows it. */
  lemma ReadRefused(accepts: string -> bool, f: Frame, rest: string)
    requires OneLine(f) && Fits(f) && !Taken(accepts, f)
    ensures Read(accepts, Text(f) + rest) == ([f.data], Some(DecodeFailed))
  {
    ScanFrame(f, rest);
    DeliverRefused(accepts, f, Scan(rest).0);
  }

  lemma DeliverRefused(accepts: string -> bool, f: Frame, rest: seq<string>)
    requires OneLine(f) && !Taken(accepts, f)
    ensures Deliver(accepts, FrameLines(f) + rest, []) == ([f.data], Refused)
  {
    var e, d := f.event, f.data;
    assert FrameLines(f) + rest == [DropCR("event: " + e)] + (["data: " + d] + ([""] + rest));
    EventLineIgnored(accepts, e, ["data: " + d] + ([""] + rest), []);
    DataLineKept(accepts, d, [""] + rest);
    assert ([""] + rest)[1..] == rest && Join([d]) == d;
  }

  /** How many frames come before the first the reader does not get past. */
  function PassingPrefix(accepts: string -> bool, fs: seq<Frame>): (k: nat)
    ensures k <= |fs|
    ensures forall i :: 0 <= i < k ==> Passes(accepts, fs[i])
    ensures k < |fs| ==> !Passes(accepts, fs[k])
  {
    if fs == [] || !Passes(accepts, fs[0]) then 0 else 1 + PassingPrefix(accepts, fs[1..])
  }

  lemma PayloadsCons(f: Frame, fs: seq<Frame>)
    ensures Payloads([f] + fs) == Payloads([f]) + Payloads(fs)
  {}

  /** What the reader makes of the `k`th frame, after getting past those before
      it: the end; a line too long for the scanner, of which nothing is handed
      over; or a payload handed over and refused. */
  function Outcome(fs: seq<Frame>, k: nat): (seq<string>, Option<ReadError>)
    requires k <= |fs|
  {
    if k == |fs| then (Payloads(fs), None)
    else if !Fits(fs[k]) then (Payloads(fs[..k]), Some(TooLong))
    else (Payloads(fs[..k + 1]), Some(DecodeFailed))
  }

  /** The round trip.  Frames written and read back hand over the payloads, in
      order, keepalives adding nothing, up to the first frame that does not get
      through: one with a line too long for the scanner is not handed over and
      the read ends in an error; one whose payload is refused is the last handed
      over, and the read ends in another. */
  lemma {:induction false} RoundTrip(accepts: string -> bool, fs: seq<Frame>)
    requires AllOneLine(fs)
    ensures Read(accepts, Write(fs)) == Outcome(fs, PassingPrefix(accepts, fs))
  {
    if fs == [] {
      ReadNothing(accepts);
    } else {
      OneLineTail(fs);
      if Passes(accepts, fs[0]) {
        RoundTrip(accepts, fs[1..]);
        var k := PassingPrefix(accepts, fs[1..]);
        assert PassingPrefix(accepts, fs) == k + 1;
        RoundTripNext(accepts, fs, k);
      } else {
        assert PassingPrefix(accepts, fs) == 0;
        FirstFails(accepts, fs);
      }
    }
  }

  lemma ReadNothing(accepts: string -> bool)
    ensures Read(accepts, "") == ([], None) && Write([]) == "" && Payloads([]) == []
  {}

  lemma OneLineTail(fs: seq<Frame>)
    requires fs != [] && AllOneLine(fs)
    ensures fs == [fs[0]] + fs[1..] && OneLine(fs[0]) && AllOneLine(fs[1..])
  {}

  lemma RoundTripNext(accepts: string -> bool, fs: seq<Frame>, k: nat)
    requires fs != [] && OneLine(fs[0]) && Passes(accepts, fs[0]) && k < |fs|
    requires Read(accepts, Write(fs[1..])) == Outcome(fs[1..], k)
    ensures Read(accepts, Write(fs)) == Outcome(fs, k + 1)
  {
    WriteHead(fs);
    OutcomeNext(fs, k);
    ReadFrame(accepts, fs[0], Write(fs[1..]));
  }

  lemma OutcomeNext(fs: seq<Frame>, k: nat)
    requires k < |fs|
    ensures Outcome(fs, k + 1) == (Payloads([fs[0]]) + Outcome(fs[1..], k).0, Outcome(fs[1..], k).1)
  {
    var rest := fs[1..];
    if k == |rest| {
      assert fs == [fs[0]] + rest;
      PayloadsCons(fs[0], rest);
    } else {
      assert fs[k + 1] == rest[k];
      PayloadsPrefix(fs, if Fits(rest[k]) then k + 1 else k);
    }
  }

  lemma WriteHead(fs: seq<Frame>)
    requires fs != []
    ensures Write(fs) == Text(fs[0]) + Write(fs[1..])
  {}

  lemma PayloadsPrefix(fs: seq<Frame>, k: nat)
    requires k < |fs|
    ensures Payloads(fs[..k + 1]) == Payloads([fs[0]]) + Payloads(fs[1..][..k])
  {
    assert fs[..k + 1] == [fs[0]] + fs[1..][..k];
    PayloadsCons(fs[0], fs[1..][..k]);
  }

  lemma FirstFails(accepts: string -> bool, fs: seq<Frame>)
    requires fs != [] && OneLine(fs[0]) && !Passes(accepts, fs[0])
    ensures Read(accepts, Write(fs)) == Outcome(fs, 0)
  {
    WriteHead(fs);
    OutcomeFirst(fs);
    if Fits(fs[0]) { ReadRefused(accepts, fs[0], Write(fs[1..])); } else { ReadOversized(accepts, fs[0], Write(fs[1..])); }
  }

  lemma OutcomeFirst(fs: seq<Frame>)
    requires fs != []
    ensures !Fits(fs[0]) ==> Outcome(fs, 0) == ([], Some(TooLong))
    ensures Fits(fs[0]) && fs[0].Event? ==> Outcome(fs, 0) == ([fs[0].data], Some(DecodeFailed))
  {
    PayloadsOne(fs[0]);
    assert fs[..0] == [] && fs[..0 + 1] == [fs[0]];
  }

  lemma PayloadsOne(f: Frame)
    ensures Payloads([f]) == if f.Event? then [f.data] else []
  {
    assert [f][1..] == [];
  }

  /** All payloads arrive and the read ends cleanly exactly if every line fits
      and no payload is refused. */
  lemma RoundTripExact(accepts: string -> bool, fs: seq<Frame>)
    requires AllOneLine(fs)
    ensures Read(accepts, Write(fs)) == (Payloads(fs), None) <==> forall i :: 0 <= i < |fs| ==> Passes(accepts, fs[i])
  {
    RoundTrip(accepts, fs);
    var k := PassingPrefix(accepts, fs);
    CleanAtTheEnd(fs, k);
    assert k < |fs| ==> !Passes(accepts, fs[k]);
  }

  lemma CleanAtTheEnd(fs: seq<Frame>, k: nat)
    requires k <= |fs|
    ensures Outcome(fs, k) == (Payloads(fs), None) <==> k == |fs|
  {}

  // ---- cut anywhere ----

  /** What a connection cut inside one frame hands over: nothing, or a non-empty
      prefix of that frame's payload. */
  ghost predicate CutOf(handed: seq<string>, f: Frame) {
    handed == [] || (f.Event? && |handed| == 1 && handed[0] != "" && handed[0] <= f.data)
  }

  lemma QuietLine(accepts: string -> bool, line: string)
    requires line != "" && !HasPrefix(line, "data: ")
    ensures Deliver(accepts, [line], []) == ([], AtEnd([]))
  {}

  /** A line that is no data line, ended or not, hands over nothing, however long. */
  lemma OtherLineIsQuiet(accepts: string -> bool, line: string)
    requires line != "" && line[0] != 'd' && '\n' !in line
    ensures Read(accepts, line).0 == [] == Read(accepts, line + "\n" + "").0
  {
    ScanLast(line);
    ScanLine(line, "");
    assert [DropCR(line)] + [] == [DropCR(line)] && [DropCR(line)][1..] == [];
    if DropCR(line) != "" {
      assert DropCR(line)[0] == line[0];
      assert !HasPrefix(DropCR(line), "data: ") by { assert "data: "[0] == 'd'; }
      QuietLine(accepts, DropCR(line));
    } else {
      assert Deliver(accepts, [], []) == ([], AtEnd([])) == Deliver(accepts, [""], []);
    }
  }

  lemma CutInEventLine(accepts: string -> bool, f: Frame, n: nat)
    requires f.Event? && OneLine(f) && n <= |f.event| + 8
    ensures Read(accepts, Text(f)[..n]).0 == []
  {
    var a := "event: " + f.event;
    EventText(f.event, f.data);
    CutFirstLine(Text(f), a, "data: " + f.data + "\n" + "\n", n);
    if n == 0 {
      assert Text(f)[..0] == "";
    } else {
      var m := if n <= |a| then n else |a|;
      assert a[..m][0] == 'e';
      OtherLineIsQuiet(accepts, a[..m]);
    }
  }

  /** Nothing of what follows a line too long for the scanner is handed over,
      even if only an event line came before. */
  lemma NothingAfterOversized(accepts: string -> bool, e: string, rest: string)
    requires '\n' !in e && (|e| + 7 >= MAX_TOKEN || Scan(rest) == ([], true))
    ensures Read(accepts, "event: " + e + "\n" + rest).0 == []
  {
    ScanLine("event: " + e, rest);
    assert [DropCR("event: " + e)] + [] == [DropCR("event: " + e)];
    EventLineIgnored(accepts, e, [], []);
  }

  lemma CutFirstLine(text: string, a: string, rest: string, n: nat)
    requires text == a + "\n" + rest && n <= |a| + 1
    ensures text[..n] == if n <= |a| then a[..n] else a[..|a|] + "\n" + ""
  {}

  /** What can be read of a frame's payload in the first `n` bytes of its text:
      as much of it as got through, without a carriage return at the very end;
      nothing of it if a line is too long by then. */
  function Part(f: Frame, n: nat): string {
    if f.KeepAlive? || n <= |f.event| + 14 || |f.event| + 7 >= 1048576 then ""
    else
      var m := n - |f.event| - 14;
      var seen := if m < |f.data| then f.data[..m] else f.data;
      if |seen| + 6 >= 1048576 then "" else DropCR(seen)
  }

  function Parts(f: Frame, n: nat): seq<string> {
    if Part(f, n) == "" then [] else [Part(f, n)]
  }

  /** A last line cut off inside "data: ..." hands over what got through of the data. */
  lemma CutDataLine(accepts: string -> bool, d: string, m: nat)
    requires 0 < m <= |d| + 6
    ensures var r := Deliver(accepts, [DropCR(("data: " + d)[..m])], []);
            r.0 == [] && r.1.AtEnd? && Join(r.1.pending) == if m <= 6 then "" else DropCR(d[..m - 6])
  {
    var b := ("data: " + d)[..m];
    var line := DropCR(b);
    assert b[0] == 'd';
    if m < 6 {
      QuietLine(accepts, line);
    } else {
      assert b[..6] == "data: " && b[5] == ' ';
      assert b[6..] == d[..m - 6];
      var q := line[6..];
      assert line == "data: " + q && q == DropCR(d[..m - 6]);
      DataLineKept(accepts, q, []);
      assert [line] == ["data: " + q] + [];
    }
  }

  lemma CutInDataLine(accepts: string -> bool, f: Frame, m: nat)
    requires f.Event? && OneLine(f) && 0 < m <= |f.data| + 6
    ensures Read(accepts, "event: " + f.event + "\n" + ("data: " + f.data)[..m]).0 == Parts(f, |f.event| + 8 + m)
  {
    var a, b := "event: " + f.event, ("data: " + f.data)[..m];
    NoNewlineInCut(f.data, m);
    ScanLast(b);
    if |a| >= MAX_TOKEN || |b| >= MAX_TOKEN {
      NothingAfterOversized(accepts, f.event, b);
    } else {
      ScanLine(a, b);
      EventLineIgnored(accepts, f.event, [DropCR(b)], []);
      CutDataLine(accepts, f.data, m);
    }
    PartInData(f, m);
  }

  lemma PartInData(f: Frame, m: nat)
    requires f.Event? && 0 < m <= |f.data| + 6
    ensures Part(f, |f.event| + 8 + m) ==
              if m <= 6 || |f.event| + 7 >= 1048576 || m >= 1048576 then "" else DropCR(f.data[..m - 6])
  {
    assert f.data[..|f.data|] == f.data;
  }

  lemma NoNewlineInCut(d: string, m: nat)
    requires '\n' !in d && m <= |d| + 6
    ensures '\n' !in ("data: " + d)[..m]
  {}

  lemma ScanTwoLines(a: string, b: string)
    requires '\n' !in a && '\n' !in b && |a| < MAX_TOKEN && |b| < MAX_TOKEN
    ensures Scan(a + "\n" + (b + "\n" + "")) == ([DropCR(a), DropCR(b)], false)
  {
    ScanLine(a, b + "\n" + "");
    ScanLine(b, "");
    assert [DropCR(a)] + ([DropCR(b)] + []) == [DropCR(a), DropCR(b)];
  }

  lemma DeliverCut(accepts: string -> bool, e: string, d: string)
    ensures Deliver(accepts, [DropCR("event: " + e), "data: " + d], []) == ([], AtEnd([d]))
  {
    var line := "data: " + d;
    EventLineIgnored(accepts, e, [line], []);
    assert [DropCR("event: " + e)] + [line] == [DropCR("event: " + e), line];
    DataLineKept(accepts, d, []);
    assert [line] + [] == [line];
  }

  lemma KeepsLastChar(d: string)
    requires d != "" && d[|d| - 1] != '\r'
    ensures DropCR("data: " + d) == "data: " + d
  {
    var b := "data: " + d;
    assert b[|b| - 1] == d[|d| - 1];
  }

  lemma CutAfterData(accepts: string -> bool, f: Frame)
    requires f.Event? && OneLine(f)
    ensures Read(accepts, "event: " + f.event + "\n" + ("data: " + f.data + "\n" + "")).0
         == Parts(f, |f.event| + 15 + |f.data|)
  {
    var b := "data: " + f.data;
    if |f.event| + 7 >= MAX_TOKEN || |b| >= MAX_TOKEN {
      ScanLine(b, "");
      NothingAfterOversized(accepts, f.event, b + "\n" + "");
    } else {
      KeepsLastChar(f.data);
      ScanTwoLines("event: " + f.event, b);
      DeliverCut(accepts, f.event, f.data);
    }
  }

  lemma CutInKeepAlive(accepts: string -> bool, n: nat)
    requires n < |Text(KeepAlive)|
    ensures Read(accepts, Text(KeepAlive)[..n]).0 == []
  {
    var a := ": keepalive";
    KeepAliveText();
    if n == 0 {
      assert Text(KeepAlive)[..0] == "";
    } else if n <= |a| {
      assert Text(KeepAlive)[..n] == a[..n];
      OtherLineIsQuiet(accepts, a[..n]);
    } else {
      assert Text(KeepAlive)[..n] == a + "\n" + "";
      OtherLineIsQuiet(accepts, a);
    }
  }

  lemma CutInFrame(accepts: string -> bool, f: Frame, n: nat)
    requires OneLine(f) && n < |Text(f)|
    ensures Read(accepts, Text(f)[..n]).0 == Parts(f, n)
  {
    match f
    case KeepAlive => CutInKeepAlive(accepts, n);
    case Event(e, d) =>
      EventText(e, d);
      CutTwoLines(Text(f), "event: " + e, "data: " + d, n);
      if n <= |e| + 8 {
        CutInEventLine(accepts, f, n);
      } else if n <= |e| + |d| + 14 {
        CutInDataLine(accepts, f, n - |e| - 8);
      } else {
        CutAfterData(accepts, f);
      }
  }

  lemma CutTwoLines(text: string, a: string, b: string, n: nat)
    requires text == a + "\n" + b + "\n" + "\n" && n < |text|
    ensures |a| + 1 < n <= |a| + 1 + |b| ==> text[..n] == a + "\n" + b[..n - |a| - 1]
    ensures |a| + 1 + |b| < n ==> text[..n] == a + "\n" + (b + "\n" + "")
  {}

  /** Cut at any byte, the stream hands over the payloads of whole frames, in
      order, and after them at most one non-empty prefix of the next payload. */
  ghost predicate TruncatedTo(handed: seq<string>, payloads: seq<string>) {
    |handed| <= |payloads| && (handed == payloads[..|handed|] || LastInPart(handed, payloads))
  }

  ghost predicate LastInPart(handed: seq<string>, payloads: seq<string>) {
    && 0 < |handed| <= |payloads|
    && var k := |handed| - 1;
       handed[..k] == payloads[..k] && handed[k] != "" && handed[k] <= payloads[k]
  }

  lemma CutAnywhere(accepts: string -> bool, fs: seq<Frame>, n: nat)
    requires AllOneLine(fs) && n <= |Write(fs)|
    ensures Truncated(accepts, Write(fs)[..n], fs)
  {
    CutText(accepts, fs, n, Write(fs)[..n]);
  }

  lemma {:induction false} CutText(accepts: string -> bool, fs: seq<Frame>, n: nat, text: string)
    requires AllOneLine(fs) && n <= |Write(fs)| && text == Write(fs)[..n]
    ensures Truncated(accepts, text, fs)
    decreases |fs|
  {
    if fs == [] {
      NothingIsTruncated(accepts, text);
    } else {
      OneLineTail(fs);
      WriteHead(fs);
      var later := if n < |Text(fs[0])| then "" else Write(fs[1..])[..n - |Text(fs[0])|];
      if n >= |Text(fs[0])| { CutText(accepts, fs[1..], n - |Text(fs[0])|, later); }
      CutNowOrLater(accepts, fs, Write(fs[1..]), text, n, later);
    }
  }

  /** What is read of a text is a truncation of the payloads of some frames. */
  ghost predicate Truncated(accepts: string -> bool, text: string, fs: seq<Frame>) {
    TruncatedTo(Read(accepts, text).0, Payloads(fs))
  }

  lemma NothingIsTruncated(accepts: string -> bool, text: string)
    requires text == ""
    ensures Truncated(accepts, text, [])
  {
    assert Read(accepts, "").0 == [];
  }

  lemma CutNowOrLater(accepts: string -> bool, fs: seq<Frame>, w: string, text: string, n: nat, later: string)
    requires fs != [] && OneLine(fs[0])
    requires n <= |Text(fs[0])| + |w| && text == (Text(fs[0]) + w)[..n]
    requires n >= |Text(fs[0])| ==> later == w[..n - |Text(fs[0])|] && Truncated(accepts, later, fs[1..])
    ensures Truncated(accepts, text, fs)
  {
    var f, rest := fs[0], fs[1..];
    assert fs == [f] + rest;
    CutConcat(Text(f), w, n);
    if n < |Text(f)| { CutNow(accepts, f, rest, n); } else { CutLater(accepts, f, rest, later); }
  }

  lemma CutNow(accepts: string -> bool, f: Frame, rest: seq<Frame>, n: nat)
    requires OneLine(f) && n < |Text(f)|
    ensures Truncated(accepts, Text(f)[..n], [f] + rest)
  {
    CutInFrame(accepts, f, n);
    PartIsPrefix(f, n);
    CutIsTruncation(Read(accepts, Text(f)[..n]).0, f, rest);
  }

  lemma PartIsPrefix(f: Frame, n: nat)
    ensures Part(f, n) != "" ==> f.Event? && Part(f, n) <= f.data
  {}

  lemma CutConcat(a: string, b: string, n: nat)
    requires n <= |a + b|
    ensures (a + b)[..n] == if n < |a| then a[..n] else a + b[..n - |a|]
  {}

  /** Cut after a frame: it was passed; or it was the last thing read, whole or not at all. */
  lemma CutLater(accepts: string -> bool, f: Frame, fs: seq<Frame>, text: string)
    requires OneLine(f) && Truncated(accepts, text, fs)
    ensures Truncated(accepts, Text(f) + text, [f] + fs)
  {
    if Passes(accepts, f) {
      CutPast(accepts, f, fs, text);
    } else if !Fits(f) {
      ReadOversized(accepts, f, text);
      CutIsTruncation([], f, fs);
    } else {
      ReadRefused(accepts, f, text);
      CutIsTruncation([f.data], f, fs);
    }
  }

  lemma CutPast(accepts: string -> bool, f: Frame, fs: seq<Frame>, text: string)
    requires OneLine(f) && Passes(accepts, f) && Truncated(accepts, text, fs)
    ensures Truncated(accepts, Text(f) + text, [f] + fs)
  {
    ReadFrame(accepts, f, text);
    PrependWhole(Payloads([f]), Read(accepts, text).0, Payloads(fs));
    PayloadsCons(f, fs);
  }

  lemma CutIsTruncation(handed: seq<string>, f: Frame, fs: seq<Frame>)
    requires CutOf(handed, f)
    ensures TruncatedTo(handed, Payloads([f] + fs))
  {
    PayloadsCons(f, fs);
    assert [f][1..] == [];
    if handed != [] { assert handed[..0] == Payloads([f] + fs)[..0]; }
  }

  lemma PrependWhole(head: seq<string>, tail: seq<string>, rest: seq<string>)
    requires TruncatedTo(tail, rest)
    ensures TruncatedTo(head + tail, head + rest)
  {
    var n := |tail|;
    assert (head + rest)[..|head| + n] == head + rest[..n];
    if tail != rest[..n] {
      assert (head + rest)[..|head| + n - 1] == head + rest[..n - 1];
      assert (head + tail)[..|head| + n - 1] == head + tail[..n - 1];
    }
  }

  // ---- exactly what arrives ----

  /** What arrives of the first `n` bytes of written frames: the payloads of the
      frames that got through whole, up to one too long or refused, and of the
      one cut into, if reading got that far, the part that got through. */
  function Arrives(accepts: string -> bool, fs: seq<Frame>, n: nat): seq<string> {
    if fs == [] then []
    else
      var f := fs[0];
      if n < |Text(f)| then Parts(f, n)
      else if !Fits(f) then []
      else if !Taken(accepts, f) then [f.data]
      else Payloads([f]) + Arrives(accepts, fs[1..], n - |Text(f)|)
  }

  /** Cut at any byte, any frames hand over exactly what arrives of them. */
  lemma CutExactly(accepts: string -> bool, fs: seq<Frame>, n: nat)
    requires AllOneLine(fs) && n <= |Write(fs)|
    ensures Read(accepts, Write(fs)[..n]).0 == Arrives(accepts, fs, n)
  {
    ArrivesUpTo(accepts, fs, n);
  }

  /** The first `n` bytes of written frames. */
  function UpTo(fs: seq<Frame>, n: nat): string
    requires n <= |Write(fs)|
  {
    Write(fs)[..n]
  }

  ghost predicate ReadsAs(accepts: string -> bool, text: string, fs: seq<Frame>, n: nat) {
    Read(accepts, text).0 == Arrives(accepts, fs, n)
  }

  lemma OneLineRest(fs: seq<Frame>)
    requires fs != [] && AllOneLine(fs)
    ensures OneLine(fs[0]) && AllOneLine(fs[1..])
  {}

  lemma LengthOfRest(fs: seq<Frame>, n: nat)
    requires fs != [] && |Text(fs[0])| <= n <= |Write(fs)|
    ensures n - |Text(fs[0])| <= |Write(fs[1..])|
  {
    WriteHead(fs);
  }

  lemma {:induction false} ArrivesUpTo(accepts: string -> bool, fs: seq<Frame>, n: nat)
    requires AllOneLine(fs) && n <= |Write(fs)|
    ensures ReadsAs(accepts, UpTo(fs, n), fs, n)
    decreases |fs|
  {
    if fs == [] {
      ArrivesEmpty(accepts, fs, n);
    } else {
      OneLineRest(fs);
      if n < |Text(fs[0])| {
        ArrivesWithin(accepts, fs, n);
      } else {
        LengthOfRest(fs, n);
        ArrivesUpTo(accepts, fs[1..], n - |Text(fs[0])|);
        ArrivesBeyond(accepts, fs, n);
      }
    }
  }

  lemma ArrivesEmpty(accepts: string -> bool, fs: seq<Frame>, n: nat)
    requires fs == [] && n <= |Write(fs)|
    ensures ReadsAs(accepts, UpTo(fs, n), fs, n)
  {
    ReadNothing(accepts);
  }

  lemma ArrivesWithin(accepts: string -> bool, fs: seq<Frame>, n: nat)
    requires fs != [] && OneLine(fs[0]) && n < |Text(fs[0])| && n <= |Write(fs)|
    ensures ReadsAs(accepts, UpTo(fs, n), fs, n)
  {
    WriteHead(fs);
    CutConcat(Text(fs[0]), Write(fs[1..]), n);
    ArrivesInPart(accepts, fs, n, UpTo(fs, n));
  }

  lemma ArrivesBeyond(accepts: string -> bool, fs: seq<Frame>, n: nat)
    requires fs != [] && OneLine(fs[0]) && |Text(fs[0])| <= n <= |Write(fs)| && n - |Text(fs[0])| <= |Write(fs[1..])|
    requires ReadsAs(accepts, UpTo(fs[1..], n - |Text(fs[0])|), fs[1..], n - |Text(fs[0])|)
    ensures ReadsAs(accepts, UpTo(fs, n), fs, n)
  {
    WriteHead(fs);
    CutConcat(Text(fs[0]), Write(fs[1..]), n);
    ArrivesPast(accepts, fs, n, UpTo(fs, n), UpTo(fs[1..], n - |Text(fs[0])|));
  }

  lemma ArrivesInPart(accepts: string -> bool, fs: seq<Frame>, n: nat, text: string)
    requires fs != [] && OneLine(fs[0]) && n < |Text(fs[0])| && text == Text(fs[0])[..n]
    ensures ReadsAs(accepts, text, fs, n)
  {
    CutInFrame(accepts, fs[0], n);
  }

  lemma ArrivesPast(accepts: string -> bool, fs: seq<Frame>, n: nat, text: string, later: string)
    requires fs != [] && OneLine(fs[0]) && n >= |Text(fs[0])| && text == Text(fs[0]) + later
    requires ReadsAs(accepts, later, fs[1..], n - |Text(fs[0])|)
    ensures ReadsAs(accepts, text, fs, n)
  {
    var f := fs[0];
    if !Fits(f) {
      ReadOversized(accepts, f, later);
    } else if !Taken(accepts, f) {
      ReadRefused(accepts, f, later);
    } else {
      ReadFrame(accepts, f, later);
    }
  }

  // ---- other writers of the format ----

  /** A line ended by a carriage return and a newline reads like one ended by the newline. */
  lemma CRLFReadsAlike(line: string, rest: string)
    requires '\n' !in line && |line| + 1 < 1048576 && (line == "" || line[|line| - 1] != '\r')
    ensures Scan(line + "\r" + "\n" + rest) == ([line] + Scan(rest).0, Scan(rest).1) == Scan(line + "\n" + rest)
  {
    ScanLine(line, rest);
    ScanLine(line + "\r", rest);
    assert DropCR(line + "\r") == line;
  }

  /** The lines of a text, apart at its newlines. */
  function Lines(d: string): seq<string> {
    var i := FindNewline(d);
    if i == |d| then [d] else [d[..i]] + Lines(d[i + 1..])
  }

  /** Each line of a payload as a data line of its own, and the blank line that ends the event. */
  function DataLines(lines: seq<string>): string {
    if lines == [] then "\n" else "data: " + lines[0] + "\n" + DataLines(lines[1..])
  }

  /** A payload of several lines, written as the standard has it with one data
      line each, is handed over whole, newlines and all (WHATWG HTML, section 9.2.6). */
  lemma ManyDataLines(accepts: string -> bool, d: string)
    requires d != "" && accepts(d) && forall i :: 0 <= i < |Lines(d)| ==> ShortLine(Lines(d)[i])
    ensures Read(accepts, DataLines(Lines(d))) == ([d], None)
  {
    LinesAreLines(d);
    JoinLines(d);
    ScanDataLines(Lines(d));
    assert [] + Lines(d) == Lines(d);
    DeliverDataLines(accepts, Lines(d), [], d);
    ReadFromLines(accepts, DataLines(Lines(d)), WithField(Lines(d)), d);
  }

  lemma ReadFromLines(accepts: string -> bool, text: string, lines: seq<string>, d: string)
    requires Scan(text) == (lines, false) && Deliver(accepts, lines, []) == ([d], AtEnd([]))
    ensures Read(accepts, text) == ([d], None)
  {}

  predicate ShortLine(l: string) {
    |l| + 6 < 1048576 && (l == "" || l[|l| - 1] != '\r')
  }

  lemma {:induction false} LinesAreLines(d: string)
    ensures Lines(d) != [] && forall i :: 0 <= i < |Lines(d)| ==> '\n' !in Lines(d)[i]
  {
    var i := FindNewline(d);
    if i < |d| { LinesAreLines(d[i + 1..]); } else { assert d[..i] == d; }
  }

  lemma {:induction false} JoinLines(d: string)
    ensures Join(Lines(d)) == d
  {
    var i := FindNewline(d);
    if i < |d| {
      JoinLines(d[i + 1..]);
      LinesAreLines(d[i + 1..]);
      assert Lines(d)[1..] == Lines(d[i + 1..]);
      assert d == d[..i] + "\n" + d[i + 1..];
    }
  }

  function WithField(lines: seq<string>): seq<string> {
    if lines == [] then [""] else ["data: " + lines[0]] + WithField(lines[1..])
  }

  lemma {:induction false} ScanDataLines(lines: seq<string>)
    requires forall i :: 0 <= i < |lines| ==> '\n' !in lines[i] && ShortLine(lines[i])
    ensures Scan(DataLines(lines)) == (WithField(lines), false)
  {
    if lines == [] {
      ScanLine("", "");
      assert "" + "\n" + "" == "\n" && [""] + [] == [""];
    } else {
      var b := "data: " + lines[0];
      ScanDataLines(lines[1..]);
      ScanLine(b, DataLines(lines[1..]));
      assert DropCR(b) == b by { assert lines[0] != "" ==> b[|b| - 1] == lines[0][|lines[0]| - 1]; }
    }
  }

  lemma {:induction false} DeliverDataLines(accepts: string -> bool, lines: seq<string>, pending: seq<string>, d: string)
    requires d == Join(pending + lines) && d != "" && accepts(d)
    ensures Deliver(accepts, WithField(lines), pending) == ([d], AtEnd([]))
    decreases |lines|
  {
    if lines == [] {
      assert pending + [] == pending && [""][1..] == [];
      assert Deliver(accepts, [], []) == ([], AtEnd([])) && [d] + [] == [d];
    } else {
      var l, rest := lines[0], lines[1..];
      assert pending + lines == (pending + [l]) + rest;
      DeliverDataLines(accepts, rest, pending + [l], d);
      OneDataLine(accepts, l, WithField(rest), pending);
    }
  }

  lemma OneDataLine(accepts: string -> bool, l: string, rest: seq<string>, pending: seq<string>)
    ensures Deliver(accepts, ["data: " + l] + rest, pending) == Deliver(accepts, rest, pending + [l])
  {
    var line := "data: " + l;
    assert line[..6] == "data: " && line[6..] == l && line[0] == 'd';
    assert line[..1] != ":" && !HasPrefix(line, "event: ") by { assert "event: "[0] == 'e'; }
    assert ([line] + rest)[1..] == rest;
  }

  // ---- a connection that breaks ----

  /** A reader of what the handler wrote over a connection that broke anywhere,
      or not at all, gets whole payloads in order and at most part of one more,
      whatever does not fit its buffer and whatever it refuses. */
  lemma BrokenStreamIsTruncated(accepts: string -> bool, turns: seq<Turn>, limit: Option<nat>)
    requires AllOneLine(Sent(turns))
    ensures Truncated(accepts, Clip(Write(Sent(turns)), limit), Sent(turns))
  {
    var text := Write(Sent(turns));
    var n := if limit.None? || |text| <= limit.value then |text| else limit.value;
    assert Clip(text, limit) == text[..n];
    CutAnywhere(accepts, Sent(turns), n);
  }
}

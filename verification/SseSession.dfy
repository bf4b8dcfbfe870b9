/** Resuming when a connection may be cut after any line of a block: the client resumes from the last id
    its reader has taken (infra/loadtest/locustfile.py, src/api/routers/chat.py). */
module SseSession {
  import opened PyText
  import opened SseRelay
  import opened SseReader

  /** One connection: what the relay did, and what arrived of it, some whole blocks and some lines of the
      next one. */
  datatype Contact = Contact(polls: seq<Poll>, out: seq<Block>, last: nat, outcome: Outcome, blocks: nat, lines: nat)

  predicate Cuts(x: Contact) {
    x.blocks <= |x.out| && (if x.blocks < |x.out| then x.lines < |BlockLines(x.out[x.blocks])| else x.lines == 0)
  }

  function LinesOf(x: Contact): seq<string>
    requires Cuts(x)
  {
    AllLines(x.out, x.blocks) + if x.blocks < |x.out| then BlockLines(x.out[x.blocks])[..x.lines] else []
  }

  function ReaderOf(x: Contact, persisted: set<string>): Reader
    requires Cuts(x)
  {
    ReadLines(START, LinesOf(x), |LinesOf(x)|, persisted)
  }

  /** The id to resume from, given the reader's last one and the one before. */
  function NextResumeId(lastId: Option<string>, before: nat): nat {
    if lastId.Some? && IdOf(lastId.value).Some? then IdOf(lastId.value).value else before
  }

  /** The id from which the client resumes after the first k connections. */
  function ResumeId(xs: seq<Contact>, k: nat, start: nat, persisted: set<string>): nat
    requires k <= |xs| && forall i :: 0 <= i < k ==> Cuts(xs[i])
  {
    if k == 0 then start
    else NextResumeId(ReaderOf(xs[k - 1], persisted).lastId, ResumeId(xs, k - 1, start, persisted))
  }

  ghost predicate IsContact(log: seq<Entry>, x: Contact, from: nat, persisted: set<string>) {
    Cuts(x) && AllPrintable(x.out) && Relays(log, x.polls, from, x.out, x.last, x.outcome, persisted)
  }

  /** Each connection relays from where the reader left off, and may be cut after any line. */
  ghost predicate IsLineSession(log: seq<Entry>, xs: seq<Contact>, start: nat, persisted: set<string>) {
    && Increasing(log) && (forall i :: 0 <= i < |xs| ==> Cuts(xs[i]))
    && (forall i: nat :: i < |xs| ==> IsContact(log, xs[i], ResumeId(xs, i, start, persisted), persisted))
  }

  /** The cut falls between the id line and the data line of an event. */
  predicate Loses(x: Contact) {
    x.blocks < |x.out| && x.out[x.blocks].Event? && x.out[x.blocks].id.Some? && 1 <= x.lines <= 2
  }

  /** How many blocks have their first line in. */
  function Begun(x: Contact): (n: nat)
    requires Cuts(x)
    ensures n <= |x.out|
  {
    if x.lines > 0 then x.blocks + 1 else x.blocks
  }

  /** The log's events whose id has arrived, and those the reader has seen. */
  function IdsIn(x: Contact): seq<Block>
    requires Cuts(x)
  {
    LogEvents(x.out[..Begun(x)])
  }

  function SeenIn(x: Contact): seq<Block>
    requires Cuts(x)
  {
    LogEvents(x.out[..if Loses(x) then x.blocks else Begun(x)])
  }

  // ---------------------------------------------------------------------
  // What the reader makes of it
  // ---------------------------------------------------------------------

  /** The relay's own error, if its data line has arrived. */
  function OwnErrorIn(x: Contact): seq<(string, string)>
    requires Cuts(x)
  {
    if x.blocks == |x.out| then OwnError(x.out)
    else
      match x.out[x.blocks]
      case Comment(_) => []
      case Event(id, event, data) => if id.None? && x.lines == 2 then [(event, data)] else []
  }

  lemma ReadWhole(out: seq<Block>, n: nat, persisted: set<string>)
    requires n <= |out| && out != [] && Quiet(out, |out| - 1, persisted)
    ensures var r := ReadBlocks(out, n, persisted); r.lastId == LastIdOf(out, n) && r.seen == EventsOf(out, n)
    ensures n < |out| ==> ReadBlocks(out, n, persisted).status == Open
  {
    var m := if n == |out| then n - 1 else n;
    assert forall k :: 0 <= k < m ==> IsQuiet(out[k], persisted);
    ReadBeforeTerminal(out, m, persisted);
  }

  lemma ReadOwnPart(r: Reader, event: string, data: string, n: nat, persisted: set<string>)
    requires r.status == Open && r.event.None? && r.data.None? && IsField(event) && IsField(data) && n <= 2
    ensures var part := ReadLines(r, BlockLines(Event(None, event, data)), n, persisted);
      part.lastId == r.lastId && part.seen == if n == 2 then r.seen + [(event, data)] else r.seen
  {
    var lines := BlockLines(Event(None, event, data));
    EventLine(event);
    DataLine(data);
    StripField(event);
    StripField(data);
    var r1 := ReadLines(r, lines, 1, persisted);
    assert ReadLines(r, lines, 0, persisted) == r && r1 == ReadLine(r, lines[0], persisted);
    assert ReadLines(r, lines, 2, persisted) == ReadLine(r1, lines[1], persisted);
  }

  lemma ReadCommentPart(r: Reader, text: string, n: nat, persisted: set<string>)
    requires r.status == Open && n <= 1
    ensures ReadLines(r, BlockLines(Comment(text)), n, persisted) == r
  {
    CommentLine(text);
    var lines := BlockLines(Comment(text));
    assert n == 1 ==> ReadLines(r, lines, 1, persisted) == ReadLine(ReadLines(r, lines, 0, persisted), lines[0], persisted);
  }

  /** What a block adds when its first n lines are read. */
  lemma ReadBlockPart(r: Reader, b: Block, n: nat, persisted: set<string>)
    requires r.status == Open && r.event.None? && r.data.None? && Printable(b) && n < |BlockLines(b)|
    ensures var part := ReadLines(r, BlockLines(b), n, persisted);
      && part.lastId == (if b.Event? && b.id.Some? && n > 0 then Some(IdText(b.id.value)) else r.lastId)
      && part.seen == if b.Event? && n == |BlockLines(b)| - 1 then r.seen + [(b.event, b.data)] else r.seen
  {
    match b
    case Comment(text) => ReadCommentPart(r, text, n, persisted);
    case Event(id, event, data) =>
      if id.None? {
        ReadOwnPart(r, event, data, n, persisted);
      } else {
        ReadPart(r, id.value, event, data, n, persisted);
      }
  }

  lemma ReadCut(x: Contact, persisted: set<string>)
    requires Cuts(x) && x.out != [] && Quiet(x.out, |x.out| - 1, persisted) && AllPrintable(x.out)
    requires x.blocks < |x.out|
    ensures var r := ReadBlocks(x.out, x.blocks, persisted);
      ReaderOf(x, persisted) == ReadLines(r, BlockLines(x.out[x.blocks]), x.lines, persisted)
  {
    var before, block := AllLines(x.out, x.blocks), BlockLines(x.out[x.blocks]);
    ReadAllLines(x.out, x.blocks, persisted);
    ReadingGoesOn(before, block[..x.lines], x.lines, ReadBlocks(x.out, x.blocks, persisted), persisted);
    ReadLinesOfPrefix(ReadBlocks(x.out, x.blocks, persisted), block[..x.lines], block, x.lines, persisted);
  }

  /** Events and ids of the first n blocks, all but the last of which are the log's. */
  lemma EventsOfFirst(out: seq<Block>, n: nat, persisted: set<string>)
    requires n <= |out| && Quiet(out, n, persisted)
    ensures var events := LogEvents(out[..n]);
      EventsOf(out, n) == EventsOf(events, |events|) && LastIdOf(out, n) == LastIdOf(events, |events|)
  {
    SamePrefixReads(out, out[..n], n);
    assert forall i :: 0 <= i < n ==> IsQuiet(out[i], persisted);
    EventsOfLog(out[..n]);
  }

  lemma QuietFirst(out: seq<Block>, n: nat, m: nat, persisted: set<string>)
    requires n <= m <= |out| && Quiet(out, m, persisted)
    ensures Quiet(out, n, persisted)
  {
  }

  lemma WholeContact(x: Contact, persisted: set<string>)
    requires Cuts(x) && x.out != [] && Quiet(x.out, |x.out| - 1, persisted) && AllPrintable(x.out)
    requires x.blocks == |x.out|
    ensures var r, ids, seen := ReaderOf(x, persisted), IdsIn(x), SeenIn(x);
      && r.lastId == LastIdOf(ids, |ids|)
      && r.seen == EventsOf(seen, |seen|) + OwnErrorIn(x)
  {
    assert LinesOf(x) == AllLines(x.out, |x.out|);
    assert x.out[..|x.out|] == x.out;
    ReadAllLines(x.out, |x.out|, persisted);
    ReadWhole(x.out, |x.out|, persisted);
    EventsRelayed(x.out, persisted);
  }

  lemma OneMoreBegun(out: seq<Block>, n: nat, next: nat)
    requires next == n + 1 <= |out|
    ensures LogEvents(out[..next]) == LogEvents(out[..n]) + if out[n].Event? && out[n].id.Some? then [out[n]] else []
  {
    assert out[..next][..n] == out[..n];
  }

  lemma LastIdOfMore(events: seq<Block>, b: Block)
    requires b.Event? && b.id.Some?
    ensures var more := events + [b];
      && LastIdOf(more, |more|) == Some(IdText(b.id.value))
      && EventsOf(more, |more|) == EventsOf(events, |events|) + [(b.event, b.data)]
  {
    SamePrefixReads(events + [b], events, |events|);
  }

  predicate FromLog(b: Block) {
    b.Event? && b.id.Some?
  }

  lemma CutEvents(x: Contact)
    requires Cuts(x) && x.blocks < |x.out|
    ensures var events, b := LogEvents(x.out[..x.blocks]), x.out[x.blocks];
      && IdsIn(x) == (if x.lines > 0 && FromLog(b) then events + [b] else events)
      && SeenIn(x) == if x.lines == 3 && FromLog(b) then events + [b] else events
  {
    if x.lines > 0 {
      OneMoreBegun(x.out, x.blocks, x.blocks + 1);
    }
  }

  lemma ReadBegun(r: Reader, b: Block, n: nat, events: seq<Block>, persisted: set<string>)
    requires r.status == Open && r.event.None? && r.data.None? && Printable(b) && n < |BlockLines(b)|
    requires r.lastId == LastIdOf(events, |events|) && r.seen == EventsOf(events, |events|)
    ensures var part := ReadLines(r, BlockLines(b), n, persisted);
            var ids := if n > 0 && FromLog(b) then events + [b] else events;
            var seen := if n == 3 && FromLog(b) then events + [b] else events;
      && part.lastId == LastIdOf(ids, |ids|)
      && part.seen == EventsOf(seen, |seen|) + if b.Event? && b.id.None? && n == 2 then [(b.event, b.data)] else []
  {
    ReadBlockPart(r, b, n, persisted);
    if FromLog(b) {
      LastIdOfMore(events, b);
    }
  }

  lemma CutContact(x: Contact, persisted: set<string>)
    requires Cuts(x) && x.out != [] && Quiet(x.out, |x.out| - 1, persisted) && AllPrintable(x.out)
    requires x.blocks < |x.out|
    ensures var r, ids, seen := ReaderOf(x, persisted), IdsIn(x), SeenIn(x);
      && r.lastId == LastIdOf(ids, |ids|)
      && r.seen == EventsOf(seen, |seen|) + OwnErrorIn(x)
  {
    var n, b := x.blocks, x.out[x.blocks];
    ReadCut(x, persisted);
    ReadWhole(x.out, n, persisted);
    QuietFirst(x.out, n, |x.out| - 1, persisted);
    EventsOfFirst(x.out, n, persisted);
    CutEvents(x);
    ReadBegun(ReadBlocks(x.out, n, persisted), b, x.lines, LogEvents(x.out[..n]), persisted);
  }

  /** The reader's last id is that of the last event whose id line arrived, and it has seen exactly the
      events whose data line did, besides an error of the relay's own. */
  lemma ReaderOfContact(log: seq<Entry>, x: Contact, from: nat, persisted: set<string>)
    requires IsContact(log, x, from, persisted)
    ensures var r, ids, seen := ReaderOf(x, persisted), IdsIn(x), SeenIn(x);
      && r.lastId == LastIdOf(ids, |ids|)
      && r.seen == EventsOf(seen, |seen|) + OwnErrorIn(x)
  {
    if x.blocks == |x.out| {
      WholeContact(x, persisted);
    } else {
      CutContact(x, persisted);
    }
  }

  // ---------------------------------------------------------------------
  // What a session sees
  // ---------------------------------------------------------------------

  /** The well-formed entries of log[from..end], whatever stops the relay. */
  function WellFormed(log: seq<Entry>, from: nat, end: nat): seq<Block>
    requires end <= |log|
  {
    if end <= from then []
    else
      var before, e := WellFormed(log, from, end - 1), log[end - 1];
      if e.payload.Fields? then before + [Event(Some(e.id), e.payload.event, e.payload.data)] else before
  }

  lemma {:induction false} WellFormedJoins(log: seq<Entry>, from: nat, p: nat, end: nat)
    requires from <= p <= end <= |log|
    ensures WellFormed(log, from, end) == WellFormed(log, from, p) + WellFormed(log, p, end)
    decreases end
  {
    if p < end {
      WellFormedJoins(log, from, p, end - 1);
    }
  }

  lemma {:induction false} DeliverableIsWellFormed(log: seq<Entry>, from: nat, end: nat, persisted: set<string>)
    requires end <= |log| && (from < end ==> !Stopped(log, from, end - 1, persisted))
    ensures Deliverable(log, from, end, persisted) == WellFormed(log, from, end)
    decreases end
  {
    if from < end {
      DeliverableIsWellFormed(log, from, end - 1, persisted);
    }
  }

  /** The ids are those of entries after `low` and before `high`. */
  predicate IdsWithin(events: seq<Block>, low: int, high: int) {
    IdsIncrease(events) && forall i :: 0 <= i < |events| ==> low < events[i].id.value < high
  }

  /** The id of the entry before position p. */
  function IdBeforePosition(log: seq<Entry>, p: nat): int
    requires p <= |log|
  {
    if p == 0 then -1 else log[p - 1].id
  }

  lemma {:induction false} WellFormedIds(log: seq<Entry>, from: nat, end: nat)
    requires Increasing(log) && from <= end <= |log|
    ensures IdsWithin(WellFormed(log, from, end), IdBeforePosition(log, from), IdBeforePosition(log, end) + 1)
    ensures IdBeforePosition(log, from) <= IdBeforePosition(log, end)
    decreases end
  {
    if from < end {
      WellFormedIds(log, from, end - 1);
      assert end > 1 ==> IdBefore(log, end - 2, end - 1);
    }
  }

  /** What remains without the events of the given ids. */
  function Without(events: seq<Block>, ids: set<nat>): seq<Block> {
    if events == [] then []
    else
      var n := |events| - 1;
      Without(events[..n], ids) + if HasIdIn(events[n], ids) then [] else [events[n]]
  }

  predicate HasIdIn(b: Block, ids: set<nat>) {
    FromLog(b) && b.id.value in ids
  }

  lemma {:induction false} WithoutConcat(a: seq<Block>, b: seq<Block>, ids: set<nat>)
    ensures Without(a + b, ids) == Without(a, ids) + Without(b, ids)
  {
    if b == [] {
      assert a + b == a;
    } else {
      var n := |b| - 1;
      assert (a + b)[..|a + b| - 1] == a + b[..n];
      WithoutConcat(a, b[..n], ids);
    }
  }

  lemma {:induction false} WithoutOthers(events: seq<Block>, ids: set<nat>)
    requires forall i :: 0 <= i < |events| ==> !HasIdIn(events[i], ids)
    ensures Without(events, ids) == events
  {
    if events != [] {
      WithoutOthers(events[..|events| - 1], ids);
    }
  }

  lemma {:induction false} WithoutSame(events: seq<Block>, ids: set<nat>, more: set<nat>)
    requires forall i :: 0 <= i < |events| ==> HasIdIn(events[i], ids) == HasIdIn(events[i], more)
    ensures Without(events, ids) == Without(events, more)
  {
    if events != [] {
      WithoutSame(events[..|events| - 1], ids, more);
    }
  }

  lemma {:induction false} WithoutIsShorter(events: seq<Block>, ids: set<nat>)
    ensures |Without(events, ids)| <= |events|
    ensures (exists i :: 0 <= i < |events| && HasIdIn(events[i], ids)) ==> |Without(events, ids)| < |events|
  {
    if events != [] {
      WithoutIsShorter(events[..|events| - 1], ids);
    }
  }

  /** The ids of the event a connection loses, if it does. */
  function LostBy(x: Contact): set<nat> {
    if Loses(x) then {x.out[x.blocks].id.value} else {}
  }

  function LostIds(xs: seq<Contact>, k: nat): set<nat>
    requires k <= |xs|
  {
    if k == 0 then {} else LostIds(xs, k - 1) + LostBy(xs[k - 1])
  }

  /** All the log's events that the reader has seen over the first k connections. */
  function AllSeen(xs: seq<Contact>, k: nat): seq<Block>
    requires k <= |xs| && forall i :: 0 <= i < k ==> Cuts(xs[i])
  {
    if k == 0 then [] else AllSeen(xs, k - 1) + SeenIn(xs[k - 1])
  }

  lemma SeenOfIds(x: Contact)
    requires Cuts(x)
    ensures if Loses(x) then IdsIn(x) == SeenIn(x) + [x.out[x.blocks]] else IdsIn(x) == SeenIn(x)
  {
    if x.blocks < |x.out| {
      CutEvents(x);
    }
  }

  /** The ids that arrive over a connection are those of the well-formed entries up to some entry, after
      which the next connection starts. */
  lemma IdsArrive(log: seq<Entry>, x: Contact, start: nat, persisted: set<string>) returns (p: nat)
    requires Increasing(log) && IsContact(log, x, start, persisted)
    ensures var from, ids := Position(log, |log|, start), IdsIn(x);
      && from <= p <= |log| && ids == WellFormed(log, from, p)
      && (ids == [] ==> p == from)
      && (ids != [] ==> FromLog(ids[|ids| - 1]) && Position(log, |log|, ids[|ids| - 1].id.value) == p)
  {
    var from := Position(log, |log|, start);
    LogEventsOfPrefix(x.out, Begun(x));
    p := PrefixIsDeliverable(log, from, Position(log, |log|, x.last), IdsIn(x), persisted);
    DeliverableIsWellFormed(log, from, p, persisted);
    if IdsIn(x) != [] {
      LastReceived(log, from, p, IdsIn(x), persisted);
    }
  }

  lemma NextResumeIdOf(ids: seq<Block>, before: nat)
    requires ids != [] ==> FromLog(ids[|ids| - 1])
    ensures NextResumeId(LastIdOf(ids, |ids|), before) == if ids == [] then before else ids[|ids| - 1].id.value
  {
    if ids != [] {
      IdRoundTrip(ids[|ids| - 1].id.value);
    }
  }

  lemma ResumeIdNext(xs: seq<Contact>, k: nat, next: nat, start: nat, persisted: set<string>)
    requires next == k + 1 <= |xs| && forall i :: 0 <= i < |xs| ==> Cuts(xs[i])
    ensures ResumeId(xs, next, start, persisted)
         == NextResumeId(ReaderOf(xs[k], persisted).lastId, ResumeId(xs, k, start, persisted))
  {
    assert next - 1 == k;
  }

  lemma LastIdRead(log: seq<Entry>, x: Contact, from: nat, persisted: set<string>)
    requires IsContact(log, x, from, persisted)
    ensures ReaderOf(x, persisted).lastId == LastIdOf(IdsIn(x), |IdsIn(x)|)
  {
    ReaderOfContact(log, x, from, persisted);
  }

  lemma ResumeAfter(log: seq<Entry>, xs: seq<Contact>, k: nat, next: nat, start: nat, persisted: set<string>)
    requires IsLineSession(log, xs, start, persisted) && next == k + 1 <= |xs|
    ensures var ids := IdsIn(xs[k]);
      ResumeId(xs, next, start, persisted) == NextResumeId(LastIdOf(ids, |ids|), ResumeId(xs, k, start, persisted))
  {
    ResumeIdNext(xs, k, next, start, persisted);
    assert IsContact(log, xs[k], ResumeId(xs, k, start, persisted), persisted);
    LastIdRead(log, xs[k], ResumeId(xs, k, start, persisted), persisted);
  }

  lemma ResumeMoves(log: seq<Entry>, xs: seq<Contact>, k: nat, next: nat, start: nat, p: nat, persisted: set<string>)
    requires IsLineSession(log, xs, start, persisted) && next == k + 1 <= |xs|
    requires var ids := IdsIn(xs[k]);
      if ids == [] then p == Position(log, |log|, ResumeId(xs, k, start, persisted))
      else FromLog(ids[|ids| - 1]) && Position(log, |log|, ids[|ids| - 1].id.value) == p
    ensures Position(log, |log|, ResumeId(xs, next, start, persisted)) == p
    ensures IdsIn(xs[k]) != [] ==> ResumeId(xs, next, start, persisted) == IdsIn(xs[k])[|IdsIn(xs[k])| - 1].id.value
    ensures IdsIn(xs[k]) == [] ==> ResumeId(xs, next, start, persisted) == ResumeId(xs, k, start, persisted)
  {
    ResumeAfter(log, xs, k, next, start, persisted);
    NextResumeIdOf(IdsIn(xs[k]), ResumeId(xs, k, start, persisted));
  }

  predicate HasId(events: seq<Block>, id: nat) {
    exists i :: 0 <= i < |events| && events[i].Event? && events[i].id == Some(id)
  }

  /** What has been seen of the events w, given the lost ids, all of them up to `top`. */
  ghost predicate AllBut(seen: seq<Block>, w: seq<Block>, lost: set<nat>, top: int) {
    seen == Without(w, lost) && forall id :: id in lost ==> id <= top && HasId(w, id)
  }

  /** Over the first k connections the reader has seen the well-formed entries up to where the next one
      starts, but for those whose connection was cut between their id and their data. */
  ghost predicate SeenAllBut(log: seq<Entry>, xs: seq<Contact>, k: nat, start: nat, persisted: set<string>)
    requires k <= |xs| && forall i :: 0 <= i < |xs| ==> Cuts(xs[i])
  {
    var from, p := Position(log, |log|, start), Position(log, |log|, ResumeId(xs, k, start, persisted));
    from <= p && AllBut(AllSeen(xs, k), WellFormed(log, from, p), LostIds(xs, k), IdBeforePosition(log, p))
  }

  /** The next piece of events, whose ids are after `low`, has all been seen. */
  lemma AddsPiece(seen: seq<Block>, w: seq<Block>, lost: set<nat>, piece: seq<Block>, low: int, high: int)
    requires AllBut(seen, w, lost, low) && low <= high && IdsWithin(piece, low, high + 1)
    ensures AllBut(seen + piece, w + piece, lost, high)
  {
    WithoutConcat(w, piece, lost);
    WithoutOthers(piece, lost);
    forall id | id in lost ensures HasId(w + piece, id) {
      HasIdInJoined(w, piece, id);
    }
  }

  lemma {:induction false} WithoutAfter(w: seq<Block>, lost: set<nat>, id: nat, low: int, first: int)
    requires IdsWithin(w, first, low + 1) && low < id
    ensures Without(w, lost + {id}) == Without(w, lost)
  {
    WithoutSame(w, lost, lost + {id});
  }

  lemma LosesOne(w: seq<Block>, front: seq<Block>, b: Block, lost: set<nat>, low: int, high: int)
    requires IdsWithin(front + [b], low, high + 1) && (forall id :: id in lost ==> id <= low)
    ensures FromLog(b) && low < b.id.value <= high && Without(front + [b], lost + {b.id.value}) == front
  {
    var piece, n := front + [b], |front|;
    assert piece[n] == b && forall i :: 0 <= i < n ==> piece[i] == front[i];
    WithoutOthers(front, lost + {b.id.value});
    assert piece[..n] == front;
    assert HasIdIn(piece[n], lost + {b.id.value});
  }

  /** Of the next piece, the last event has not been seen. */
  lemma LosesLast(seen: seq<Block>, w: seq<Block>, lost: set<nat>, front: seq<Block>, b: Block, first: int, low: int, high: int)
    requires AllBut(seen, w, lost, low) && low <= high && IdsWithin(w, first, low + 1) && IdsWithin(front + [b], low, high + 1)
    ensures FromLog(b) && AllBut(seen + front, w + (front + [b]), lost + {b.id.value}, high)
  {
    var piece := front + [b];
    LosesOne(w, front, b, lost, low, high);
    var id := b.id.value;
    WithoutConcat(w, piece, lost + {id});
    WithoutAfter(w, lost, id, low, first);
    assert piece[|front|] == b && HasId(piece, id);
    forall other | other in lost + {id} ensures HasId(w + piece, other) {
      HasIdInJoined(w, piece, other);
    }
  }

  lemma HasIdInJoined(a: seq<Block>, b: seq<Block>, id: nat)
    requires HasId(a, id) || HasId(b, id)
    ensures HasId(a + b, id)
  {
    if HasId(a, id) {
      var i :| 0 <= i < |a| && a[i].Event? && a[i].id == Some(id);
      assert (a + b)[i] == a[i];
    } else {
      var i :| 0 <= i < |b| && b[i].Event? && b[i].id == Some(id);
      assert (a + b)[|a| + i] == b[i];
    }
  }

  lemma ContactAddsPiece(log: seq<Entry>, xs: seq<Contact>, k: nat, next: nat, start: nat, persisted: set<string>)
    requires IsLineSession(log, xs, start, persisted) && next == k + 1 <= |xs|
    requires SeenAllBut(log, xs, k, start, persisted)
    ensures SeenAllBut(log, xs, next, start, persisted)
  {
    var x, from := xs[k], Position(log, |log|, start);
    var q := Position(log, |log|, ResumeId(xs, k, start, persisted));
    assert IsContact(log, x, ResumeId(xs, k, start, persisted), persisted);
    var p := IdsArrive(log, x, ResumeId(xs, k, start, persisted), persisted);
    ResumeMoves(log, xs, k, next, start, p, persisted);
    WellFormedJoins(log, from, q, p);
    WellFormedIds(log, from, q);
    WellFormedIds(log, q, p);
    PieceSeen(x, AllSeen(xs, k), WellFormed(log, from, q), LostIds(xs, k), WellFormed(log, q, p), IdBeforePosition(log, from),
              IdBeforePosition(log, q), IdBeforePosition(log, p));
    OneMoreSeen(xs, k, next);
  }

  lemma OneMoreSeen(xs: seq<Contact>, k: nat, next: nat)
    requires next == k + 1 <= |xs| && forall i :: 0 <= i < |xs| ==> Cuts(xs[i])
    ensures AllSeen(xs, next) == AllSeen(xs, k) + SeenIn(xs[k]) && LostIds(xs, next) == LostIds(xs, k) + LostBy(xs[k])
  {
    assert next - 1 == k;
  }

  lemma PieceSeen(x: Contact, seen: seq<Block>, w: seq<Block>, lost: set<nat>, piece: seq<Block>, first: int, low: int, high: int)
    requires Cuts(x) && IdsIn(x) == piece && AllBut(seen, w, lost, low) && low <= high
    requires IdsWithin(w, first, low + 1) && IdsWithin(piece, low, high + 1)
    ensures AllBut(seen + SeenIn(x), w + piece, lost + LostBy(x), high)
  {
    SeenOfIds(x);
    if Loses(x) {
      LosesLast(seen, w, lost, SeenIn(x), x.out[x.blocks], first, low, high);
    } else {
      AddsPiece(seen, w, lost, piece, low, high);
      assert lost + {} == lost;
    }
  }

  lemma {:induction false} SeenExactly(log: seq<Entry>, xs: seq<Contact>, k: nat, start: nat, persisted: set<string>)
    requires IsLineSession(log, xs, start, persisted) && k <= |xs|
    ensures SeenAllBut(log, xs, k, start, persisted)
  {
    if k > 0 {
      var j := k - 1;
      SeenExactly(log, xs, j, start, persisted);
      ContactAddsPiece(log, xs, j, k, start, persisted);
    }
  }

  lemma {:induction false} LostIdsExactly(xs: seq<Contact>, k: nat)
    requires k <= |xs|
    ensures LostIds(xs, k) == {} <==> forall i :: 0 <= i < k ==> !Loses(xs[i])
  {
    if k > 0 {
      LostIdsExactly(xs, k - 1);
    }
  }

  /** However often the client is cut off, wherever in a block, and resumes: it has seen every well-formed
      entry up to where it would resume, if and only if no cut fell between the id line and the data line
      of an event. */
  lemma NothingMissedExactly(log: seq<Entry>, xs: seq<Contact>, start: nat, persisted: set<string>)
    requires IsLineSession(log, xs, start, persisted)
    ensures var p := Position(log, |log|, ResumeId(xs, |xs|, start, persisted));
      (AllSeen(xs, |xs|) == WellFormed(log, Position(log, |log|, start), p)) <==>
        forall i :: 0 <= i < |xs| ==> !Loses(xs[i])
  {
    var k := |xs|;
    var w := WellFormed(log, Position(log, |log|, start), Position(log, |log|, ResumeId(xs, k, start, persisted)));
    SeenExactly(log, xs, k, start, persisted);
    LostIdsExactly(xs, k);
    if LostIds(xs, k) == {} {
      WithoutOthers(w, {});
    } else {
      var id :| id in LostIds(xs, k);
      assert HasId(w, id);
      var i :| 0 <= i < |w| && w[i].Event? && w[i].id == Some(id);
      assert HasIdIn(w[i], LostIds(xs, k));
      WithoutIsShorter(w, LostIds(xs, k));
    }
  }

  lemma {:induction false} LostIdsOfOne(xs: seq<Contact>, k: nat, i: nat)
    requires k <= |xs| && i < |xs| && forall j :: 0 <= j < k && j != i ==> !Loses(xs[j])
    ensures LostIds(xs, k) == if i < k then LostBy(xs[i]) else {}
  {
    if k > 0 {
      LostIdsOfOne(xs, k - 1, i);
    }
  }

  /** With one such cut, it misses exactly that event. */
  lemma OneCutMissesOne(log: seq<Entry>, xs: seq<Contact>, i: nat, start: nat, persisted: set<string>)
    requires IsLineSession(log, xs, start, persisted) && i < |xs| && Loses(xs[i])
    requires forall j :: 0 <= j < |xs| && j != i ==> !Loses(xs[j])
    ensures var p := Position(log, |log|, ResumeId(xs, |xs|, start, persisted));
            var w, id := WellFormed(log, Position(log, |log|, start), p), xs[i].out[xs[i].blocks].id.value;
      HasId(w, id) && AllSeen(xs, |xs|) == Without(w, {id})
  {
    SeenExactly(log, xs, |xs|, start, persisted);
    LostIdsOfOne(xs, |xs|, i);
  }

  // ---------------------------------------------------------------------
  // Exactly once
  // ---------------------------------------------------------------------

  /** The connection by the blocks of which at least a line arrived. */
  function ByBlocks(x: Contact): Connection
    requires Cuts(x)
  {
    Connection(x.polls, x.out, x.last, x.outcome, Begun(x))
  }

  function AllByBlocks(xs: seq<Contact>): (cs: seq<Connection>)
    requires forall i :: 0 <= i < |xs| ==> Cuts(xs[i])
    ensures |cs| == |xs|
  {
    seq(|xs|, i requires 0 <= i < |xs| => ByBlocks(xs[i]))
  }

  lemma ReceivedByBlocks(x: Contact)
    requires Cuts(x)
    ensures Received(ByBlocks(x)) == IdsIn(x)
  {
    assert x.out[..|x.out|] == x.out;
  }

  lemma {:induction false} CursorByBlocks(log: seq<Entry>, xs: seq<Contact>, k: nat, start: nat, persisted: set<string>)
    requires IsLineSession(log, xs, start, persisted) && k <= |xs|
    ensures Cursor(AllByBlocks(xs), k, start) == ResumeId(xs, k, start, persisted)
  {
    if k > 0 {
      var j := k - 1;
      CursorByBlocks(log, xs, j, start, persisted);
      assert IsContact(log, xs[j], ResumeId(xs, j, start, persisted), persisted);
      var p := IdsArrive(log, xs[j], ResumeId(xs, j, start, persisted), persisted);
      ResumeMoves(log, xs, j, k, start, p, persisted);
      ReceivedByBlocks(xs[j]);
    }
  }

  lemma {:induction false} SeenByBlocks(xs: seq<Contact>, k: nat)
    requires k <= |xs| && forall i :: 0 <= i < |xs| ==> Cuts(xs[i]) && !Loses(xs[i])
    ensures AllSeen(xs, k) == Arrived(AllByBlocks(xs), k)
  {
    if k > 0 {
      var j := k - 1;
      SeenByBlocks(xs, j);
      OneMoreSeen(xs, j, k);
      ArrivedMore(AllByBlocks(xs), j, k);
      ReceivedByBlocks(xs[j]);
      SeenOfIds(xs[j]);
    }
  }

  /** Without such a cut, and if the client does not come back once it has seen a terminal event, it sees
      each event once and in order, and with a terminal event in hand all of them up to the first. */
  lemma SeenExactlyOnce(log: seq<Entry>, xs: seq<Contact>, start: nat, persisted: set<string>)
    requires IsLineSession(log, xs, start, persisted) && forall i :: 0 <= i < |xs| ==> !Loses(xs[i])
    requires forall i :: 0 <= i < |xs| - 1 ==> !HasTerminal(SeenIn(xs[i]), persisted)
    ensures var from, all := Position(log, |log|, start), AllSeen(xs, |xs|);
      && all <= Deliverable(log, from, |log|, persisted)
      && IdsIncrease(all)
      && (HasTerminal(all, persisted) ==> all == Deliverable(log, from, |log|, persisted))
  {
    var cs := AllByBlocks(xs);
    forall i | 0 <= i < |cs| ensures IsConnection(log, cs[i], Cursor(cs, i, start), persisted) {
      CursorByBlocks(log, xs, i, start, persisted);
      assert IsContact(log, xs[i], ResumeId(xs, i, start, persisted), persisted);
    }
    forall i | 0 <= i < |cs| - 1 ensures !HasTerminal(Received(cs[i]), persisted) {
      ReceivedByBlocks(xs[i]);
    }
    SeenByBlocks(xs, |xs|);
    ExactlyOnce(log, cs, start, persisted);
  }
}

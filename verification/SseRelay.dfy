/** The relay from a request's event log to a subscriber, and resuming it
    (src/api/routers/chat.py). The log only grows. */
module SseRelay {
  import opened PyText

  /** What a log entry holds. `data` is the text of the fields other than the type. */
  datatype Payload = Absent | Unparsable | NotObject | Fields(event: string, data: string)

  datatype Entry = Entry(id: nat, payload: Payload)

  /** What the relay yields: a comment, or an event with the id of its log entry, or an event of
      the relay's own with no id. */
  datatype Block = Comment(text: string) | Event(id: Option<nat>, event: string, data: string)

  /** One read of the log: it held the first `len` entries, and, should the relay ask, what is known
      of the worker's failure. Or the read itself failed. */
  datatype Poll = Seen(len: nat, failure: Option<string>) | ReadFails

  datatype Outcome = ClientClosed | Complete | Error

  const BATCH := 10
  const READ_FAILED := "{\"error\": \"Stream read failed\"}"

  predicate IdBefore(log: seq<Entry>, i: nat, j: nat)
    requires i < j < |log|
  {
    log[i].id < log[j].id
  }

  predicate Increasing(log: seq<Entry>) {
    forall i: nat, j: nat :: i < j < |log| ==> IdBefore(log, i, j)
  }

  /** Where the entries after `id` start. */
  function Position(log: seq<Entry>, n: nat, id: nat): (p: nat)
    requires n <= |log|
    ensures p <= n
    ensures p > 0 ==> log[p - 1].id <= id
    ensures p < n ==> log[p].id > id
  {
    if n > 0 && log[n - 1].id > id then Position(log, n - 1, id) else n
  }

  lemma {:induction false} PositionAfter(log: seq<Entry>, n: nat, k: nat)
    requires Increasing(log) && k < n <= |log|
    ensures Position(log, n, log[k].id) == k + 1
  {
    if k < n - 1 {
      assert IdBefore(log, k, n - 1);
      PositionAfter(log, n - 1, k);
    }
  }

  /** At most ten of the first `len` entries, from position p. */
  function Batch(log: seq<Entry>, p: nat, len: nat): seq<Entry>
    requires p <= |log|
  {
    var end := if len < |log| then len else |log|;
    if end <= p then [] else if end <= p + BATCH then log[p..end] else log[p..p + BATCH]
  }

  // ---------------------------------------------------------------------
  // What is to be delivered
  // ---------------------------------------------------------------------

  predicate Terminal(event: string, data: string, persisted: set<string>) {
    event == "error" || (event == "usage" && data in persisted)
  }

  /** The relay ends at this entry: a terminal event, or a payload that is not an object. */
  predicate Stops(e: Entry, persisted: set<string>) {
    e.payload.NotObject? || (e.payload.Fields? && Terminal(e.payload.event, e.payload.data, persisted))
  }

  predicate Stopped(log: seq<Entry>, from: nat, end: nat, persisted: set<string>)
    requires end <= |log|
  {
    from < end && (Stops(log[end - 1], persisted) || Stopped(log, from, end - 1, persisted))
  }

  /** The well-formed entries of log[from..to], in order, up to the first that stops the relay. */
  function Deliverable(log: seq<Entry>, from: nat, end: nat, persisted: set<string>): seq<Block>
    requires end <= |log|
  {
    if end <= from then []
    else
      var before, e := Deliverable(log, from, end - 1, persisted), log[end - 1];
      if Stopped(log, from, end - 1, persisted) || !e.payload.Fields? then before
      else before + [Event(Some(e.id), e.payload.event, e.payload.data)]
  }

  function LogEvents(out: seq<Block>): seq<Block> {
    if out == [] then []
    else
      var b := out[|out| - 1];
      LogEvents(out[..|out| - 1]) + if b.Event? && b.id.Some? then [b] else []
  }

  lemma LogEventsOfMore(out: seq<Block>, b: Block)
    ensures LogEvents(out + [b]) == LogEvents(out) + if b.Event? && b.id.Some? then [b] else []
  {
    assert (out + [b])[..|out|] == out;
  }

  predicate AllSeen(polls: seq<Poll>, k: nat)
    requires k <= |polls|
  {
    forall i :: 0 <= i < k ==> polls[i].Seen?
  }

  /** How far k polls read when nothing stops the relay. */
  function Reached(log: seq<Entry>, polls: seq<Poll>, k: nat, from: nat): (p: nat)
    requires k <= |polls| && from <= |log|
    ensures from <= p <= |log|
  {
    if k == 0 then from
    else
      var p := Reached(log, polls, k - 1, from);
      if polls[k - 1].Seen? then p + |Batch(log, p, polls[k - 1].len)| else p
  }

  /** The first n blocks are comments and events of the log that do not end the relay. */
  predicate Quiet(out: seq<Block>, n: nat, persisted: set<string>)
    requires n <= |out|
  {
    forall i :: 0 <= i < n ==> IsQuiet(out[i], persisted)
  }

  predicate IsQuiet(b: Block, persisted: set<string>) {
    b.Comment? || (b.id.Some? && !Terminal(b.event, b.data, persisted))
  }

  /** What has been yielded agrees with the log up to `last`; only its last block can have ended it. */
  ghost predicate Agrees(log: seq<Entry>, from: nat, out: seq<Block>, last: nat, persisted: set<string>) {
    var p := Position(log, |log|, last);
    && from <= p
    && LogEvents(out) == Deliverable(log, from, p, persisted)
    && out != [] && out[0] == Comment("ok") && Quiet(out, |out| - 1, persisted)
  }

  ghost predicate Running(log: seq<Entry>, from: nat, out: seq<Block>, last: nat, persisted: set<string>) {
    && Agrees(log, from, out, last, persisted)
    && !Stopped(log, from, Position(log, |log|, last), persisted) && Quiet(out, |out|, persisted)
  }

  /** The last block yielded is the persisted usage event, or an error. */
  predicate Ends(out: seq<Block>, complete: bool, persisted: set<string>) {
    out != [] &&
    match out[|out| - 1]
    case Comment(_) => false
    case Event(id, event, data) =>
      if complete then id.Some? && event == "usage" && data in persisted else event == "error"
  }

  /** What one connection has done when it has read the log up to `last`. */
  ghost predicate Relays(log: seq<Entry>, polls: seq<Poll>, lastId: nat, out: seq<Block>, last: nat, outcome: Outcome,
                         persisted: set<string>) {
    var from := Position(log, |log|, lastId);
    && Agrees(log, from, out, last, persisted)
    && (outcome == ClientClosed ==>
          && Running(log, from, out, last, persisted)
          && Position(log, |log|, last) == Reached(log, polls, |polls|, from)
          && AllSeen(polls, |polls|))
    && (outcome == Complete ==> Ends(out, true, persisted))
    && (outcome == Error ==> Ends(out, false, persisted))
  }

  // ---------------------------------------------------------------------
  // What one connection yields, block by block
  // ---------------------------------------------------------------------

  /** A poll reads at most ten entries, and fewer only when no more are there. */
  lemma ReachesTenAtMost(log: seq<Entry>, polls: seq<Poll>, k: nat, next: nat, from: nat)
    requires k + 1 == next <= |polls| && from <= |log|
    ensures var p, q := Reached(log, polls, k, from), Reached(log, polls, next, from);
      match polls[k]
      case ReadFails => q == p
      case Seen(len, _) => p <= q <= p + 10 && (q < p + 10 ==> q == p || q == len || q == |log|)
                           && (q == p ==> len <= p || p == |log|)
  {
    assert next - 1 == k;
  }

  /** The third poll in a row that reads nothing, or a later one. */
  predicate ThirdEmpty(log: seq<Entry>, polls: seq<Poll>, k: nat, from: nat)
    requires k < |polls| && from <= |log|
  {
    k >= 2 && Reached(log, polls, k - 2, from) == Reached(log, polls, k + 1, from)
  }

  /** What ends the relay: a read that fails, a failure of the worker that is known when a third poll in a row
      is empty, or an entry it stops at. */
  predicate RoundEnds(log: seq<Entry>, polls: seq<Poll>, k: nat, from: nat, persisted: set<string>)
    requires k < |polls| && from <= |log|
  {
    match polls[k]
    case ReadFails => true
    case Seen(_, failure) =>
      || (ThirdEmpty(log, polls, k, from) && failure.Some?)
      || Stopped(log, Reached(log, polls, k, from), Reached(log, polls, k + 1, from), persisted)
  }

  /** The greeting, and after each poll a keepalive or the events it read. */
  function Yielded(log: seq<Entry>, polls: seq<Poll>, k: nat, from: nat, persisted: set<string>): seq<Block>
    requires k <= |polls| && from <= |log|
  {
    if k == 0 then [Comment("ok")]
    else
      var p, q := Reached(log, polls, k - 1, from), Reached(log, polls, k, from);
      Yielded(log, polls, k - 1, from, persisted) + if p == q then [Comment("keepalive")] else Deliverable(log, p, q, persisted)
  }

  /** Entry s is the first at or after p to stop the relay, which yields its event, or an error of its own
      for a payload that is not an object. */
  ghost predicate StopsAt(log: seq<Entry>, p: nat, s: nat, end: nat, tail: seq<Block>, outcome: Outcome, persisted: set<string>) {
    && p <= s < end <= |log| && Stops(log[s], persisted) && !Stopped(log, p, s, persisted)
    && tail == Deliverable(log, p, s + 1, persisted)
               + (if log[s].payload.NotObject? then [Event(None, "error", "{\"error\": \"Stream read failed\"}")] else [])
    && outcome == if log[s].payload.Fields? && log[s].payload.event == "usage" then Complete else Error
  }

  /** What the poll that ends the relay makes it yield. */
  ghost predicate EndsWith(log: seq<Entry>, polls: seq<Poll>, k: nat, from: nat, tail: seq<Block>, outcome: Outcome,
                           persisted: set<string>)
    requires k < |polls| && from <= |log|
  {
    var p, q := Reached(log, polls, k, from), Reached(log, polls, k + 1, from);
    match polls[k]
    case ReadFails => tail == [Event(None, "error", "{\"error\": \"Stream read failed\"}")] && outcome == Error
    case Seen(_, failure) =>
      if p == q then ThirdEmpty(log, polls, k, from) && failure.Some? && tail == [Event(None, "error", failure.value)] && outcome == Error
      else exists s: nat :: StopsAt(log, p, s, q, tail, outcome, persisted)
  }

  ghost predicate NotEnded(log: seq<Entry>, polls: seq<Poll>, k: nat, from: nat, persisted: set<string>)
    requires k <= |polls| && from <= |log|
  {
    forall i: nat :: i < k ==> !RoundEnds(log, polls, i, from, persisted)
  }

  /** The relay ended at poll k, and not before. */
  ghost predicate EndedBy(log: seq<Entry>, polls: seq<Poll>, k: nat, from: nat, out: seq<Block>, outcome: Outcome,
                          persisted: set<string>)
    requires k < |polls| && from <= |log|
  {
    var before := Yielded(log, polls, k, from, persisted);
    && NotEnded(log, polls, k, from, persisted) && RoundEnds(log, polls, k, from, persisted)
    && before <= out && EndsWith(log, polls, k, from, out[|before|..], outcome, persisted)
  }

  /** Everything one connection yields, and how it ends. */
  ghost predicate YieldsExactly(log: seq<Entry>, polls: seq<Poll>, lastId: nat, out: seq<Block>, outcome: Outcome,
                                persisted: set<string>) {
    var from := Position(log, |log|, lastId);
    if outcome == ClientClosed then
      NotEnded(log, polls, |polls|, from, persisted) && out == Yielded(log, polls, |polls|, from, persisted)
    else exists k: nat :: k < |polls| && EndedBy(log, polls, k, from, out, outcome, persisted)
  }

  /** The number of empty polls just before poll k. */
  ghost predicate EmptyBefore(log: seq<Entry>, polls: seq<Poll>, k: nat, from: nat, empty: nat)
    requires k <= |polls| && from <= |log|
  {
    var p := Reached(log, polls, k, from);
    && empty <= k
    && (forall i: nat :: k - empty <= i <= k ==> Reached(log, polls, i, from) == p)
    && (forall i: nat :: i + empty < k ==> Reached(log, polls, i, from) < p)
  }

  ghost predicate Told(log: seq<Entry>, polls: seq<Poll>, k: nat, from: nat, out: seq<Block>, empty: nat, persisted: set<string>)
    requires k <= |polls| && from <= |log|
  {
    && EmptyBefore(log, polls, k, from, empty) && NotEnded(log, polls, k, from, persisted)
    && out == Yielded(log, polls, k, from, persisted)
  }

  lemma ReadFailureEnds(log: seq<Entry>, polls: seq<Poll>, k: nat, from: nat, out: seq<Block>, empty: nat, persisted: set<string>)
    requires k < |polls| && from <= |log| && polls[k].ReadFails? && Told(log, polls, k, from, out, empty, persisted)
    ensures EndedBy(log, polls, k, from, out + [Event(None, "error", READ_FAILED)], Error, persisted)
  {
  }

  lemma EmptyPoll(log: seq<Entry>, polls: seq<Poll>, k: nat, next: nat, from: nat, empty: nat)
    requires k + 1 == next <= |polls| && from <= |log| && EmptyBefore(log, polls, k, from, empty)
    requires Reached(log, polls, next, from) == Reached(log, polls, k, from)
    ensures EmptyBefore(log, polls, next, from, empty + 1)
    ensures ThirdEmpty(log, polls, k, from) <==> empty + 1 >= 3
  {
    if k >= 2 {
      var i := k - 2;
      assert i + empty < k ==> Reached(log, polls, i, from) < Reached(log, polls, k, from);
    }
  }

  lemma FailureEnds(log: seq<Entry>, polls: seq<Poll>, k: nat, next: nat, from: nat, out: seq<Block>, empty: nat, persisted: set<string>)
    requires k + 1 == next <= |polls| && from <= |log| && Told(log, polls, k, from, out, empty, persisted)
    requires polls[k].Seen? && polls[k].failure.Some? && empty + 1 >= 3
    requires Reached(log, polls, next, from) == Reached(log, polls, k, from)
    ensures EndedBy(log, polls, k, from, out + [Event(None, "error", polls[k].failure.value)], Error, persisted)
  {
    EmptyPoll(log, polls, k, next, from, empty);
  }

  lemma {:induction false} ReachedGrows(log: seq<Entry>, polls: seq<Poll>, i: nat, k: nat, from: nat)
    requires i <= k <= |polls| && from <= |log|
    ensures Reached(log, polls, i, from) <= Reached(log, polls, k, from)
  {
    if i < k {
      ReachedGrows(log, polls, i, k - 1, from);
    }
  }

  lemma NotEndedNext(log: seq<Entry>, polls: seq<Poll>, k: nat, next: nat, from: nat, persisted: set<string>)
    requires k + 1 == next <= |polls| && from <= |log|
    requires NotEnded(log, polls, k, from, persisted) && !RoundEnds(log, polls, k, from, persisted)
    ensures NotEnded(log, polls, next, from, persisted)
  {
  }

  lemma YieldedNext(log: seq<Entry>, polls: seq<Poll>, k: nat, next: nat, from: nat, persisted: set<string>)
    requires k + 1 == next <= |polls| && from <= |log|
    ensures var p, q := Reached(log, polls, k, from), Reached(log, polls, next, from);
      Yielded(log, polls, next, from, persisted)
        == Yielded(log, polls, k, from, persisted) + if p == q then [Comment("keepalive")] else Deliverable(log, p, q, persisted)
  {
    assert next - 1 == k;
  }

  lemma NothingStops(log: seq<Entry>, p: nat, persisted: set<string>)
    requires p <= |log|
    ensures !Stopped(log, p, p, persisted)
  {
  }

  lemma KeepaliveTold(log: seq<Entry>, polls: seq<Poll>, k: nat, next: nat, from: nat, out: seq<Block>, empty: nat, persisted: set<string>)
    requires k + 1 == next <= |polls| && from <= |log| && Told(log, polls, k, from, out, empty, persisted)
    requires polls[k].Seen? && (polls[k].failure.None? || empty + 1 < 3)
    requires Reached(log, polls, next, from) == Reached(log, polls, k, from)
    ensures Told(log, polls, next, from, out + [Comment("keepalive")], empty + 1, persisted)
  {
    EmptyPoll(log, polls, k, next, from, empty);
    NothingStops(log, Reached(log, polls, k, from), persisted);
    NotEndedNext(log, polls, k, next, from, persisted);
    YieldedNext(log, polls, k, next, from, persisted);
  }

  lemma EventsPoll(log: seq<Entry>, polls: seq<Poll>, k: nat, next: nat, from: nat)
    requires k + 1 == next <= |polls| && from <= |log| && Reached(log, polls, next, from) > Reached(log, polls, k, from)
    ensures EmptyBefore(log, polls, next, from, 0) && !ThirdEmpty(log, polls, k, from)
  {
    forall i: nat | i < next ensures Reached(log, polls, i, from) < Reached(log, polls, next, from) {
      ReachedGrows(log, polls, i, k, from);
    }
  }

  lemma EventsTold(log: seq<Entry>, polls: seq<Poll>, k: nat, next: nat, from: nat, out: seq<Block>, empty: nat, persisted: set<string>)
    requires k + 1 == next <= |polls| && from <= |log| && Told(log, polls, k, from, out, empty, persisted)
    requires polls[k].Seen? && Reached(log, polls, next, from) > Reached(log, polls, k, from)
    requires !Stopped(log, Reached(log, polls, k, from), Reached(log, polls, next, from), persisted)
    ensures Told(log, polls, next, from,
                 out + Deliverable(log, Reached(log, polls, k, from), Reached(log, polls, next, from), persisted), 0, persisted)
  {
    EventsPoll(log, polls, k, next, from);
    NotEndedNext(log, polls, k, next, from, persisted);
    YieldedNext(log, polls, k, next, from, persisted);
  }

  /** An entry that stops the relay ends the round in which it is read. */
  lemma StopEndsRound(log: seq<Entry>, polls: seq<Poll>, k: nat, next: nat, from: nat, tail: seq<Block>, s: nat,
                      outcome: Outcome, persisted: set<string>)
    requires k + 1 == next <= |polls| && from <= |log| && polls[k].Seen?
    requires StopsAt(log, Reached(log, polls, k, from), s, Reached(log, polls, next, from), tail, outcome, persisted)
    ensures RoundEnds(log, polls, k, from, persisted) && EndsWith(log, polls, k, from, tail, outcome, persisted)
  {
    StoppedAfter(log, Reached(log, polls, k, from), s, Reached(log, polls, next, from), persisted);
  }

  lemma RoundEndsRun(log: seq<Entry>, polls: seq<Poll>, k: nat, from: nat, yielded: seq<Block>, empty: nat, out: seq<Block>,
                     outcome: Outcome, persisted: set<string>)
    requires k < |polls| && from <= |log| && Told(log, polls, k, from, yielded, empty, persisted) && yielded <= out
    requires RoundEnds(log, polls, k, from, persisted) && EndsWith(log, polls, k, from, out[|yielded|..], outcome, persisted)
    ensures EndedBy(log, polls, k, from, out, outcome, persisted)
  {
  }

  lemma {:induction false} StoppedAfter(log: seq<Entry>, p: nat, s: nat, end: nat, persisted: set<string>)
    requires p <= s < end <= |log| && Stops(log[s], persisted)
    ensures Stopped(log, p, end, persisted)
  {
    var q := end - 1;
    if s < q {
      StoppedAfter(log, p, s, q, persisted);
    }
  }

  // ---------------------------------------------------------------------
  // The relay
  // ---------------------------------------------------------------------

  lemma OwnBlockKeepsAgreement(log: seq<Entry>, from: nat, out: seq<Block>, last: nat, b: Block, persisted: set<string>)
    requires Agrees(log, from, out, last, persisted) && Quiet(out, |out|, persisted) && (b.Comment? || b.id.None?)
    ensures Agrees(log, from, out + [b], last, persisted)
    ensures b.Comment? && Running(log, from, out, last, persisted) ==> Running(log, from, out + [b], last, persisted)
  {
    LogEventsOfMore(out, b);
  }

  lemma OwnErrorEnds(log: seq<Entry>, from: nat, out: seq<Block>, last: nat, data: string, persisted: set<string>)
    requires Agrees(log, from, out, last, persisted) && Quiet(out, |out|, persisted)
    ensures Agrees(log, from, out + [Event(None, "error", data)], last, persisted)
    ensures Ends(out + [Event(None, "error", data)], false, persisted)
  {
    OwnBlockKeepsAgreement(log, from, out, last, Event(None, "error", data), persisted);
  }

  lemma NothingRelayedYet(log: seq<Entry>, lastId: nat, persisted: set<string>)
    ensures Running(log, Position(log, |log|, lastId), [Comment("ok")], lastId, persisted)
  {
    LogEventsOfMore([], Comment("ok"));
  }

  lemma BatchIsSlice(log: seq<Entry>, p: nat, len: nat)
    requires p <= |log|
    ensures p + |Batch(log, p, len)| <= |log| && Batch(log, p, len) == log[p..p + |Batch(log, p, len)|]
  {
  }

  /** Reading one more entry, and yielding its event if it has one. */
  lemma EntryKeepsAgreement(log: seq<Entry>, from: nat, out: seq<Block>, last: nat, p: nat, persisted: set<string>)
    requires Increasing(log) && Running(log, from, out, last, persisted)
    requires p == Position(log, |log|, last) < |log|
    ensures var e := log[p];
            var more := if e.payload.Fields? then out + [Event(Some(e.id), e.payload.event, e.payload.data)] else out;
      && Position(log, |log|, e.id) == p + 1
      && Agrees(log, from, more, e.id, persisted)
      && (!e.payload.Fields? ==> Quiet(more, |more|, persisted))
      && (!Stops(e, persisted) ==> Running(log, from, more, e.id, persisted))
  {
    var e := log[p];
    PositionAfter(log, |log|, p);
    if e.payload.Fields? {
      LogEventsOfMore(out, Event(Some(e.id), e.payload.event, e.payload.data));
    }
  }

  /** What has been yielded agrees with what the first k polls showed, and nothing has ended it. */
  ghost predicate Polled(log: seq<Entry>, polls: seq<Poll>, k: nat, from: nat, out: seq<Block>, last: nat,
                         persisted: set<string>)
    requires k <= |polls| && from <= |log|
  {
    && Running(log, from, out, last, persisted)
    && Position(log, |log|, last) == Reached(log, polls, k, from)
    && AllSeen(polls, k)
  }

  /** A poll keeps that when what is yielded after it agrees with as many entries more as it showed. */
  lemma OnePollMore(log: seq<Entry>, polls: seq<Poll>, k: nat, next: nat, from: nat, out: seq<Block>, last: nat,
                    out': seq<Block>, last': nat, persisted: set<string>)
    requires k + 1 == next <= |polls| && from <= |log| && polls[k].Seen?
    requires Polled(log, polls, k, from, out, last, persisted) && Running(log, from, out', last', persisted)
    requires var p := Position(log, |log|, last);
      Position(log, |log|, last') == p + |Batch(log, p, polls[k].len)|
    ensures Polled(log, polls, next, from, out', last', persisted)
  {
    ReachedNext(log, polls, k, next, from);
  }

  lemma ReachedNext(log: seq<Entry>, polls: seq<Poll>, k: nat, next: nat, from: nat)
    requires k + 1 == next <= |polls| && from <= |log| && polls[k].Seen?
    ensures AllSeen(polls, next) == AllSeen(polls, k)
    ensures var p := Reached(log, polls, k, from);
      Reached(log, polls, next, from) == p + |Batch(log, p, polls[k].len)|
  {
    assert next - 1 == k;
  }

  lemma NothingNew(log: seq<Entry>, polls: seq<Poll>, k: nat, next: nat, from: nat, out: seq<Block>, last: nat,
                   b: Block, persisted: set<string>)
    requires k + 1 == next <= |polls| && from <= |log| && polls[k].Seen? && b.Comment?
    requires Polled(log, polls, k, from, out, last, persisted)
    requires |Batch(log, Position(log, |log|, last), polls[k].len)| == 0
    ensures Polled(log, polls, next, from, out + [b], last, persisted)
  {
    OwnBlockKeepsAgreement(log, from, out, last, b, persisted);
    OnePollMore(log, polls, k, next, from, out, last, out + [b], last, persisted);
  }

  lemma EndedRelays(log: seq<Entry>, polls: seq<Poll>, lastId: nat, out: seq<Block>, last: nat, outcome: Outcome,
                    persisted: set<string>)
    requires Agrees(log, Position(log, |log|, lastId), out, last, persisted)
    requires outcome != ClientClosed && Ends(out, outcome == Complete, persisted)
    ensures Relays(log, polls, lastId, out, last, outcome, persisted)
  {
  }

  lemma OwnErrorRelays(log: seq<Entry>, polls: seq<Poll>, k: nat, lastId: nat, out: seq<Block>, last: nat, data: string,
                       persisted: set<string>)
    requires k <= |polls| && Polled(log, polls, k, Position(log, |log|, lastId), out, last, persisted)
    ensures Relays(log, polls, lastId, out + [Event(None, "error", data)], last, Error, persisted)
  {
    OwnErrorEnds(log, Position(log, |log|, lastId), out, last, data, persisted);
    EndedRelays(log, polls, lastId, out + [Event(None, "error", data)], last, Error, persisted);
  }

  lemma PolledRelays(log: seq<Entry>, polls: seq<Poll>, lastId: nat, out: seq<Block>, last: nat, persisted: set<string>)
    requires Polled(log, polls, |polls|, Position(log, |log|, lastId), out, last, persisted)
    ensures Relays(log, polls, lastId, out, last, ClientClosed, persisted)
  {
  }

  /** The id of the last entry before `end`, when any has been read since p. */
  function LastRead(log: seq<Entry>, p: nat, end: nat, readTo: nat): nat
    requires end <= |log|
  {
    if end <= p then readTo else log[end - 1].id
  }

  /** The blocks yielded for the entries from p on, up to `end`, and how far the relay then is. */
  ghost predicate RelaysBatch(log: seq<Entry>, p: nat, end: nat, readTo: nat, tail: seq<Block>, last: nat, outcome: Outcome,
                              persisted: set<string>)
    requires p <= end <= |log|
  {
    if outcome == ClientClosed then
      !Stopped(log, p, end, persisted) && tail == Deliverable(log, p, end, persisted) && last == LastRead(log, p, end, readTo)
    else exists s: nat :: StopsAt(log, p, s, end, tail, outcome, persisted) && last == log[s].id
  }

  /** What one more entry yields. */
  function EntryBlocks(e: Entry): seq<Block> {
    match e.payload
    case Fields(event, data) => [Event(Some(e.id), event, data)]
    case NotObject => [Event(None, "error", READ_FAILED)]
    case _ => []
  }

  function EntryOutcome(e: Entry, persisted: set<string>): Outcome {
    if !Stops(e, persisted) then ClientClosed
    else if e.payload.Fields? && e.payload.event == "usage" then Complete else Error
  }

  lemma OneEntryMore(log: seq<Entry>, p: nat, i: nat, next: nat, end: nat, readTo: nat, tail: seq<Block>, last: nat,
                     persisted: set<string>)
    requires p <= i < next == i + 1 <= end <= |log| && RelaysBatch(log, p, i, readTo, tail, last, ClientClosed, persisted)
    ensures var outcome := EntryOutcome(log[i], persisted);
      RelaysBatch(log, p, if outcome == ClientClosed then next else end, readTo, tail + EntryBlocks(log[i]), log[i].id,
                  outcome, persisted)
  {
    assert next - 1 == i;
    if Stops(log[i], persisted) {
      assert StopsAt(log, p, i, end, tail + EntryBlocks(log[i]), EntryOutcome(log[i], persisted), persisted);
    }
  }

  /** The loop over the entries of one read, log[p..end]. */
  method RelayEntries(ghost log: seq<Entry>, ghost p: nat, ghost end: nat, entries: seq<Entry>, yielded: seq<Block>,
                      readTo: nat, persisted: set<string>)
    returns (ghost tail: seq<Block>, out: seq<Block>, last: nat, outcome: Outcome)
    requires p + |entries| == end <= |log| && entries == log[p..end]
    ensures out == yielded + tail && RelaysBatch(log, p, end, readTo, tail, last, outcome, persisted)
  {
    tail := [];
    out, last, outcome := yielded, readTo, ClientClosed;
    for j := 0 to |entries|
      invariant out == yielded + tail && outcome == ClientClosed
      invariant RelaysBatch(log, p, p + j, readTo, tail, last, ClientClosed, persisted)
    {
      var e := entries[j];
      OneEntryMore(log, p, p + j, p + j + 1, end, readTo, tail, last, persisted);
      tail := tail + EntryBlocks(e);
      last := e.id;
      match e.payload
      case Absent =>
      case Unparsable =>
      case NotObject =>
        out := out + [Event(None, "error", READ_FAILED)];
        outcome := Error;
        return;
      case Fields(event, data) =>
        out := out + [Event(Some(e.id), event, data)];
        if event == "usage" && data in persisted {
          outcome := Complete;
          return;
        }
        if event == "error" {
          outcome := Error;
          return;
        }
    }
  }

  /** Reading entries none of which stops the relay keeps the agreement with the log. */
  lemma {:induction false} EntriesKeepAgreement(log: seq<Entry>, from: nat, yielded: seq<Block>, readTo: nat, p: nat, end: nat,
                                                persisted: set<string>)
    requires Increasing(log) && Running(log, from, yielded, readTo, persisted)
    requires p == Position(log, |log|, readTo) <= end <= |log| && !Stopped(log, p, end, persisted)
    ensures Running(log, from, yielded + Deliverable(log, p, end, persisted), LastRead(log, p, end, readTo), persisted)
    ensures Position(log, |log|, LastRead(log, p, end, readTo)) == end
  {
    if p < end {
      var i := end - 1;
      EntriesKeepAgreement(log, from, yielded, readTo, p, i, persisted);
      EntryKeepsAgreement(log, from, yielded + Deliverable(log, p, i, persisted), LastRead(log, p, i, readTo), i, persisted);
      MoreBlocks(yielded, Deliverable(log, p, i, persisted), Deliverable(log, p, end, persisted));
    } else {
      assert yielded + Deliverable(log, p, end, persisted) == yielded;
    }
  }

  lemma MoreBlocks(yielded: seq<Block>, before: seq<Block>, after: seq<Block>)
    requires before <= after
    ensures yielded + after == (yielded + before) + after[|before|..]
  {
  }

  lemma StopKeepsAgreement(log: seq<Entry>, from: nat, yielded: seq<Block>, readTo: nat, p: nat, s: nat, next: nat, end: nat,
                           tail: seq<Block>, outcome: Outcome, persisted: set<string>)
    requires Increasing(log) && Running(log, from, yielded, readTo, persisted)
    requires p == Position(log, |log|, readTo) && s + 1 == next && StopsAt(log, p, s, end, tail, outcome, persisted)
    ensures Agrees(log, from, yielded + tail, log[s].id, persisted)
    ensures outcome != ClientClosed && Ends(yielded + tail, outcome == Complete, persisted)
  {
    EntriesKeepAgreement(log, from, yielded, readTo, p, s, persisted);
    var before := Deliverable(log, p, s, persisted);
    EntryKeepsAgreement(log, from, yielded + before, LastRead(log, p, s, readTo), s, persisted);
    assert next - 1 == s;
    MoreBlocks(yielded, before, tail);
    if log[s].payload.NotObject? {
      OwnErrorEnds(log, from, yielded + before, log[s].id, READ_FAILED, persisted);
    }
  }

  lemma BatchKeepsAgreement(log: seq<Entry>, from: nat, yielded: seq<Block>, readTo: nat, p: nat, end: nat, tail: seq<Block>,
                            last: nat, outcome: Outcome, persisted: set<string>)
    requires Increasing(log) && Running(log, from, yielded, readTo, persisted)
    requires p == Position(log, |log|, readTo) <= end <= |log|
    requires RelaysBatch(log, p, end, readTo, tail, last, outcome, persisted)
    ensures Agrees(log, from, yielded + tail, last, persisted)
    ensures outcome == ClientClosed ==> Running(log, from, yielded + tail, last, persisted) && Position(log, |log|, last) == end
    ensures outcome != ClientClosed ==> Ends(yielded + tail, outcome == Complete, persisted)
  {
    if outcome == ClientClosed {
      EntriesKeepAgreement(log, from, yielded, readTo, p, end, persisted);
    } else {
      var s: nat :| StopsAt(log, p, s, end, tail, outcome, persisted) && last == log[s].id;
      StopKeepsAgreement(log, from, yielded, readTo, p, s, s + 1, end, tail, outcome, persisted);
    }
  }

  lemma BatchTold(log: seq<Entry>, polls: seq<Poll>, k: nat, next: nat, from: nat, yielded: seq<Block>, empty: nat,
                  readTo: nat, tail: seq<Block>, last: nat, persisted: set<string>)
    requires k + 1 == next <= |polls| && from <= |log| && Told(log, polls, k, from, yielded, empty, persisted)
    requires polls[k].Seen? && Reached(log, polls, next, from) > Reached(log, polls, k, from)
    requires RelaysBatch(log, Reached(log, polls, k, from), Reached(log, polls, next, from), readTo, tail, last, ClientClosed, persisted)
    ensures Told(log, polls, next, from, yielded + tail, 0, persisted)
  {
    EventsTold(log, polls, k, next, from, yielded, empty, persisted);
  }

  lemma BatchEnds(log: seq<Entry>, polls: seq<Poll>, k: nat, next: nat, from: nat, yielded: seq<Block>, empty: nat,
                  readTo: nat, tail: seq<Block>, last: nat, outcome: Outcome, persisted: set<string>)
    requires k + 1 == next <= |polls| && from <= |log| && Told(log, polls, k, from, yielded, empty, persisted)
    requires polls[k].Seen? && outcome != ClientClosed
    requires RelaysBatch(log, Reached(log, polls, k, from), Reached(log, polls, next, from), readTo, tail, last, outcome, persisted)
    ensures EndedBy(log, polls, k, from, yielded + tail, outcome, persisted)
  {
    var p, q := Reached(log, polls, k, from), Reached(log, polls, next, from);
    var s: nat :| StopsAt(log, p, s, q, tail, outcome, persisted) && last == log[s].id;
    StopEndsRound(log, polls, k, next, from, tail, s, outcome, persisted);
    assert (yielded + tail)[|yielded|..] == tail;
    RoundEndsRun(log, polls, k, from, yielded, empty, yielded + tail, outcome, persisted);
  }

  /** What one poll that finds the relay at p makes it yield. */
  ghost predicate RelaysPoll(log: seq<Entry>, poll: Poll, p: nat, readTo: nat, empty: nat, tail: seq<Block>, last: nat,
                             outcome: Outcome, emptyPolls: nat, persisted: set<string>)
    requires p <= |log|
  {
    match poll
    case ReadFails => tail == [Event(None, "error", READ_FAILED)] && outcome == Error && last == readTo
    case Seen(len, failure) =>
      var n := |Batch(log, p, len)|;
      if n > 0 then emptyPolls == 0 && RelaysBatch(log, p, p + n, readTo, tail, last, outcome, persisted)
      else
        && last == readTo
        && if empty + 1 >= 3 && failure.Some? then tail == [Event(None, "error", failure.value)] && outcome == Error
           else emptyPolls == empty + 1 && tail == [Comment("keepalive")] && outcome == ClientClosed
  }

  lemma PollTold(log: seq<Entry>, polls: seq<Poll>, k: nat, next: nat, from: nat, yielded: seq<Block>, readTo: nat, empty: nat,
                 tail: seq<Block>, last: nat, outcome: Outcome, emptyPolls: nat, persisted: set<string>)
    requires k + 1 == next <= |polls| && from <= |log| && Told(log, polls, k, from, yielded, empty, persisted)
    requires RelaysPoll(log, polls[k], Reached(log, polls, k, from), readTo, empty, tail, last, outcome, emptyPolls, persisted)
    ensures outcome == ClientClosed ==> Told(log, polls, next, from, yielded + tail, emptyPolls, persisted)
    ensures outcome != ClientClosed ==> EndedBy(log, polls, k, from, yielded + tail, outcome, persisted)
  {
    match polls[k]
    case ReadFails => ReadFailureEnds(log, polls, k, from, yielded, empty, persisted);
    case Seen(len, failure) =>
      ReachedNext(log, polls, k, next, from);
      if |Batch(log, Reached(log, polls, k, from), len)| > 0 {
        if outcome == ClientClosed {
          BatchTold(log, polls, k, next, from, yielded, empty, readTo, tail, last, persisted);
        } else {
          BatchEnds(log, polls, k, next, from, yielded, empty, readTo, tail, last, outcome, persisted);
        }
      } else if empty + 1 >= 3 && failure.Some? {
        FailureEnds(log, polls, k, next, from, yielded, empty, persisted);
      } else {
        KeepaliveTold(log, polls, k, next, from, yielded, empty, persisted);
      }
  }

  lemma BatchRelays(log: seq<Entry>, polls: seq<Poll>, k: nat, next: nat, lastId: nat, yielded: seq<Block>, readTo: nat,
                    end: nat, tail: seq<Block>, last: nat, outcome: Outcome, persisted: set<string>)
    requires Increasing(log) && k + 1 == next <= |polls| && polls[k].Seen?
    requires Polled(log, polls, k, Position(log, |log|, lastId), yielded, readTo, persisted)
    requires var p := Position(log, |log|, readTo);
      end == p + |Batch(log, p, polls[k].len)| <= |log| && RelaysBatch(log, p, end, readTo, tail, last, outcome, persisted)
    ensures outcome == ClientClosed ==> Polled(log, polls, next, Position(log, |log|, lastId), yielded + tail, last, persisted)
    ensures outcome != ClientClosed ==> Relays(log, polls, lastId, yielded + tail, last, outcome, persisted)
  {
    var from, p := Position(log, |log|, lastId), Position(log, |log|, readTo);
    BatchKeepsAgreement(log, from, yielded, readTo, p, end, tail, last, outcome, persisted);
    if outcome == ClientClosed {
      OnePollMore(log, polls, k, next, from, yielded, readTo, yielded + tail, last, persisted);
    } else {
      EndedRelays(log, polls, lastId, yielded + tail, last, outcome, persisted);
    }
  }

  lemma PollRelays(log: seq<Entry>, polls: seq<Poll>, k: nat, next: nat, lastId: nat, yielded: seq<Block>, readTo: nat,
                   empty: nat, tail: seq<Block>, last: nat, outcome: Outcome, emptyPolls: nat, persisted: set<string>)
    requires Increasing(log) && k + 1 == next <= |polls|
    requires Polled(log, polls, k, Position(log, |log|, lastId), yielded, readTo, persisted)
    requires RelaysPoll(log, polls[k], Position(log, |log|, readTo), readTo, empty, tail, last, outcome, emptyPolls, persisted)
    ensures outcome == ClientClosed ==> Polled(log, polls, next, Position(log, |log|, lastId), yielded + tail, last, persisted)
    ensures outcome != ClientClosed ==> Relays(log, polls, lastId, yielded + tail, last, outcome, persisted)
  {
    var from, p := Position(log, |log|, lastId), Position(log, |log|, readTo);
    match polls[k]
    case ReadFails => OwnErrorRelays(log, polls, k, lastId, yielded, readTo, READ_FAILED, persisted);
    case Seen(len, failure) =>
      var n := |Batch(log, p, len)|;
      if n > 0 {
        BatchIsSlice(log, p, len);
        BatchRelays(log, polls, k, next, lastId, yielded, readTo, p + n, tail, last, outcome, persisted);
      } else if empty + 1 >= 3 && failure.Some? {
        OwnErrorRelays(log, polls, k, lastId, yielded, readTo, failure.value, persisted);
      } else {
        NothingNew(log, polls, k, next, from, yielded, readTo, Comment("keepalive"), persisted);
      }
  }

  /** What holds after k polls, none of which has ended the relay. */
  ghost predicate AfterPolls(log: seq<Entry>, polls: seq<Poll>, k: nat, lastId: nat, out: seq<Block>, last: nat, empty: nat,
                             persisted: set<string>)
    requires k <= |polls|
  {
    var from := Position(log, |log|, lastId);
    Polled(log, polls, k, from, out, last, persisted) && Told(log, polls, k, from, out, empty, persisted)
  }

  lemma PollKeeps(log: seq<Entry>, polls: seq<Poll>, k: nat, next: nat, lastId: nat, yielded: seq<Block>, readTo: nat,
                  empty: nat, tail: seq<Block>, last: nat, outcome: Outcome, emptyPolls: nat, persisted: set<string>)
    requires Increasing(log) && k + 1 == next <= |polls|
    requires AfterPolls(log, polls, k, lastId, yielded, readTo, empty, persisted)
    requires RelaysPoll(log, polls[k], Position(log, |log|, readTo), readTo, empty, tail, last, outcome, emptyPolls, persisted)
    ensures if outcome == ClientClosed then AfterPolls(log, polls, next, lastId, yielded + tail, last, emptyPolls, persisted)
            else (Relays(log, polls, lastId, yielded + tail, last, outcome, persisted)
              && YieldsExactly(log, polls, lastId, yielded + tail, outcome, persisted))
  {
    PollTold(log, polls, k, next, Position(log, |log|, lastId), yielded, readTo, empty, tail, last, outcome, emptyPolls, persisted);
    PollRelays(log, polls, k, next, lastId, yielded, readTo, empty, tail, last, outcome, emptyPolls, persisted);
  }

  lemma AllPolled(log: seq<Entry>, polls: seq<Poll>, lastId: nat, out: seq<Block>, last: nat, empty: nat, persisted: set<string>)
    requires AfterPolls(log, polls, |polls|, lastId, out, last, empty, persisted)
    ensures Relays(log, polls, lastId, out, last, ClientClosed, persisted)
    ensures YieldsExactly(log, polls, lastId, out, ClientClosed, persisted)
  {
    PolledRelays(log, polls, lastId, out, last, persisted);
  }

  lemma NothingPolled(log: seq<Entry>, polls: seq<Poll>, lastId: nat, persisted: set<string>)
    ensures AfterPolls(log, polls, 0, lastId, [Comment("ok")], lastId, 0, persisted)
  {
    NothingRelayedYet(log, lastId, persisted);
  }

  /** One round of the relay's loop: a poll, and what is yielded after it. */
  method RelayPoll(log: seq<Entry>, poll: Poll, yielded: seq<Block>, readTo: nat, empty: nat, persisted: set<string>)
    returns (ghost tail: seq<Block>, out: seq<Block>, last: nat, outcome: Outcome, emptyPolls: nat)
    ensures out == yielded + tail
    ensures RelaysPoll(log, poll, Position(log, |log|, readTo), readTo, empty, tail, last, outcome, emptyPolls, persisted)
  {
    out, last, outcome, emptyPolls := yielded, readTo, ClientClosed, empty;
    if poll.ReadFails? {
      tail := [Event(None, "error", READ_FAILED)];
      out := out + [Event(None, "error", READ_FAILED)];
      outcome := Error;
      return;
    }
    ghost var p := Position(log, |log|, last);
    var entries := Batch(log, Position(log, |log|, last), poll.len);
    BatchIsSlice(log, p, poll.len);
    if |entries| == 0 {
      emptyPolls := emptyPolls + 1;
      if emptyPolls >= 3 && poll.failure.Some? {
        tail := [Event(None, "error", poll.failure.value)];
        out := out + [Event(None, "error", poll.failure.value)];
        outcome := Error;
        return;
      }
      tail := [Comment("keepalive")];
      out := out + [Comment("keepalive")];
    } else {
      emptyPolls := 0;
      tail, out, last, outcome := RelayEntries(log, p, p + |entries|, entries, out, last, persisted);
    }
  }

  method EventStream(log: seq<Entry>, polls: seq<Poll>, lastId: nat, persisted: set<string>)
    returns (out: seq<Block>, last: nat, outcome: Outcome)
    requires Increasing(log)
    ensures Relays(log, polls, lastId, out, last, outcome, persisted)
    ensures YieldsExactly(log, polls, lastId, out, outcome, persisted)
  {
    var emptyPolls := 0;
    out, last, outcome := [Comment("ok")], lastId, ClientClosed;
    NothingPolled(log, polls, lastId, persisted);
    for k := 0 to |polls|
      invariant AfterPolls(log, polls, k, lastId, out, last, emptyPolls, persisted) && outcome == ClientClosed
    {
      ghost var tail, before, readTo, empty := [], out, last, emptyPolls;
      tail, out, last, outcome, emptyPolls := RelayPoll(log, polls[k], out, last, emptyPolls, persisted);
      PollKeeps(log, polls, k, k + 1, lastId, before, readTo, empty, tail, last, outcome, emptyPolls, persisted);
      if outcome != ClientClosed {
        return;
      }
    }
    AllPolled(log, polls, lastId, out, last, emptyPolls, persisted);
  }

  // ---------------------------------------------------------------------
  // Resuming
  // ---------------------------------------------------------------------

  /** One connection as the client has it: what the relay yielded, and how many blocks arrived. */
  datatype Connection = Connection(polls: seq<Poll>, out: seq<Block>, last: nat, outcome: Outcome, arrived: nat)

  /** The log's events that arrived over a connection. */
  function Received(c: Connection): seq<Block> {
    LogEvents(if c.arrived < |c.out| then c.out[..c.arrived] else c.out)
  }

  /** The id of the last event that arrived, from which the client resumes. */
  function Cursor(cs: seq<Connection>, k: nat, start: nat): nat
    requires k <= |cs|
  {
    if k == 0 then start
    else
      var events := Received(cs[k - 1]);
      if events != [] && events[|events| - 1].Event? && events[|events| - 1].id.Some?
      then events[|events| - 1].id.value
      else Cursor(cs, k - 1, start)
  }

  /** All the log's events that arrived over the first k connections. */
  function Arrived(cs: seq<Connection>, k: nat): seq<Block>
    requires k <= |cs|
  {
    if k == 0 then [] else Arrived(cs, k - 1) + Received(cs[k - 1])
  }

  predicate HasTerminal(events: seq<Block>, persisted: set<string>) {
    exists i :: 0 <= i < |events| && IsTerminal(events[i], persisted)
  }

  predicate IsTerminal(b: Block, persisted: set<string>) {
    b.Event? && Terminal(b.event, b.data, persisted)
  }

  ghost predicate IsConnection(log: seq<Entry>, c: Connection, start: nat, persisted: set<string>) {
    Relays(log, c.polls, start, c.out, c.last, c.outcome, persisted)
  }

  /** Each connection relays from the last id that arrived before it, any of them may be cut off
      after any block, and the client does not come back once it has the terminal event. */
  ghost predicate IsSession(log: seq<Entry>, cs: seq<Connection>, start: nat, persisted: set<string>) {
    && Increasing(log)
    && (forall i :: 0 <= i < |cs| ==> IsConnection(log, cs[i], Cursor(cs, i, start), persisted))
    && (forall i :: 0 <= i < |cs| - 1 ==> !HasTerminal(Received(cs[i]), persisted))
  }

  lemma {:induction false} LogEventsOfPrefix(out: seq<Block>, n: nat)
    requires n <= |out|
    ensures LogEvents(out[..n]) <= LogEvents(out)
  {
    if n < |out| {
      LogEventsOfPrefix(out[..|out| - 1], n);
      assert out[..|out| - 1][..n] == out[..n];
    } else {
      assert out[..n] == out;
    }
  }

  /** The events are those to be delivered from log[from..p], and the last of them is entry p - 1's. */
  predicate UpTo(log: seq<Entry>, from: nat, p: nat, events: seq<Block>, persisted: set<string>) {
    && from <= p <= |log|
    && events == Deliverable(log, from, p, persisted)
    && (events == [] ==> p == from)
    && (events != [] ==>
          && from < p && log[p - 1].payload.Fields?
          && events[|events| - 1] == Event(Some(log[p - 1].id), log[p - 1].payload.event, log[p - 1].payload.data)
          && !Stopped(log, from, p - 1, persisted))
  }

  /** A prefix of what is to be delivered is what is to be delivered up to an earlier entry, just
      after the one whose event comes last in the prefix. */
  lemma {:induction false} PrefixIsDeliverable(log: seq<Entry>, from: nat, end: nat, events: seq<Block>, persisted: set<string>)
    returns (p: nat)
    requires from <= end <= |log| && events <= Deliverable(log, from, end, persisted)
    ensures UpTo(log, from, p, events, persisted)
    decreases end
  {
    if events == [] {
      p := from;
    } else if events <= Deliverable(log, from, end - 1, persisted) {
      p := PrefixIsDeliverable(log, from, end - 1, events, persisted);
    } else {
      p := end;
      assert events == Deliverable(log, from, end, persisted);
    }
  }

  lemma LastReceived(log: seq<Entry>, from: nat, p: nat, events: seq<Block>, persisted: set<string>)
    requires Increasing(log) && UpTo(log, from, p, events, persisted) && events != []
    ensures var last := events[|events| - 1];
      && last.Event? && last.id.Some? && Position(log, |log|, last.id.value) == p
      && (IsTerminal(last, persisted) <==> Stopped(log, from, p, persisted))
  {
    PositionAfter(log, |log|, p - 1);
  }

  /** Delivery up to p and then from p is delivery to the end, when nothing stops it before p. */
  lemma {:induction false} DeliverableJoins(log: seq<Entry>, from: nat, p: nat, end: nat, persisted: set<string>)
    requires from <= p <= end <= |log| && !Stopped(log, from, p, persisted)
    ensures Stopped(log, from, end, persisted) == Stopped(log, p, end, persisted)
    ensures Deliverable(log, from, end, persisted)
         == Deliverable(log, from, p, persisted) + Deliverable(log, p, end, persisted)
    decreases end
  {
    if p < end {
      DeliverableJoins(log, from, p, end - 1, persisted);
    }
  }

  /** Nothing is delivered after a stop. */
  lemma {:induction false} DeliverableAfterStop(log: seq<Entry>, from: nat, p: nat, end: nat, persisted: set<string>)
    requires from <= p <= end <= |log| && Stopped(log, from, p, persisted)
    ensures Stopped(log, from, end, persisted)
    ensures Deliverable(log, from, end, persisted) == Deliverable(log, from, p, persisted)
    decreases end
  {
    if p < end {
      DeliverableAfterStop(log, from, p, end - 1, persisted);
    }
  }

  // ---------------------------------------------------------------------
  // Exactly once
  // ---------------------------------------------------------------------

  /** What arrives over a connection is what is to be delivered up to some entry, after which the
      client's next connection starts. */
  lemma ConnectionArrives(log: seq<Entry>, c: Connection, start: nat, persisted: set<string>) returns (p: nat)
    requires Increasing(log) && IsConnection(log, c, start, persisted)
    ensures var from, events := Position(log, |log|, start), Received(c);
      && from <= p <= |log|
      && events == Deliverable(log, from, p, persisted)
      && (events == [] ==> p == from)
      && (events != [] ==>
            var last := events[|events| - 1];
            last.Event? && last.id.Some? && Position(log, |log|, last.id.value) == p)
      && (events != [] && !IsTerminal(events[|events| - 1], persisted) ==> !Stopped(log, from, p, persisted))
  {
    var from, end := Position(log, |log|, start), Position(log, |log|, c.last);
    if c.arrived < |c.out| {
      LogEventsOfPrefix(c.out, c.arrived);
    }
    p := PrefixIsDeliverable(log, from, end, Received(c), persisted);
    if Received(c) != [] {
      LastReceived(log, from, p, Received(c), persisted);
    }
  }

  lemma LastOfNonTerminal(events: seq<Block>, persisted: set<string>)
    ensures !HasTerminal(events, persisted) ==> events == [] || !IsTerminal(events[|events| - 1], persisted)
  {
  }

  /** Over the first k connections of a session the client has received what was to be delivered
      up to where the next one starts. */
  ghost predicate Caught(log: seq<Entry>, cs: seq<Connection>, k: nat, start: nat, persisted: set<string>)
    requires k <= |cs|
  {
    var from, p := Position(log, |log|, start), Position(log, |log|, Cursor(cs, k, start));
    from <= p && Arrived(cs, k) == Deliverable(log, from, p, persisted)
  }

  ghost predicate Unfinished(log: seq<Entry>, cs: seq<Connection>, k: nat, start: nat, persisted: set<string>)
    requires k <= |cs|
  {
    !Stopped(log, Position(log, |log|, start), Position(log, |log|, Cursor(cs, k, start)), persisted)
  }

  lemma CursorMoves(log: seq<Entry>, cs: seq<Connection>, k: nat, next: nat, start: nat, p: nat)
    requires next == k + 1 <= |cs|
    requires var events := Received(cs[k]);
      if events == [] then p == Position(log, |log|, Cursor(cs, k, start))
      else
        var last := events[|events| - 1];
        last.Event? && last.id.Some? && Position(log, |log|, last.id.value) == p
    ensures Position(log, |log|, Cursor(cs, next, start)) == p
  {
    assert next - 1 == k;
  }

  lemma ArrivedMore(cs: seq<Connection>, k: nat, next: nat)
    requires next == k + 1 <= |cs|
    ensures Arrived(cs, next) == Arrived(cs, k) + Received(cs[k])
  {
    assert next - 1 == k;
  }

  lemma ConnectionCatchesUp(log: seq<Entry>, cs: seq<Connection>, k: nat, next: nat, start: nat, persisted: set<string>)
    requires next == k + 1 <= |cs| && Increasing(log) && IsConnection(log, cs[k], Cursor(cs, k, start), persisted)
    requires Caught(log, cs, k, start, persisted) && Unfinished(log, cs, k, start, persisted)
    ensures Caught(log, cs, next, start, persisted)
    ensures !HasTerminal(Received(cs[k]), persisted) ==> Unfinished(log, cs, next, start, persisted)
  {
    var p := ConnectionArrives(log, cs[k], Cursor(cs, k, start), persisted);
    CursorMoves(log, cs, k, next, start, p);
    ArrivedMore(cs, k, next);
    LastOfNonTerminal(Received(cs[k]), persisted);
    DeliverableJoins(log, Position(log, |log|, start), Position(log, |log|, Cursor(cs, k, start)), p, persisted);
  }

  lemma {:induction false} SessionCatchesUp(log: seq<Entry>, cs: seq<Connection>, k: nat, start: nat, persisted: set<string>)
    requires IsSession(log, cs, start, persisted) && k <= |cs|
    ensures Caught(log, cs, k, start, persisted)
    ensures k < |cs| ==> Unfinished(log, cs, k, start, persisted)
  {
    if k > 0 {
      var j := k - 1;
      SessionCatchesUp(log, cs, j, start, persisted);
      assert IsConnection(log, cs[j], Cursor(cs, j, start), persisted);
      ConnectionCatchesUp(log, cs, j, k, start, persisted);
      if k < |cs| {
        assert !HasTerminal(Received(cs[j]), persisted);
      }
      assert j + 1 == k;
    }
  }

  /** However often the client is cut off and resumes, the events it has received are, each once
      and in order, the well-formed entries after its starting id up to some entry; and once it has
      a terminal event, they are all of them up to and including the first terminal one. */
  lemma ExactlyOnce(log: seq<Entry>, cs: seq<Connection>, start: nat, persisted: set<string>)
    requires IsSession(log, cs, start, persisted)
    ensures var from, all := Position(log, |log|, start), Arrived(cs, |cs|);
      && all <= Deliverable(log, from, |log|, persisted)
      && IdsIncrease(all)
      && (HasTerminal(all, persisted) ==> all == Deliverable(log, from, |log|, persisted))
  {
    var from, p := Position(log, |log|, start), Position(log, |log|, Cursor(cs, |cs|, start));
    SessionCatchesUp(log, cs, |cs|, start, persisted);
    DeliverableIsMonotone(log, from, p, |log|, persisted);
    DeliverableIdsIncrease(log, from, p, if p > 0 then log[p - 1].id + 1 else 0, persisted);
    if HasTerminal(Arrived(cs, |cs|), persisted) {
      var i :| 0 <= i < |Arrived(cs, |cs|)| && IsTerminal(Arrived(cs, |cs|)[i], persisted);
      TerminalStops(log, from, p, i, persisted);
      DeliverableAfterStop(log, from, p, |log|, persisted);
    }
  }

  predicate IdsIncrease(events: seq<Block>) {
    && (forall i :: 0 <= i < |events| ==> events[i].Event? && events[i].id.Some?)
    && (forall i, j :: 0 <= i < j < |events| ==> events[i].id.value < events[j].id.value)
  }

  predicate IdsBelow(events: seq<Block>, bound: nat) {
    IdsIncrease(events) && forall i :: 0 <= i < |events| ==> events[i].id.value < bound
  }

  lemma {:induction false} DeliverableIdsIncrease(log: seq<Entry>, from: nat, end: nat, bound: nat, persisted: set<string>)
    requires Increasing(log) && end <= |log| && (end > 0 ==> log[end - 1].id < bound)
    ensures IdsBelow(Deliverable(log, from, end, persisted), bound)
    decreases end
  {
    if from < end {
      if end > 1 {
        assert IdBefore(log, end - 2, end - 1);
      }
      DeliverableIdsIncrease(log, from, end - 1, log[end - 1].id, persisted);
    }
  }

  lemma {:induction false} TerminalStops(log: seq<Entry>, from: nat, end: nat, i: nat, persisted: set<string>)
    requires end <= |log| && i < |Deliverable(log, from, end, persisted)|
    requires IsTerminal(Deliverable(log, from, end, persisted)[i], persisted)
    ensures Stopped(log, from, end, persisted)
    decreases end
  {
    if i < |Deliverable(log, from, end - 1, persisted)| {
      TerminalStops(log, from, end - 1, i, persisted);
    }
  }

  lemma {:induction false} DeliverableIsMonotone(log: seq<Entry>, from: nat, p: nat, end: nat, persisted: set<string>)
    requires p <= end <= |log|
    ensures Deliverable(log, from, p, persisted) <= Deliverable(log, from, end, persisted)
    decreases end
  {
    if p < end {
      DeliverableIsMonotone(log, from, p, end - 1, persisted);
    }
  }
}

/** The Redis chat tail and its two Lua scripts (src/redis_client.py), and the history that reads
    it before the database (src/services/context/conversation_history.py). */
module ChatTail {
  import opened PyText
  import opened Turns

  /** What a row of the message table is, as far as history is concerned: a question; one whose append
      to the tail was lost; an answer still being written; one that was appended; one whose append was
      lost; the blank answer of a failed request; a clarification card. */
  datatype Kind = Question | Unsent | Pending | Answered | Lost | Failed | Card

  /** A message row. The cache holds only `msg`; the model keeps the row it came from. */
  datatype Row = Row(seqNo: int, msg: ChatMessage, kind: Kind)

  /** The value under the key: something that does not decode to a table, or a table whose fields
      may be missing or of another type. */
  datatype Stored = Garbage | Table(latestSeq: Option<int>, messages: Option<seq<Row>>)

  // ---------------------------------------------------------------------
  // The scripts
  // ---------------------------------------------------------------------

  /** The key after CAS-populate: an at least as recent table is left alone. */
  function Populated(value: Option<Stored>, messages: seq<Row>, newSeq: int): Option<Stored> {
    if IsAsRecent(value, newSeq) then value else Some(Table(Some(newSeq), Some(messages)))
  }

  predicate IsAsRecent(value: Option<Stored>, newSeq: int) {
    value.Some? && value.value.Table? && value.value.latestSeq.Some? && value.value.latestSeq.value >= newSeq
  }

  function KeepLast(messages: seq<Row>, max: nat): (r: seq<Row>)
    ensures |r| == if |messages| <= max then |messages| else max
    ensures r == messages[|messages| - |r|..]
  {
    if |messages| > max then messages[|messages| - max..] else messages
  }

  /** The key after append-trim. Anything but a table with a message list is dropped or kept cold. */
  function Appended(value: Option<Stored>, message: Row, newSeq: int, max: nat): Option<Stored> {
    if value.None? || value.value.Garbage? then None
    else
      var current := if value.value.latestSeq.Some? then value.value.latestSeq.value else 0;
      if newSeq <= current then value
      else if value.value.messages.None? then None
      else Some(Table(Some(newSeq), Some(KeepLast(value.value.messages.value + [message], max))))
  }

  /** `get_chat_tail`: the messages and latest_seq, or a miss. */
  function Got(value: Option<Stored>): Option<(seq<Row>, int)> {
    if value.None? || value.value.Garbage? || value.value.messages.None? then None
    else Some((value.value.messages.value,
               if value.value.latestSeq.Some? then value.value.latestSeq.value else 0))
  }

  /** The last `max` of the rows, or all of them when there are no more. */
  predicate IsEndOf(part: seq<Row>, rows: seq<Row>, max: nat) {
    && |part| <= |rows| && |part| <= max && (|part| < |rows| ==> |part| == max)
    && forall i :: 0 <= i < |part| ==> part[i] == rows[|rows| - |part| + i]
  }

  function LatestOr0(table: Stored): int
    requires table.Table?
  {
    if table.latestSeq.Some? then table.latestSeq.value else 0
  }

  class RedisKey {
    var value: Option<Stored>

    constructor ()
      ensures value == None
    {
      value := None;
    }

    method CasPopulate(messages: seq<Row>, newSeq: int) returns (written: bool)
      modifies this
      ensures value == Populated(old(value), messages, newSeq)
      ensures !written <==> old(value).Some? && old(value).value.Table? && old(value).value.latestSeq.Some?
                            && newSeq <= old(value).value.latestSeq.value
      ensures !written ==> value == old(value)
      ensures written ==> Got(value) == Some((messages, newSeq))
    {
      if value.Some? && value.value.Table? {
        var current := value.value.latestSeq;
        if current.Some? && current.value >= newSeq {
          return false;
        }
      }
      value := Some(Table(Some(newSeq), Some(messages)));
      written := true;
    }

    method AppendTrim(message: Row, newSeq: int, max: nat) returns (appended: bool)
      requires max >= 1
      modifies this
      ensures value == Appended(old(value), message, newSeq, max)
      ensures appended <==> old(value).Some? && old(value).value.Table? && old(value).value.messages.Some?
                            && LatestOr0(old(value).value) < newSeq
      ensures appended ==>
        && value.Some? && value.value.Table? && value.value.latestSeq == Some(newSeq) && value.value.messages.Some?
        && IsEndOf(value.value.messages.value, old(value).value.messages.value + [message], max)
      ensures !appended ==>
        value == if old(value).Some? && old(value).value.Table? && newSeq <= LatestOr0(old(value).value) then old(value) else None
    {
      if value.None? {
        return false;
      }
      if value.value.Garbage? {
        value := None;
        return false;
      }
      var current := if value.value.latestSeq.Some? then value.value.latestSeq.value else 0;
      if newSeq <= current {
        return false;
      }
      if value.value.messages.None? {
        value := None;
        return false;
      }
      var messages := value.value.messages.value + [message];
      var total := |messages|;
      if total > max {
        var trimmed := [];
        for i := total - max to total
          invariant trimmed == messages[total - max..i]
        {
          trimmed := trimmed + [messages[i]];
        }
        assert messages[total - max..total] == messages[total - max..];
        messages := trimmed;
      }
      value := Some(Table(Some(newSeq), Some(messages)));
      appended := true;
    }

    method Invalidate()
      modifies this
      ensures value == None
    {
      value := None;
    }
  }

  // ---------------------------------------------------------------------
  // What every interleaving keeps
  // ---------------------------------------------------------------------

  predicate InOrder(rows: seq<Row>, i: nat, j: nat)
    requires i < j < |rows|
  {
    rows[i].seqNo < rows[j].seqNo
  }

  predicate SeqsIncrease(rows: seq<Row>) {
    forall i: nat, j: nat :: i < j < |rows| ==> InOrder(rows, i, j)
  }

  /** At most `max` rows in sequence order, none after `latest`. */
  predicate WindowOk(rows: seq<Row>, latest: int, max: nat) {
    |rows| <= max && SeqsIncrease(rows) && forall r <- rows :: r.seqNo <= latest
  }

  predicate TailOk(value: Option<Stored>, max: nat) {
    value.Some? ==>
      && value.value.Table? && value.value.latestSeq.Some? && value.value.messages.Some?
      && WindowOk(value.value.messages.value, value.value.latestSeq.value, max)
  }

  /** One atomic step on the key by any client: an append, a populate computed from any earlier
      read of the table, or the key's expiry or deletion. */
  datatype TailOp = Append(row: Row) | Populate(rows: seq<Row>, latest: int) | Expire

  predicate OpOk(op: TailOp, max: nat) {
    op.Populate? ==> WindowOk(op.rows, op.latest, max)
  }

  function Applied(value: Option<Stored>, op: TailOp, max: nat): Option<Stored> {
    match op
    case Append(row) => Appended(value, row, row.seqNo, max)
    case Populate(rows, latest) => Populated(value, rows, latest)
    case Expire => None
  }

  /** The key after the first k steps of a run that starts cold. */
  function ValueAt(ops: seq<TailOp>, k: nat, max: nat): Option<Stored>
    requires k <= |ops|
  {
    if k == 0 then None else Applied(ValueAt(ops, k - 1, max), ops[k - 1], max)
  }

  lemma OrderedConcat(rows: seq<Row>, r: Row)
    requires SeqsIncrease(rows) && forall q <- rows :: q.seqNo < r.seqNo
    ensures SeqsIncrease(rows + [r])
  {
    forall i: nat, j: nat | i < j < |rows| + 1 ensures InOrder(rows + [r], i, j) {
      assert j < |rows| ==> InOrder(rows, i, j);
    }
  }

  lemma OrderedSuffix(rows: seq<Row>, n: nat)
    requires SeqsIncrease(rows) && n <= |rows|
    ensures SeqsIncrease(rows[n..])
    ensures rows != [] ==> forall r <- rows[n..] :: r.seqNo <= rows[|rows| - 1].seqNo
  {
    forall i: nat, j: nat | i < j < |rows| - n ensures InOrder(rows[n..], i, j) {
      assert InOrder(rows, n + i, n + j);
    }
    forall i | n <= i < |rows| - 1 ensures rows[i].seqNo <= rows[|rows| - 1].seqNo {
      assert InOrder(rows, i, |rows| - 1);
    }
  }

  lemma StepKeepsTail(value: Option<Stored>, op: TailOp, max: nat)
    requires TailOk(value, max) && OpOk(op, max) && max >= 1
    ensures TailOk(Applied(value, op, max), max)
    ensures value.Some? && Applied(value, op, max).Some? ==>
              value.value.latestSeq.value <= Applied(value, op, max).value.latestSeq.value
  {
    if op.Append? && value.Some? && value.value.latestSeq.value < op.row.seqNo {
      var old' := value.value.messages.value;
      OrderedConcat(old', op.row);
      OrderedSuffix(old' + [op.row], |old' + [op.row]| - |KeepLast(old' + [op.row], max)|);
    }
  }

  /** In every run, whatever is interleaved, the cached rows are in order, within the limit and no
      later than latest_seq. */
  lemma {:induction false} TailInvariant(ops: seq<TailOp>, k: nat, max: nat)
    requires max >= 1 && k <= |ops| && forall op <- ops :: OpOk(op, max)
    ensures TailOk(ValueAt(ops, k, max), max)
  {
    if k > 0 {
      TailInvariant(ops, k - 1, max);
      StepKeepsTail(ValueAt(ops, k - 1, max), ops[k - 1], max);
    }
  }

  /** The key is there after each of the steps i to j. */
  predicate AliveBetween(ops: seq<TailOp>, i: nat, j: nat, max: nat)
    requires i <= j <= |ops|
    decreases j
  {
    ValueAt(ops, j, max).Some? && (i < j ==> AliveBetween(ops, i, j - 1, max))
  }

  /** In every run, latest_seq never decreases during one life of the key. */
  lemma {:induction false} LatestNeverDecreases(ops: seq<TailOp>, i: nat, j: nat, max: nat)
    requires max >= 1 && i <= j <= |ops| && forall op <- ops :: OpOk(op, max)
    requires AliveBetween(ops, i, j, max)
    ensures ValueAt(ops, i, max).Some?
    ensures TailOk(ValueAt(ops, i, max), max) && TailOk(ValueAt(ops, j, max), max)
    ensures ValueAt(ops, i, max).value.latestSeq.value <= ValueAt(ops, j, max).value.latestSeq.value
    decreases j
  {
    TailInvariant(ops, j, max);
    if i < j {
      LatestNeverDecreases(ops, i, j - 1, max);
      StepKeepsTail(ValueAt(ops, j - 1, max), ops[j - 1], max);
    }
  }

  // ---------------------------------------------------------------------
  // Reading
  // ---------------------------------------------------------------------

  /** The rows before `beforeSeq`, when that is given. */
  function Before(log: seq<Row>, beforeSeq: Option<int>): seq<Row> {
    if log == [] then []
    else
      var front, last := Before(log[..|log| - 1], beforeSeq), log[|log| - 1];
      if beforeSeq.None? || last.seqNo < beforeSeq.value then front + [last] else front
  }

  /** The rows without clarification cards. */
  function WithoutCards(rows: seq<Row>): seq<Row> {
    if rows == [] then []
    else
      var front, last := WithoutCards(rows[..|rows| - 1]), rows[|rows| - 1];
      if last.kind == Card then front else front + [last]
  }

  function Messages(rows: seq<Row>): (r: seq<ChatMessage>)
    ensures |r| == |rows|
  {
    seq(|rows|, i requires 0 <= i < |rows| => rows[i].msg)
  }

  /** The newest rows and the sequence number they reach, cards counted but not returned. */
  function Newest(rows: seq<Row>, max: nat): (seq<Row>, int) {
    var recent := KeepLast(rows, max);
    (WithoutCards(recent), if recent == [] then 0 else recent[|recent| - 1].seqNo)
  }

  function Fetched(log: seq<Row>, beforeSeq: Option<int>, max: nat): (seq<Row>, int) {
    Newest(Before(log, beforeSeq), max)
  }

  lemma {:induction false} BeforeKeepsOrder(log: seq<Row>, beforeSeq: Option<int>)
    requires SeqsIncrease(log)
    ensures SeqsIncrease(Before(log, beforeSeq))
    ensures forall r <- Before(log, beforeSeq) :: r in log
  {
    if log != [] {
      FrontIsBefore(log);
      BeforeKeepsOrder(log[..|log| - 1], beforeSeq);
      OrderedConcat(Before(log[..|log| - 1], beforeSeq), log[|log| - 1]);
    }
  }

  lemma FrontIsBefore(rows: seq<Row>)
    requires SeqsIncrease(rows) && rows != []
    ensures SeqsIncrease(rows[..|rows| - 1])
    ensures forall r <- rows[..|rows| - 1] :: r.seqNo < rows[|rows| - 1].seqNo
  {
    var n := |rows| - 1;
    forall i: nat, j: nat | i < j < n ensures InOrder(rows[..n], i, j) {
      assert InOrder(rows, i, j);
    }
    forall i | 0 <= i < n ensures rows[i].seqNo < rows[n].seqNo {
      assert InOrder(rows, i, n);
    }
  }

  lemma {:induction false} WithoutCardsKeepsOrder(rows: seq<Row>)
    requires SeqsIncrease(rows)
    ensures SeqsIncrease(WithoutCards(rows)) && |WithoutCards(rows)| <= |rows|
    ensures forall r <- WithoutCards(rows) :: r in rows
  {
    if rows != [] {
      FrontIsBefore(rows);
      WithoutCardsKeepsOrder(rows[..|rows| - 1]);
      OrderedConcat(WithoutCards(rows[..|rows| - 1]), rows[|rows| - 1]);
    }
  }

  /** What a cold read fetches, at any moment, is something TailInvariant allows to be populated
      at any later one. */
  lemma FetchedIsWindow(log: seq<Row>, beforeSeq: Option<int>, max: nat)
    requires SeqsIncrease(log)
    ensures OpOk(Populate(Fetched(log, beforeSeq, max).0, Fetched(log, beforeSeq, max).1), max)
  {
    var before := Before(log, beforeSeq);
    BeforeKeepsOrder(log, beforeSeq);
    var recent := KeepLast(before, max);
    OrderedSuffix(before, |before| - |recent|);
    WithoutCardsKeepsOrder(recent);
  }

  // What a cold read fetches, said without the functions above

  /** The first n rows of the table are those before `beforeSeq`. */
  predicate CutAt(log: seq<Row>, beforeSeq: Option<int>, n: nat) {
    n <= |log| && forall i: nat :: i < |log| ==> (i < n <==> beforeSeq.None? || log[i].seqNo < beforeSeq.value)
  }

  /** The rows are in order, and exactly those of the last `max` of the first n that are no cards. */
  ghost predicate IsHistory(rows: seq<Row>, log: seq<Row>, n: nat, max: nat)
    requires n <= |log|
  {
    SeqsIncrease(rows) && forall r :: r in rows <==> r.kind != Card && InLast(r, log, n, max)
  }

  ghost predicate InLast(r: Row, log: seq<Row>, n: nat, max: nat)
    requires n <= |log|
  {
    exists i: nat :: i < n <= i + max && log[i] == r
  }

  lemma {:induction false} BeforeIsCut(log: seq<Row>, beforeSeq: Option<int>) returns (n: nat)
    requires SeqsIncrease(log)
    ensures CutAt(log, beforeSeq, n) && Before(log, beforeSeq) == log[..n]
  {
    if log == [] {
      n := 0;
    } else {
      var m := |log| - 1;
      var front := log[..m];
      FrontIsBefore(log);
      n := BeforeIsCut(front, beforeSeq);
      forall i: nat | i < m ensures front[i] == log[i] && log[i].seqNo < log[m].seqNo {
        assert InOrder(log, i, m);
      }
      if beforeSeq.None? || log[m].seqNo < beforeSeq.value {
        assert n == m;
        assert front[..n] + [log[m]] == log[..m + 1];
        n := m + 1;
      } else {
        assert front[..n] == log[..n];
      }
    }
  }

  lemma {:induction false} WithoutCardsHolds(rows: seq<Row>, r: Row)
    ensures r in WithoutCards(rows) <==> r in rows && r.kind != Card
  {
    if rows != [] {
      WithoutCardsHolds(rows[..|rows| - 1], r);
      assert rows == rows[..|rows| - 1] + [rows[|rows| - 1]];
    }
  }

  lemma LastHolds(log: seq<Row>, n: nat, max: nat, r: Row)
    requires n <= |log|
    ensures r in KeepLast(log[..n], max) <==> InLast(r, log, n, max)
  {
    var last := KeepLast(log[..n], max);
    var c := n - |last|;
    assert forall i :: 0 <= i < |last| ==> last[i] == log[c + i];
    if r in last {
      var i :| 0 <= i < |last| && last[i] == r;
      assert c + i < n <= c + i + max && log[c + i] == r;
    }
    if InLast(r, log, n, max) {
      var i: nat :| i < n <= i + max && log[i] == r;
      assert last[i - c] == r;
    }
  }

  /** A cold read returns the history of the table before `beforeSeq`, and the sequence number that the rows
      reach, cards counted. */
  lemma FetchedIsHistory(log: seq<Row>, beforeSeq: Option<int>, max: nat) returns (n: nat)
    requires SeqsIncrease(log)
    ensures CutAt(log, beforeSeq, n) && IsHistory(Fetched(log, beforeSeq, max).0, log, n, max)
    ensures max > 0 ==> Fetched(log, beforeSeq, max).1 == if n == 0 then 0 else log[n - 1].seqNo
  {
    n := BeforeIsCut(log, beforeSeq);
    FetchedIsWindow(log, beforeSeq, max);
    var recent := KeepLast(log[..n], max);
    forall r ensures r in WithoutCards(recent) <==> r.kind != Card && InLast(r, log, n, max) {
      WithoutCardsHolds(recent, r);
      LastHolds(log, n, max, r);
    }
  }

  /** The cache may be served: it holds a message list that is recent enough and validates. */
  predicate Servable(value: Option<Stored>, snapshotSeq: int, valid: bool) {
    && value.Some? && value.value.Table? && value.value.messages.Some?
    && snapshotSeq <= LatestOr0(value.value) && valid
  }

  /** What `load` is to do, whatever is under the key. */
  ghost predicate LoadsRight(
      before: Option<Stored>, after: Option<Stored>, messages: seq<ChatMessage>, log: seq<Row>, beforeSeq: Option<int>,
      snapshotSeq: int, valid: bool, max: nat)
  {
    if Servable(before, snapshotSeq, valid) then
      && after == before && |messages| == |before.value.messages.value|
      && forall i :: 0 <= i < |messages| ==> messages[i] == before.value.messages.value[i].msg
    else
      exists n: nat, rows: seq<Row> :: ReadsTable(before, after, messages, log, beforeSeq, max, n, rows)
  }

  /** The messages are those of the table's rows, which take the place of a tail that is not as recent. */
  ghost predicate ReadsTable(
      before: Option<Stored>, after: Option<Stored>, messages: seq<ChatMessage>, log: seq<Row>, beforeSeq: Option<int>,
      max: nat, n: nat, rows: seq<Row>)
  {
    && CutAt(log, beforeSeq, n) && IsHistory(rows, log, n, max)
    && |messages| == |rows| && (forall i :: 0 <= i < |rows| ==> messages[i] == rows[i].msg)
    && var seqNo := if n == 0 then 0 else log[n - 1].seqNo;
    && after == if before.Some? && before.value.Table? && before.value.latestSeq.Some? && seqNo <= before.value.latestSeq.value
                then before else Some(Table(Some(seqNo), Some(rows)))
  }

  predicate Hit(value: Option<Stored>, snapshotSeq: int, valid: bool) {
    Got(value).Some? && Got(value).value.1 >= snapshotSeq && valid
  }

  /** The rows `load` returns. `valid` is whether the cached entries still pass model validation. */
  function Loaded(value: Option<Stored>, log: seq<Row>, beforeSeq: Option<int>, snapshotSeq: int, valid: bool, max: nat)
    : seq<Row>
  {
    if Hit(value, snapshotSeq, valid) then Got(value).value.0 else Fetched(log, beforeSeq, max).0
  }

  function AfterLoad(value: Option<Stored>, log: seq<Row>, beforeSeq: Option<int>, snapshotSeq: int, valid: bool, max: nat)
    : Option<Stored>
  {
    if Hit(value, snapshotSeq, valid) then value
    else Populated(value, Fetched(log, beforeSeq, max).0, Fetched(log, beforeSeq, max).1)
  }

  lemma LoadIsRight(
      value: Option<Stored>, log: seq<Row>, beforeSeq: Option<int>, snapshotSeq: int, valid: bool, max: nat)
    requires SeqsIncrease(log) && max >= 1
    ensures LoadsRight(value, AfterLoad(value, log, beforeSeq, snapshotSeq, valid, max),
                       Messages(Loaded(value, log, beforeSeq, snapshotSeq, valid, max)), log, beforeSeq, snapshotSeq, valid, max)
  {
    if !Servable(value, snapshotSeq, valid) {
      var n := FetchedIsHistory(log, beforeSeq, max);
      var rows := Fetched(log, beforeSeq, max).0;
      assert ReadsTable(value, AfterLoad(value, log, beforeSeq, snapshotSeq, valid, max), Messages(rows), log, beforeSeq, max, n, rows);
    }
  }

  class ConversationHistory {
    const redis: RedisKey
    const maxMessages: nat

    constructor (redis: RedisKey, maxMessages: nat)
      requires maxMessages >= 1
      ensures this.redis == redis && this.maxMessages == maxMessages
    {
      this.redis := redis;
      this.maxMessages := maxMessages;
    }

    method Load(log: seq<Row>, beforeSeq: Option<int>, snapshotSeq: int, valid: bool)
      returns (messages: seq<ChatMessage>)
      modifies redis
      ensures SeqsIncrease(log) && maxMessages >= 1 ==>
        LoadsRight(old(redis.value), redis.value, messages, log, beforeSeq, snapshotSeq, valid, maxMessages)
      ensures messages == Messages(Loaded(old(redis.value), log, beforeSeq, snapshotSeq, valid, maxMessages))
      ensures redis.value == AfterLoad(old(redis.value), log, beforeSeq, snapshotSeq, valid, maxMessages)
    {
      if SeqsIncrease(log) && maxMessages >= 1 {
        LoadIsRight(redis.value, log, beforeSeq, snapshotSeq, valid, maxMessages);
      }
      var cached := Got(redis.value);
      if cached.Some? {
        if cached.value.1 >= snapshotSeq {
          if valid {
            return Messages(cached.value.0);
          }
        }
      }
      var (rows, latestSeq) := Fetched(log, beforeSeq, maxMessages);
      var _ := redis.CasPopulate(rows, latestSeq);
      messages := Messages(rows);
    }

    /** Append a question; a failed call is swallowed, leaving the tail as it was. */
    method AppendUser(row: Row, reached: bool)
      requires maxMessages >= 1
      modifies redis
      ensures redis.value == if reached then Appended(old(redis.value), row, row.seqNo, maxMessages) else old(redis.value)
    {
      if reached {
        var _ := redis.AppendTrim(row, row.seqNo, maxMessages);
      }
    }

    method AppendAssistant(row: Row)
      requires maxMessages >= 1
      modifies redis
      ensures redis.value == Appended(old(redis.value), row, row.seqNo, maxMessages)
    {
      var _ := redis.AppendTrim(row, row.seqNo, maxMessages);
    }
  }
}

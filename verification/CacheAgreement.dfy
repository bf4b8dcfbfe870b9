/** The tail against the message table: over every run of serial turns, what a model sees of the
    past when the tail was warm, cold or repopulated, and what the table would have shown
    (src/services/context/conversation_history.py, src/redis_client.py, src/api/routers/chat.py). */
module CacheAgreement {
  import opened PyText
  import opened Seqs
  import opened Turns
  import opened ChatTail

  const BLANK_ANSWER := ChatMessage(Assistant, "", None, None, false, 0, None)

  /** The conversation: its message table, its tail, up to which row the table had been read when the
      tail was last populated, and whether a request is in flight for the question at index
      `question` (and if so, whether its worker has loaded the history). */
  datatype State = State(log: seq<Row>, tail: Option<Stored>, fetched: int, question: nat, phase: Phase)
  datatype Phase = Idle | Working(loaded: bool)

  /** One step of a serial conversation.
      - Ask: the API stores the question and an empty answer row, then appends the question to
        the tail; `reached` is false when that append failed.
      - Resend: the last question is sent again under its message id, with a new answer row.
      - Reply: a clarification card is answered, so its question runs again with a new answer row.
      - Load: the worker reads the history; `valid` is whether cached entries validate.
      - Answer, ShowCard, Fail: the request ends. Only an answer is appended to the tail, and
        `reached` is false when that append failed.
      - Expire: the key expires or is deleted. */
  datatype Event =
    | Ask(content: string, reached: bool)
    | Resend(reached: bool)
    | Reply
    | Load(valid: bool)
    | Answer(msg: ChatMessage, reached: bool)
    | ShowCard(msg: ChatMessage)
    | Fail
    | Expire

  const START := State([], None, 0, 0, Idle)

  /** The current question has not reached the live tail. */
  predicate Behind(s: State) {
    Got(s.tail).Some? && Got(s.tail).value.1 < s.question + 1
  }

  /** What the environment may do. A request ends with an answer or a card only after loading; it
      may fail at any time. */
  predicate Enabled(s: State, e: Event) {
    match e
    case Ask(_, _) => s.phase.Idle?
    case Resend(_) => s.phase.Idle? && s.log != []
    case Reply => s.phase.Idle? && s.log != [] && s.log[|s.log| - 1].kind == Card
    case Load(_) => s.phase.Working?
    case Answer(msg, _) => s.phase.Working? && s.phase.loaded && msg.role == Assistant
    case ShowCard(msg) => s.phase.Working? && s.phase.loaded && msg.role == Assistant
    case Fail => s.phase.Working?
    case Expire => true
  }

  function WithLast(log: seq<Row>, msg: ChatMessage, kind: Kind): seq<Row>
    requires log != []
  {
    log[|log| - 1 := Row(log[|log| - 1].seqNo, msg, kind)]
  }

  /** A question row, by whether its append to the tail has succeeded. */
  function AskedRow(seqNo: int, content: string, reached: bool): Row {
    Row(seqNo, ChatMessage(User, content, None, None, false, 0, None), if reached then Question else Unsent)
  }

  function QuestionRow(seqNo: int, content: string): Row {
    AskedRow(seqNo, content, true)
  }

  /** The question at q has reached the tail after all. */
  function Sent(log: seq<Row>, q: nat): seq<Row>
    requires q < |log|
  {
    log[q := log[q].(kind := Question)]
  }

  function PendingRow(seqNo: int): Row {
    Row(seqNo, BLANK_ANSWER, Pending)
  }

  /** The cold read of a load, which fetches the rows before the answer being written. */
  function ColdRead(s: State, max: nat): (seq<Row>, int) {
    Fetched(s.log, Some(|s.log|), max)
  }

  function Next(s: State, e: Event, max: nat): State {
    var n := |s.log|;
    match e
    case Ask(content, reached) =>
      var row := AskedRow(n + 1, content, reached);
      s.(log := s.log + [row, PendingRow(n + 2)],
         tail := if reached then Appended(s.tail, row, n + 1, max) else s.tail,
         question := n, phase := Working(false))
    case Resend(reached) =>
      if s.question >= n then s
      else
        var log := if reached && Behind(s) then Sent(s.log, s.question) else s.log;
        s.(log := log + [PendingRow(n + 1)],
           tail := if reached then Appended(s.tail, log[s.question], s.question + 1, max) else s.tail,
           phase := Working(false))
    case Reply => s.(log := s.log + [PendingRow(n + 1)], phase := Working(false))
    case Load(valid) =>
      s.(tail := AfterLoad(s.tail, s.log, Some(n), s.question + 1, valid, max),
         fetched := if Hit(s.tail, s.question + 1, valid) || IsAsRecent(s.tail, ColdRead(s, max).1) then s.fetched
                    else ColdRead(s, max).1,
         phase := Working(true))
    case Answer(msg, reached) =>
      if n == 0 then s
      else s.(log := WithLast(s.log, msg, if reached then Answered else Lost),
              tail := if reached then Appended(s.tail, Row(n, msg, Answered), n, max) else s.tail,
              phase := Idle)
    case ShowCard(msg) => if n == 0 then s else s.(log := WithLast(s.log, msg, Card), phase := Idle)
    case Fail => if n == 0 then s else s.(log := WithLast(s.log, BLANK_ANSWER, Failed), phase := Idle)
    case Expire => s.(tail := None)
  }

  predicate StepOk(states: seq<State>, events: seq<Event>, k: nat, max: nat)
    requires |states| == |events| + 1 && k < |events|
  {
    Enabled(states[k], events[k]) && states[k + 1] == Next(states[k], events[k], max)
  }

  /** The states a run goes through, from a new conversation on. */
  ghost predicate IsRun(states: seq<State>, events: seq<Event>, max: nat) {
    |states| == |events| + 1 && states[0] == START && forall k: nat :: k < |events| ==> StepOk(states, events, k, max)
  }

  /** The history in the message table between two positions: every row but cards and answers
      still being written. */
  function Visible(log: seq<Row>, lo: nat, hi: nat): seq<ChatMessage>
    requires lo <= hi <= |log|
    decreases hi
  {
    if lo == hi then []
    else
      var front, last := Visible(log, lo, hi - 1), log[hi - 1];
      if last.kind in {Card, Pending} then front else front + [last.msg]
  }

  // ---------------------------------------------------------------------
  // What the tail holds of a stretch of the table
  // ---------------------------------------------------------------------

  predicate IsQuestion(r: Row) {
    r.kind in {Question, Unsent}
  }

  predicate RowOk(log: seq<Row>, i: nat)
    requires i < |log|
  {
    var r := log[i];
    && r.seqNo == i + 1
    && (r.msg.role == if IsQuestion(r) then User else Assistant)
    && (r.kind in {Pending, Failed} ==> r.msg == BLANK_ANSWER)
  }

  predicate RowsOk(log: seq<Row>) {
    forall i: nat :: i < |log| ==> RowOk(log, i)
  }

  /** Appended questions and answers are in the tail. So are the blank answers of failed requests and the
      questions and answers whose append was lost, up to `t`, the last row a populate has fetched;
      appends never bring one in. Cards and unwritten answers never are. */
  predicate Keeps(r: Row, t: int) {
    r.kind in {Question, Answered} || (r.kind in {Failed, Lost, Unsent} && r.seqNo <= t)
  }

  /** The row was written after the table was last read into the tail, and never appended. */
  predicate Missed(r: Row, t: int) {
    r.kind in {Failed, Lost} && r.seqNo > t
  }

  /** The tail has missed the question. */
  predicate MissedQuestion(r: Row, t: int) {
    r.kind == Unsent && r.seqNo > t
  }

  lemma KeptOrNot(r: Row, t: int)
    ensures !Keeps(r, t) <==> r.kind in {Card, Pending} || Missed(r, t) || MissedQuestion(r, t)
  {
    match r.kind
    case Question =>
    case Unsent =>
    case Pending =>
    case Answered =>
    case Lost =>
    case Failed =>
    case Card =>
  }

  function Picked(log: seq<Row>, lo: nat, hi: nat, t: int): seq<Row>
    requires lo <= hi <= |log|
    decreases hi
  {
    if lo == hi then []
    else
      var front := Picked(log, lo, hi - 1, t);
      if Keeps(log[hi - 1], t) then front + [log[hi - 1]] else front
  }

  predicate Same(log: seq<Row>, log': seq<Row>, hi: nat) {
    hi <= |log| && hi <= |log'| && forall i :: 0 <= i < hi ==> log[i] == log'[i]
  }

  lemma {:induction false} SamePicked(log: seq<Row>, log': seq<Row>, lo: nat, hi: nat, t: int)
    requires lo <= hi && Same(log, log', hi)
    ensures Picked(log, lo, hi, t) == Picked(log', lo, hi, t)
    decreases hi
  {
    if lo < hi {
      SamePicked(log, log', lo, hi - 1, t);
    }
  }

  lemma {:induction false} PickedIsShorter(log: seq<Row>, lo: nat, hi: nat, t: int)
    requires lo <= hi <= |log|
    ensures |Picked(log, lo, hi, t)| <= hi - lo
    decreases hi
  {
    if lo < hi {
      PickedIsShorter(log, lo, hi - 1, t);
    }
  }

  lemma {:induction false} PickedFirst(log: seq<Row>, lo: nat, hi: nat, t: int)
    requires lo < hi <= |log|
    ensures Picked(log, lo, hi, t) ==
      (if Keeps(log[lo], t) then [log[lo]] + Picked(log, lo + 1, hi, t) else Picked(log, lo + 1, hi, t))
    decreases hi
  {
    if lo + 1 < hi {
      PickedFirst(log, lo, hi - 1, t);
    }
  }

  /** Dropping the oldest picked rows leaves what is picked from a later start. */
  lemma {:induction false} PickedTrimmed(log: seq<Row>, lo: nat, hi: nat, t: int, k: nat) returns (c: nat)
    requires lo <= hi <= |log| && k <= |Picked(log, lo, hi, t)|
    ensures lo <= c <= hi && Picked(log, c, hi, t) == Picked(log, lo, hi, t)[k..]
    ensures k == 0 ==> c == lo
    decreases hi - lo
  {
    if k == 0 || lo == hi {
      c := lo;
    } else {
      PickedFirst(log, lo, hi, t);
      c := PickedTrimmed(log, lo + 1, hi, t, if Keeps(log[lo], t) then k - 1 else k);
    }
  }

  lemma {:induction false} PickedIsFetched(log: seq<Row>, lo: nat, hi: nat, t: int)
    requires lo <= hi <= |log|
    requires forall i :: lo <= i < hi ==> log[i].kind != Pending && log[i].seqNo <= t
    ensures Picked(log, lo, hi, t) == WithoutCards(log[lo..hi])
    decreases hi
  {
    if lo < hi {
      PickedIsFetched(log, lo, hi - 1, t);
      InitOfSlice(log, lo, hi);
    }
  }

  /** Were the whole table fetched, the tail would hold what is visible there. */
  lemma {:induction false} VisibleIsPicked(log: seq<Row>, lo: nat, hi: nat, t: int)
    requires RowsOk(log) && lo <= hi <= |log| && hi <= t
    ensures Messages(Picked(log, lo, hi, t)) == Visible(log, lo, hi)
    decreases hi
  {
    if lo < hi {
      VisibleIsPicked(log, lo, hi - 1, t);
      assert RowOk(log, hi - 1);
      KeptOrNot(log[hi - 1], t);
    }
  }

  // ---------------------------------------------------------------------
  // Pairing rows
  // ---------------------------------------------------------------------

  /** Before the next question, nothing but failures and answers being written. */
  predicate Unanswered(log: seq<Row>, j: nat, hi: nat)
    requires j <= hi <= |log|
    decreases hi - j
  {
    j == hi || IsQuestion(log[j]) || (log[j].kind in {Failed, Pending} && Unanswered(log, j + 1, hi))
  }

  /** No question that the tail has missed has an answer. */
  predicate MissedUnanswered(log: seq<Row>, hi: nat, t: int)
    requires hi <= |log|
  {
    forall i: nat :: i < hi && MissedQuestion(log[i], t) ==> Unanswered(log, i + 1, hi)
  }

  lemma {:induction false} UnansweredBefore(log: seq<Row>, j: nat, lo: nat, hi: nat)
    requires j <= lo <= hi <= |log| && Unanswered(log, j, hi)
    ensures Unanswered(log, j, lo)
    decreases lo - j
  {
    if j < lo && !IsQuestion(log[j]) {
      UnansweredBefore(log, j + 1, lo, hi);
    }
  }

  lemma MissedUnansweredBefore(log: seq<Row>, lo: nat, hi: nat, t: int)
    requires lo <= hi <= |log| && MissedUnanswered(log, hi, t)
    ensures MissedUnanswered(log, lo, t)
  {
    forall i: nat | i < lo && MissedQuestion(log[i], t) ensures Unanswered(log, i + 1, lo) {
      UnansweredBefore(log, i + 1, lo, hi);
    }
  }

  lemma NothingMissed(log: seq<Row>, hi: nat, t: int)
    requires RowsOk(log) && hi <= |log| && hi <= t
    ensures MissedUnanswered(log, hi, t) && forall i: nat :: i < hi ==> !MissedQuestion(log[i], t)
  {
    forall i: nat | i < hi ensures !MissedQuestion(log[i], t) {
      assert RowOk(log, i);
    }
  }

  /** The first kept row from j on, before the next question. */
  function NextAnswer(log: seq<Row>, j: nat, hi: nat, t: int): Option<ChatMessage>
    requires j <= hi <= |log|
    decreases hi - j
  {
    if j == hi || IsQuestion(log[j]) then None
    else if Keeps(log[j], t) then Some(log[j].msg)
    else NextAnswer(log, j + 1, hi, t)
  }

  function RowPairs(log: seq<Row>, lo: nat, hi: nat, t: int): seq<Pair>
    requires lo <= hi <= |log|
    decreases hi - lo
  {
    if lo == hi then []
    else if IsQuestion(log[lo]) && Keeps(log[lo], t) then
      [Pair(log[lo].msg, NextAnswer(log, lo + 1, hi, t))] + RowPairs(log, lo + 1, hi, t)
    else RowPairs(log, lo + 1, hi, t)
  }

  lemma MessagesFirst(r: Row, rows: seq<Row>)
    ensures Messages([r] + rows) == [r.msg] + Messages(rows)
    ensures Messages([r] + rows)[0] == r.msg && Messages([r] + rows)[1..] == Messages(rows)
  {
  }

  /** Nothing the tail has after a missed question answers an earlier one. */
  lemma {:induction false} NoAnswerFollows(log: seq<Row>, j: nat, hi: nat, t: int)
    requires RowsOk(log) && t <= j <= hi <= |log| && Unanswered(log, j, hi) && MissedUnanswered(log, hi, t)
    ensures FirstAnswer(Messages(Picked(log, j, hi, t))).None?
    decreases hi - j
  {
    if j < hi {
      PickedFirst(log, j, hi, t);
      assert RowOk(log, j);
      MessagesFirst(log[j], Picked(log, j + 1, hi, t));
      if !Keeps(log[j], t) {
        NoAnswerFollows(log, j + 1, hi, t);
      }
    }
  }

  lemma {:induction false} FirstAnswerOfPicked(log: seq<Row>, j: nat, hi: nat, t: int)
    requires RowsOk(log) && j <= hi <= |log| && MissedUnanswered(log, hi, t)
    ensures FirstAnswer(Messages(Picked(log, j, hi, t))) == NextAnswer(log, j, hi, t)
    decreases hi - j
  {
    if j < hi {
      PickedFirst(log, j, hi, t);
      assert RowOk(log, j);
      MessagesFirst(log[j], Picked(log, j + 1, hi, t));
      if MissedQuestion(log[j], t) {
        NoAnswerFollows(log, j + 1, hi, t);
      } else {
        FirstAnswerOfPicked(log, j + 1, hi, t);
      }
    }
  }

  lemma {:induction false} DeclaredPairsOfPicked(log: seq<Row>, lo: nat, hi: nat, t: int)
    requires RowsOk(log) && lo <= hi <= |log| && MissedUnanswered(log, hi, t)
    ensures QuestionsWithAnswers(Messages(Picked(log, lo, hi, t))) == RowPairs(log, lo, hi, t)
    decreases hi - lo
  {
    if lo < hi {
      PickedFirst(log, lo, hi, t);
      assert RowOk(log, lo);
      MessagesFirst(log[lo], Picked(log, lo + 1, hi, t));
      FirstAnswerOfPicked(log, lo + 1, hi, t);
      DeclaredPairsOfPicked(log, lo + 1, hi, t);
    }
  }

  lemma PairsOfPicked(log: seq<Row>, lo: nat, hi: nat, t: int)
    requires RowsOk(log) && lo <= hi <= |log| && MissedUnanswered(log, hi, t)
    ensures Pairs(Messages(Picked(log, lo, hi, t))) == RowPairs(log, lo, hi, t)
  {
    PairsAreQuestionsWithAnswers(Messages(Picked(log, lo, hi, t)));
    DeclaredPairsOfPicked(log, lo, hi, t);
  }

  // ---------------------------------------------------------------------
  // Where two pairings show the same turns
  // ---------------------------------------------------------------------

  /** What a turn shows of its answer. */
  datatype View = View(text: Option<string>, fromCarryover: bool, summary: Option<TurnSummary>)

  function Shown(answer: Option<ChatMessage>): View {
    View(AnswerText(answer), answer.Some? && answer.value.fromCarryover,
         if answer.Some? then answer.value.summary else None)
  }

  predicate IsBlocked(question: ChatMessage, scan: bool, detect: Detector) {
    Blocked(Pair(question, None), scan, detect)
  }

  /** The turns of a question and what follows it. */
  function TurnOr(index: int, p: Pair, scan: bool, detect: Detector): seq<Turn> {
    if Blocked(p, scan, detect) then [] else [TurnOf(index, p, scan, detect)]
  }

  lemma TurnsFirst(p: Pair, rest: seq<Pair>, base: int, scan: bool, detect: Detector)
    ensures TurnsOf([p] + rest, base, scan, detect) == TurnOr(base, p, scan, detect) + TurnsOf(rest, base + 1, scan, detect)
  {
    TurnsOfConcat([p], rest, base, scan, detect);
    assert [p][..0] == [];
    assert TurnsOf([p], base, scan, detect) == TurnOr(base, p, scan, detect);
  }

  lemma TurnOrAlike(index: int, q: ChatMessage, a: Option<ChatMessage>, b: Option<ChatMessage>, scan: bool, detect: Detector)
    ensures |TurnOr(index, Pair(q, a), scan, detect)| == |TurnOr(index, Pair(q, b), scan, detect)|
    ensures TurnOr(index, Pair(q, a), scan, detect) == TurnOr(index, Pair(q, b), scan, detect)
       <==> IsBlocked(q, scan, detect) || Shown(a) == Shown(b)
  {
    assert Blocked(Pair(q, a), scan, detect) == Blocked(Pair(q, b), scan, detect) == IsBlocked(q, scan, detect);
    var x, y := TurnOf(index, Pair(q, a), scan, detect), TurnOf(index, Pair(q, b), scan, detect);
    assert x == y <==> Shown(a) == Shown(b);
    assert [x] == [y] <==> x == y by { assert [x][0] == x && [y][0] == y; }
  }

  lemma TurnOrApart(i: int, j: int, q: ChatMessage, a: Option<ChatMessage>, b: Option<ChatMessage>, scan: bool, detect: Detector)
    requires i != j
    ensures |TurnOr(i, Pair(q, a), scan, detect)| == |TurnOr(j, Pair(q, b), scan, detect)|
    ensures TurnOr(i, Pair(q, a), scan, detect) == TurnOr(j, Pair(q, b), scan, detect) <==> IsBlocked(q, scan, detect)
  {
    assert Blocked(Pair(q, a), scan, detect) == Blocked(Pair(q, b), scan, detect) == IsBlocked(q, scan, detect);
    var x, y := TurnOf(i, Pair(q, a), scan, detect), TurnOf(j, Pair(q, b), scan, detect);
    assert [x] != [y] by { assert [x][0] == x && [y][0] == y; }
  }

  /** Where neither part is longer than its counterpart, the whole is the same exactly when both are. */
  lemma ConcatsAlike<T>(a: seq<T>, x: seq<T>, b: seq<T>, y: seq<T>)
    requires |a| <= |b| && |x| <= |y|
    ensures a + x == b + y <==> a == b && x == y
  {
    if a + x == b + y {
      assert |a| + |x| == |b| + |y|;
      assert (a + x)[..|a|] == a && (a + x)[|a|..] == x;
      assert (b + y)[..|b|] == b && (b + y)[|b|..] == y;
    }
  }

  predicate QuestionAlike(log: seq<Row>, i: nat, hi: nat, t: int, u: int, scan: bool, detect: Detector)
    requires i < hi <= |log|
  {
    IsBlocked(log[i].msg, scan, detect)
    || Shown(NextAnswer(log, i + 1, hi, t)) == Shown(NextAnswer(log, i + 1, hi, u))
  }

  predicate QuestionsAlike(log: seq<Row>, lo: nat, hi: nat, t: int, u: int, scan: bool, detect: Detector)
    requires hi <= |log|
  {
    forall i: nat :: lo <= i < hi && IsQuestion(log[i]) ==> QuestionAlike(log, i, hi, t, u, scan, detect)
  }

  predicate AllBlocked(log: seq<Row>, lo: nat, hi: nat, scan: bool, detect: Detector)
    requires hi <= |log|
  {
    forall i: nat :: lo <= i < hi && IsQuestion(log[i]) ==> IsBlocked(log[i].msg, scan, detect)
  }

  /** From a question on that the tail has missed, every question is blocked: so it shows no turn, and no
      turn after it is counted short. */
  predicate MissesBlockedOnly(log: seq<Row>, lo: nat, hi: nat, t: int, scan: bool, detect: Detector)
    requires hi <= |log|
  {
    forall i: nat :: lo <= i < hi && MissedQuestion(log[i], t) ==> AllBlocked(log, i, hi, scan, detect)
  }

  lemma TurnsFromKept(
      log: seq<Row>, lo: nat, next: nat, hi: nat, t: int, base: int, after: int, scan: bool, detect: Detector)
    requires next == lo + 1 <= hi <= |log| && IsQuestion(log[lo]) && Keeps(log[lo], t) && after == base + 1
    ensures TurnsOf(RowPairs(log, lo, hi, t), base, scan, detect)
         == TurnOr(base, Pair(log[lo].msg, NextAnswer(log, next, hi, t)), scan, detect)
            + TurnsOf(RowPairs(log, next, hi, t), after, scan, detect)
  {
    TurnsFirst(Pair(log[lo].msg, NextAnswer(log, next, hi, t)), RowPairs(log, next, hi, t), base, scan, detect);
  }

  lemma PairsFromOther(log: seq<Row>, lo: nat, next: nat, hi: nat, t: int)
    requires next == lo + 1 <= hi <= |log| && !(IsQuestion(log[lo]) && Keeps(log[lo], t))
    ensures RowPairs(log, lo, hi, t) == RowPairs(log, next, hi, t)
  {
  }

  lemma FirstShort(
      later: int, q: ChatMessage, b: Option<ChatMessage>, x: seq<Turn>, y: seq<Turn>, scan: bool, detect: Detector)
    requires |x| <= |y| && (x == y <==> y == [])
    ensures var y' := TurnOr(later, Pair(q, b), scan, detect) + y;
      |x| <= |y'| && (x == y' <==> y' == []) && (y' == [] <==> IsBlocked(q, scan, detect) && y == [])
  {
    assert |TurnOr(later, Pair(q, b), scan, detect)| == if IsBlocked(q, scan, detect) then 0 else 1;
  }

  lemma FirstApart(base: int, later: int, q: ChatMessage, a: Option<ChatMessage>, b: Option<ChatMessage>, x: seq<Turn>, y: seq<Turn>,
                   scan: bool, detect: Detector)
    requires base != later && |x| <= |y| && (x == y <==> y == [])
    ensures var x', y' := TurnOr(base, Pair(q, a), scan, detect) + x, TurnOr(later, Pair(q, b), scan, detect) + y;
      |x'| <= |y'| && (x' == y' <==> y' == []) && (y' == [] <==> IsBlocked(q, scan, detect) && y == [])
  {
    TurnOrApart(base, later, q, a, b, scan, detect);
    assert |TurnOr(later, Pair(q, b), scan, detect)| == if IsBlocked(q, scan, detect) then 0 else 1;
    ConcatsAlike(TurnOr(base, Pair(q, a), scan, detect), x, TurnOr(later, Pair(q, b), scan, detect), y);
  }

  /** Counted from a later base, the table's turns are the tail's only when there are none. */
  lemma {:induction false} RowTurnsApart(
      log: seq<Row>, lo: nat, hi: nat, base: int, later: int, t: int, u: int, scan: bool, detect: Detector)
    requires RowsOk(log) && lo <= hi <= |log| && hi <= u && base < later
    ensures var x, y := TurnsOf(RowPairs(log, lo, hi, t), base, scan, detect), TurnsOf(RowPairs(log, lo, hi, u), later, scan, detect);
      && |x| <= |y| && (x == y <==> y == []) && (y == [] <==> AllBlocked(log, lo, hi, scan, detect))
    decreases hi - lo
  {
    if lo < hi {
      var next, base', later' := lo + 1, base + 1, later + 1;
      assert RowOk(log, lo);
      BlockedFrom(log, lo, next, hi, scan, detect);
      if !IsQuestion(log[lo]) {
        PairsFromOther(log, lo, next, hi, t);
        PairsFromOther(log, lo, next, hi, u);
        RowTurnsApart(log, next, hi, base, later, t, u, scan, detect);
      } else {
        var q, b, rest := log[lo].msg, NextAnswer(log, next, hi, u), TurnsOf(RowPairs(log, next, hi, u), later', scan, detect);
        TurnsFromKept(log, lo, next, hi, u, later, later', scan, detect);
        if MissedQuestion(log[lo], t) {
          PairsFromOther(log, lo, next, hi, t);
          RowTurnsApart(log, next, hi, base, later', t, u, scan, detect);
          FirstShort(later, q, b, TurnsOf(RowPairs(log, next, hi, t), base, scan, detect), rest, scan, detect);
        } else {
          var a := NextAnswer(log, next, hi, t);
          TurnsFromKept(log, lo, next, hi, t, base, base', scan, detect);
          RowTurnsApart(log, next, hi, base', later', t, u, scan, detect);
          FirstApart(base, later, q, a, b, TurnsOf(RowPairs(log, next, hi, t), base', scan, detect), rest, scan, detect);
        }
      }
    }
  }

  lemma BlockedFrom(log: seq<Row>, lo: nat, next: nat, hi: nat, scan: bool, detect: Detector)
    requires next == lo + 1 <= hi <= |log|
    ensures AllBlocked(log, lo, hi, scan, detect) <==>
      (IsQuestion(log[lo]) ==> IsBlocked(log[lo].msg, scan, detect)) && AllBlocked(log, next, hi, scan, detect)
  {
  }

  /** Tail and table show the same turns of a stretch exactly when they show the same of each question that
      is not blocked, and the tail misses blocked ones at the end only; the tail never shows more. */
  lemma {:induction false} RowTurnsAlike(log: seq<Row>, lo: nat, hi: nat, base: int, t: int, u: int, scan: bool, detect: Detector)
    requires RowsOk(log) && lo <= hi <= |log| && hi <= u
    ensures var x, y := TurnsOf(RowPairs(log, lo, hi, t), base, scan, detect), TurnsOf(RowPairs(log, lo, hi, u), base, scan, detect);
      && |x| <= |y|
      && (x == y <==> QuestionsAlike(log, lo, hi, t, u, scan, detect) && MissesBlockedOnly(log, lo, hi, t, scan, detect))
    decreases hi - lo
  {
    if lo < hi {
      var next, after := lo + 1, base + 1;
      assert RowOk(log, lo);
      QuestionsFrom(log, lo, next, hi, t, u, scan, detect);
      MissesFrom(log, lo, next, hi, t, scan, detect);
      if !IsQuestion(log[lo]) {
        PairsFromOther(log, lo, next, hi, t);
        PairsFromOther(log, lo, next, hi, u);
        RowTurnsAlike(log, next, hi, base, t, u, scan, detect);
      } else if MissedQuestion(log[lo], t) {
        MissedTurnsAlike(log, lo, hi, base, t, u, scan, detect);
      } else {
        RowTurnsAlike(log, next, hi, after, t, u, scan, detect);
        KeptTurnsAlike(log, lo, next, hi, base, after, t, u, scan, detect);
      }
    }
  }

  lemma MissedTurnsAlike(log: seq<Row>, lo: nat, hi: nat, base: int, t: int, u: int, scan: bool, detect: Detector)
    requires RowsOk(log) && lo < hi <= |log| && hi <= u && MissedQuestion(log[lo], t)
    ensures var x, y := TurnsOf(RowPairs(log, lo, hi, t), base, scan, detect), TurnsOf(RowPairs(log, lo, hi, u), base, scan, detect);
      |x| <= |y| && (x == y <==> AllBlocked(log, lo, hi, scan, detect))
    ensures AllBlocked(log, lo, hi, scan, detect) ==>
      QuestionsAlike(log, lo, hi, t, u, scan, detect) && MissesBlockedOnly(log, lo, hi, t, scan, detect)
  {
    var next, after, q := lo + 1, base + 1, log[lo].msg;
    assert RowOk(log, lo);
    BlockedFrom(log, lo, next, hi, scan, detect);
    PairsFromOther(log, lo, next, hi, t);
    TurnsFromKept(log, lo, next, hi, u, base, after, scan, detect);
    RowTurnsApart(log, next, hi, base, after, t, u, scan, detect);
    FirstShort(base, q, NextAnswer(log, next, hi, u), TurnsOf(RowPairs(log, next, hi, t), base, scan, detect),
               TurnsOf(RowPairs(log, next, hi, u), after, scan, detect), scan, detect);
  }

  lemma KeptTurnsAlike(log: seq<Row>, lo: nat, next: nat, hi: nat, base: int, after: int, t: int, u: int, scan: bool, detect: Detector)
    requires RowsOk(log) && next == lo + 1 <= hi <= |log| && hi <= u && after == base + 1
    requires IsQuestion(log[lo]) && !MissedQuestion(log[lo], t)
    requires |TurnsOf(RowPairs(log, next, hi, t), after, scan, detect)| <= |TurnsOf(RowPairs(log, next, hi, u), after, scan, detect)|
    ensures var x, y := TurnsOf(RowPairs(log, lo, hi, t), base, scan, detect), TurnsOf(RowPairs(log, lo, hi, u), base, scan, detect);
            var rest := TurnsOf(RowPairs(log, next, hi, t), after, scan, detect)
                     == TurnsOf(RowPairs(log, next, hi, u), after, scan, detect);
      |x| <= |y| && (x == y <==> QuestionAlike(log, lo, hi, t, u, scan, detect) && rest)
  {
    var q, a, b := log[lo].msg, NextAnswer(log, next, hi, t), NextAnswer(log, next, hi, u);
    assert RowOk(log, lo);
    TurnsFromKept(log, lo, next, hi, t, base, after, scan, detect);
    TurnsFromKept(log, lo, next, hi, u, base, after, scan, detect);
    TurnOrAlike(base, q, a, b, scan, detect);
    ConcatsAlike(TurnOr(base, Pair(q, a), scan, detect), TurnsOf(RowPairs(log, next, hi, t), after, scan, detect),
                 TurnOr(base, Pair(q, b), scan, detect), TurnsOf(RowPairs(log, next, hi, u), after, scan, detect));
  }

  lemma QuestionsFrom(log: seq<Row>, lo: nat, next: nat, hi: nat, t: int, u: int, scan: bool, detect: Detector)
    requires next == lo + 1 <= hi <= |log|
    ensures var first := IsQuestion(log[lo]) ==> QuestionAlike(log, lo, hi, t, u, scan, detect);
      QuestionsAlike(log, lo, hi, t, u, scan, detect) <==> first && QuestionsAlike(log, next, hi, t, u, scan, detect)
  {
  }

  lemma MissesFrom(log: seq<Row>, lo: nat, next: nat, hi: nat, t: int, scan: bool, detect: Detector)
    requires next == lo + 1 <= hi <= |log|
    ensures var first := MissedQuestion(log[lo], t) ==> AllBlocked(log, lo, hi, scan, detect);
      MissesBlockedOnly(log, lo, hi, t, scan, detect) <==> first && MissesBlockedOnly(log, next, hi, t, scan, detect)
  {
  }

  // ---------------------------------------------------------------------
  // Rows the tail has missed
  // ---------------------------------------------------------------------

  /** The first row from j on that is a question or a written answer, or hi. */
  function FirstRow(log: seq<Row>, j: nat, hi: nat): (f: nat)
    requires j <= hi <= |log|
    ensures j <= f <= hi
    decreases hi - j
  {
    if j == hi || log[j].kind !in {Card, Pending} then j else FirstRow(log, j + 1, hi)
  }

  /** The first answer from j on that was appended, before the next question. */
  function FirstAppended(log: seq<Row>, j: nat, hi: nat): Option<ChatMessage>
    requires j <= hi <= |log|
    decreases hi - j
  {
    if j == hi || IsQuestion(log[j]) then None
    else if log[j].kind == Answered then Some(log[j].msg)
    else FirstAppended(log, j + 1, hi)
  }

  /** The first answer to the question at i is one the tail has missed. */
  predicate FirstIsMissed(log: seq<Row>, i: nat, hi: nat, t: int)
    requires i < hi <= |log|
  {
    var f := FirstRow(log, i + 1, hi);
    f < hi && Missed(log[f], t)
  }

  /** What the tail shows instead: the first answer after it that was appended. */
  function Instead(log: seq<Row>, i: nat, hi: nat): Option<ChatMessage>
    requires i < hi <= |log|
  {
    var f := FirstRow(log, i + 1, hi);
    if f < hi then FirstAppended(log, f + 1, hi) else None
  }

  function FirstAnswerAt(log: seq<Row>, i: nat, hi: nat): Option<ChatMessage>
    requires i < hi <= |log|
  {
    var f := FirstRow(log, i + 1, hi);
    if f < hi && !IsQuestion(log[f]) then Some(log[f].msg) else None
  }

  lemma {:induction false} NextVisible(log: seq<Row>, j: nat, hi: nat, u: int)
    requires RowsOk(log) && j <= hi <= |log| && hi <= u
    ensures var f := FirstRow(log, j, hi);
      NextAnswer(log, j, hi, u) == if f < hi && !IsQuestion(log[f]) then Some(log[f].msg) else None
    decreases hi - j
  {
    if j < hi {
      assert RowOk(log, j);
      KeptOrNot(log[j], u);
      if log[j].kind in {Card, Pending} {
        NextVisible(log, j + 1, hi, u);
      }
    }
  }

  lemma {:induction false} NextAppended(log: seq<Row>, j: nat, hi: nat, t: int)
    requires RowsOk(log) && t <= j <= hi <= |log|
    ensures NextAnswer(log, j, hi, t) == FirstAppended(log, j, hi)
    decreases hi - j
  {
    if j < hi {
      assert RowOk(log, j);
      KeptOrNot(log[j], t);
      NextAppended(log, j + 1, hi, t);
    }
  }

  lemma {:induction false} NextCached(log: seq<Row>, j: nat, hi: nat, t: int)
    requires RowsOk(log) && j <= hi <= |log|
    ensures var f := FirstRow(log, j, hi);
      NextAnswer(log, j, hi, t) ==
        if f < hi && Missed(log[f], t) then FirstAppended(log, f + 1, hi)
        else if f < hi && !IsQuestion(log[f]) then Some(log[f].msg) else None
    decreases hi - j
  {
    if j < hi {
      assert RowOk(log, j);
      KeptOrNot(log[j], t);
      if log[j].kind in {Card, Pending} {
        NextCached(log, j + 1, hi, t);
      } else if Missed(log[j], t) {
        NextAppended(log, j + 1, hi, t);
      }
    }
  }

  /** The tail shows something else of the question at i than the table does. */
  predicate AtOdds(log: seq<Row>, i: nat, hi: nat, t: int)
    requires i < hi <= |log|
  {
    FirstIsMissed(log, i, hi, t) && Shown(Instead(log, i, hi)) != Shown(FirstAnswerAt(log, i, hi))
  }

  lemma OddsAreExact(log: seq<Row>, i: nat, hi: nat, t: int, u: int)
    requires RowsOk(log) && i < hi <= |log| && hi <= u
    ensures AtOdds(log, i, hi, t) <==> Shown(NextAnswer(log, i + 1, hi, t)) != Shown(NextAnswer(log, i + 1, hi, u))
    ensures NextAnswer(log, i + 1, hi, u) == FirstAnswerAt(log, i, hi)
    ensures NextAnswer(log, i + 1, hi, t) == if FirstIsMissed(log, i, hi, t) then Instead(log, i, hi) else FirstAnswerAt(log, i, hi)
  {
    NextVisible(log, i + 1, hi, u);
    NextCached(log, i + 1, hi, t);
  }

  /** The question being asked counts as a prior turn when an answer to it, from an earlier request,
      is there: so the tail is also at odds when it has missed all of those. */
  predicate CurrentAtOdds(log: seq<Row>, q: nat, hi: nat, t: int)
    requires q < hi <= |log|
  {
    FirstIsMissed(log, q, hi, t) && (Instead(log, q, hi).None? || AtOdds(log, q, hi, t))
  }

  /** The tail has missed no question of the stretch. */
  predicate NoneMissed(log: seq<Row>, lo: nat, hi: nat, t: int)
    requires hi <= |log|
  {
    forall i: nat :: lo <= i < hi ==> !MissedQuestion(log[i], t)
  }

  /** No question from lo on that is not blocked is shown otherwise by the tail than by the table, none of
      them comes at or after one that the tail has missed, and neither does the question being asked if
      the table shows it as a prior turn. */
  predicate NothingAtOdds(log: seq<Row>, lo: nat, q: nat, t: int, scan: bool, detect: Detector)
    requires q < |log|
  {
    && (forall i: nat :: lo <= i < q && IsQuestion(log[i]) ==>
          IsBlocked(log[i].msg, scan, detect) || !AtOdds(log, i, q, t))
    && MissesBlockedOnly(log, lo, q, t, scan, detect)
    && (lo <= q ==>
          || IsBlocked(log[q].msg, scan, detect)
          || (!CurrentAtOdds(log, q, |log|, t) && (NoneMissed(log, lo, q, t) || FirstAnswerAt(log, q, |log|).None?)))
  }

  lemma OddQuestions(log: seq<Row>, lo: nat, q: nat, t: int, u: int, scan: bool, detect: Detector)
    requires RowsOk(log) && q <= |log| && q <= u
    ensures QuestionsAlike(log, lo, q, t, u, scan, detect)
       <==> forall i: nat :: lo <= i < q && IsQuestion(log[i]) ==>
              IsBlocked(log[i].msg, scan, detect) || !AtOdds(log, i, q, t)
  {
    forall i: nat | lo <= i < q && IsQuestion(log[i])
      ensures QuestionAlike(log, i, q, t, u, scan, detect)
         <==> IsBlocked(log[i].msg, scan, detect) || !AtOdds(log, i, q, t)
    {
      OddsAreExact(log, i, q, t, u);
    }
  }

  // ---------------------------------------------------------------------
  // Prior turns while a question is being asked
  // ---------------------------------------------------------------------

  /** The last question of the first hi rows. */
  predicate LastQuestionAt(log: seq<Row>, q: nat, hi: nat) {
    q < hi <= |log| && IsQuestion(log[q]) && forall i :: q < i < hi ==> !IsQuestion(log[i])
  }

  lemma {:induction false} AnswerWithin(log: seq<Row>, j: nat, q: nat, hi: nat, t: int)
    requires j <= q < hi <= |log| && IsQuestion(log[q])
    ensures NextAnswer(log, j, q, t) == NextAnswer(log, j, hi, t)
    decreases q - j
  {
    if j < q && !IsQuestion(log[j]) && !Keeps(log[j], t) {
      AnswerWithin(log, j + 1, q, hi, t);
    }
  }

  lemma {:induction false} NoPairsAfter(log: seq<Row>, lo: nat, hi: nat, t: int)
    requires lo <= hi <= |log| && forall i :: lo <= i < hi ==> !IsQuestion(log[i])
    ensures RowPairs(log, lo, hi, t) == []
    decreases hi - lo
  {
    if lo < hi {
      NoPairsAfter(log, lo + 1, hi, t);
    }
  }

  lemma {:induction false} PairsUpToQuestion(log: seq<Row>, lo: nat, q: nat, hi: nat, t: int)
    requires LastQuestionAt(log, q, hi) && lo <= q && Keeps(log[q], t)
    ensures RowPairs(log, lo, hi, t) == RowPairs(log, lo, q, t) + [Pair(log[q].msg, NextAnswer(log, q + 1, hi, t))]
    decreases q - lo
  {
    if lo < q {
      AnswerWithin(log, lo + 1, q, hi, t);
      PairsUpToQuestion(log, lo + 1, q, hi, t);
    } else {
      NoPairsAfter(log, q + 1, hi, t);
    }
  }

  /** Nothing is picked after the question exactly when no answer to it is kept. */
  lemma {:induction false} PickedAfterQuestion(log: seq<Row>, j: nat, hi: nat, t: int)
    requires RowsOk(log) && j <= hi <= |log| && forall i :: j <= i < hi ==> !IsQuestion(log[i])
    ensures Picked(log, j, hi, t) == [] <==> NextAnswer(log, j, hi, t).None?
    ensures forall r <- Picked(log, j, hi, t) :: r.msg.role == Assistant
    decreases hi - j
  {
    if j < hi {
      PickedFirst(log, j, hi, t);
      assert RowOk(log, j);
      PickedAfterQuestion(log, j + 1, hi, t);
    }
  }

  lemma {:induction false} PickedSplit(log: seq<Row>, lo: nat, m: nat, hi: nat, t: int)
    requires lo <= m <= hi <= |log|
    ensures Picked(log, lo, hi, t) == Picked(log, lo, m, t) + Picked(log, m, hi, t)
    decreases hi
  {
    if m < hi {
      PickedSplit(log, lo, m, hi - 1, t);
    }
  }

  /** The prior turns of a tail that starts at or before the current question: those of the questions
      before it, and one for the question itself if the tail holds an answer to it. */
  function TurnsAsked(log: seq<Row>, lo: nat, q: nat, hi: nat, t: int, scan: bool, detect: Detector): seq<Turn>
    requires lo <= q < hi <= |log|
  {
    var before := RowPairs(log, lo, q, t);
    TurnsOf(before, 0, scan, detect) + CurrentTurn(|before|, log[q].msg, NextAnswer(log, q + 1, hi, t), scan, detect)
  }

  lemma PriorTurnsOfPicked(log: seq<Row>, lo: nat, q: nat, hi: nat, t: int, scan: bool, detect: Detector)
    requires RowsOk(log) && LastQuestionAt(log, q, hi) && lo <= q && Keeps(log[q], t) && MissedUnanswered(log, hi, t)
    ensures PriorTurnsOf(Messages(Picked(log, lo, hi, t)), scan, detect) == TurnsAsked(log, lo, q, hi, t, scan, detect)
  {
    var next := q + 1;
    var front, rest := Picked(log, lo, q, t), Picked(log, next, hi, t);
    PickedSplit(log, lo, next, hi, t);
    assert Picked(log, lo, next, t) == front + [log[q]];
    PickedAfterQuestion(log, next, hi, t);
    assert RowOk(log, q);
    PairsOfPicked(log, lo, hi, t);
    PairsUpToQuestion(log, lo, q, hi, t);
    if rest == [] {
      MissedUnansweredBefore(log, q, hi, t);
      PairsOfPicked(log, lo, q, t);
      QuestionIsLast(front, log[q]);
    } else {
      AnswerIsLast(front + [log[q]], rest);
      var before, p := RowPairs(log, lo, q, t), Pair(log[q].msg, NextAnswer(log, next, hi, t));
      TurnsOfConcat(before, [p], 0, scan, detect);
      assert [p] + [] == [p];
      TurnsFirst(p, [], |before|, scan, detect);
    }
  }

  lemma QuestionIsLast(front: seq<Row>, r: Row)
    requires r.msg.role == User
    ensures WithoutCurrent(Messages(front + [r])) == Messages(front)
    ensures front + [r] + [] == front + [r]
  {
  }

  lemma AnswerIsLast(front: seq<Row>, rest: seq<Row>)
    requires rest != [] && forall r <- rest :: r.msg.role == Assistant
    ensures WithoutCurrent(Messages(front + rest)) == Messages(front + rest)
  {
    assert (front + rest)[|front + rest| - 1] == rest[|rest| - 1];
  }

  lemma PriorTurnsWithoutQuestion(log: seq<Row>, lo: nat, hi: nat, t: int, scan: bool, detect: Detector)
    requires RowsOk(log) && lo <= hi <= |log| && MissedUnanswered(log, hi, t)
    requires forall i :: lo <= i < hi ==> !IsQuestion(log[i])
    ensures PriorTurnsOf(Messages(Picked(log, lo, hi, t)), scan, detect) == []
  {
    PickedAfterQuestion(log, lo, hi, t);
    PairsOfPicked(log, lo, hi, t);
    NoPairsAfter(log, lo, hi, t);
    var rows := Picked(log, lo, hi, t);
    assert rows != [] ==> Messages(rows)[|rows| - 1] == rows[|rows| - 1].msg && rows[|rows| - 1] in rows;
  }

  /** The turn of the question being asked, if an answer to it is there. */
  function CurrentTurn(index: int, q: ChatMessage, answer: Option<ChatMessage>, scan: bool, detect: Detector): seq<Turn> {
    if answer.None? then [] else TurnOr(index, Pair(q, answer), scan, detect)
  }

  lemma CurrentTurnsAlike(
      i: int, j: int, q: ChatMessage, a: Option<ChatMessage>, b: Option<ChatMessage>, scan: bool, detect: Detector)
    requires a.Some? ==> b.Some?
    ensures var x, y := CurrentTurn(i, q, a, scan, detect), CurrentTurn(j, q, b, scan, detect);
      && |x| <= |y|
      && (x == y <==> IsBlocked(q, scan, detect) || b.None? || (a.Some? && Shown(a) == Shown(b) && i == j))
  {
    if b.Some? {
      assert |TurnOr(j, Pair(q, b), scan, detect)| == if IsBlocked(q, scan, detect) then 0 else 1;
      if i == j {
        TurnOrAlike(i, q, a, b, scan, detect);
      } else {
        TurnOrApart(i, j, q, a, b, scan, detect);
      }
    }
  }

  lemma TurnsAskedAlike(log: seq<Row>, lo: nat, q: nat, hi: nat, t: int, u: int, scan: bool, detect: Detector)
    requires RowsOk(log) && lo <= q < hi == |log| && hi <= u
    ensures TurnsAsked(log, lo, q, hi, t, scan, detect) == TurnsAsked(log, lo, q, hi, u, scan, detect)
       <==> NothingAtOdds(log, lo, q, t, scan, detect)
  {
    var x, y := TurnsOf(RowPairs(log, lo, q, t), 0, scan, detect), TurnsOf(RowPairs(log, lo, q, u), 0, scan, detect);
    var a, b := NextAnswer(log, q + 1, hi, t), NextAnswer(log, q + 1, hi, u);
    var n, m, question := |RowPairs(log, lo, q, t)|, |RowPairs(log, lo, q, u)|, log[q].msg;
    RowTurnsAlike(log, lo, q, 0, t, u, scan, detect);
    OddQuestions(log, lo, q, t, u, scan, detect);
    OddsAreExact(log, q, hi, t, u);
    PairsCount(log, lo, q, t, u);
    CurrentTurnsAlike(n, m, question, a, b, scan, detect);
    ConcatsAlike(x, CurrentTurn(n, question, a, scan, detect), y, CurrentTurn(m, question, b, scan, detect));
  }

  lemma {:induction false} PairsCount(log: seq<Row>, lo: nat, hi: nat, t: int, u: int)
    requires RowsOk(log) && lo <= hi <= |log| && hi <= u
    ensures |RowPairs(log, lo, hi, t)| <= |RowPairs(log, lo, hi, u)|
    ensures |RowPairs(log, lo, hi, t)| == |RowPairs(log, lo, hi, u)| <==> NoneMissed(log, lo, hi, t)
    decreases hi - lo
  {
    if lo < hi {
      assert RowOk(log, lo);
      PairsCount(log, lo + 1, hi, t, u);
      assert NoneMissed(log, lo, hi, t) <==> !MissedQuestion(log[lo], t) && NoneMissed(log, lo + 1, hi, t);
    }
  }

  /** A tail that holds what is picked of a stretch shows the prior turns of that stretch of the table
      exactly when nothing is at odds there. */
  lemma StretchAgrees(log: seq<Row>, lo: nat, q: nat, t: int, scan: bool, detect: Detector)
    requires RowsOk(log) && LastQuestionAt(log, q, |log|) && lo <= |log| && Keeps(log[q], t) && MissedUnanswered(log, |log|, t)
    ensures PriorTurnsOf(Messages(Picked(log, lo, |log|, t)), scan, detect)
         == PriorTurnsOf(Visible(log, lo, |log|), scan, detect)
       <==> NothingAtOdds(log, lo, q, t, scan, detect)
  {
    var n := |log|;
    VisibleIsPicked(log, lo, n, n);
    NothingMissed(log, n, n);
    assert RowOk(log, q);
    if lo <= q {
      PriorTurnsOfPicked(log, lo, q, n, t, scan, detect);
      PriorTurnsOfPicked(log, lo, q, n, n, scan, detect);
      TurnsAskedAlike(log, lo, q, n, t, n, scan, detect);
    } else {
      PriorTurnsWithoutQuestion(log, lo, n, t, scan, detect);
      PriorTurnsWithoutQuestion(log, lo, n, n, scan, detect);
    }
  }

  // ---------------------------------------------------------------------
  // The invariant
  // ---------------------------------------------------------------------

  predicate LogOk(s: State) {
    LogIn(s.log, s.question, s.phase)
  }

  predicate LogIn(log: seq<Row>, q: nat, phase: Phase) {
    var n := |log|;
    && RowsOk(log)
    && (forall i :: 0 <= i < (if phase.Working? then n - 1 else n) ==> log[i].kind != Pending)
    && (n > 0 ==> q < n - 1 && LastQuestionAt(log, q, n))
    && (phase.Working? ==> n > 0 && log[n - 1].kind == Pending)
  }

  /** How many rows are final: all but the one still being written. */
  function Settled(s: State): int {
    if s.phase.Working? then |s.log| - 1 else |s.log|
  }

  /** No question that the tail has missed has an answer, and one that is being answered has not been missed. */
  predicate MissesOk(s: State) {
    MissesIn(s.log, s.fetched, s.question, s.phase)
  }

  predicate MissesIn(log: seq<Row>, t: int, q: nat, phase: Phase) {
    q < |log| ==> MissedUnanswered(log, |log|, t) && (phase == Working(true) ==> Keeps(log[q], t))
  }

  /** The tail holds what is picked of a stretch that reaches back over the last `max` rows. */
  ghost predicate TailReflects(s: State, cached: seq<Row>, c: nat, max: nat) {
    c <= |s.log| && cached == Picked(s.log, c, |s.log|, s.fetched) && (c == 0 || c + max <= |s.log|)
  }

  /** How far `latest`, the tail's latest_seq, can be: at or past the last question, unless the tail has
      missed that one. */
  predicate PlaceOk(s: State, latest: int) {
    && 0 <= s.fetched <= latest <= Settled(s)
    && s.question < |s.log|
    && (latest <= s.question ==> s.log[s.question].kind == Unsent)
    && (s.log[s.question].kind == Unsent ==> (latest <= s.question <==> s.fetched <= s.question))
  }

  ghost predicate TailInv(s: State, max: nat) {
    s.tail.Some? ==>
      && s.tail.value.Table? && s.tail.value.latestSeq.Some? && s.tail.value.messages.Some?
      && PlaceOk(s, s.tail.value.latestSeq.value)
      && exists c: nat :: TailReflects(s, s.tail.value.messages.value, c, max)
  }

  ghost predicate Inv(s: State, max: nat) {
    LogOk(s) && MissesOk(s) && TailInv(s, max)
  }

  // The table

  lemma AskKeepsLog(s: State, content: string, reached: bool, max: nat)
    requires LogOk(s) && s.phase.Idle?
    ensures LogOk(Next(s, Ask(content, reached), max))
  {
    var log' := Next(s, Ask(content, reached), max).log;
    forall i: nat | i < |log'| ensures RowOk(log', i) {
      assert i < |s.log| ==> RowOk(s.log, i);
    }
  }

  /** The log, where the question last asked may have been sent after all. */
  predicate SameButSent(log: seq<Row>, log': seq<Row>, q: nat) {
    q < |log| && IsQuestion(log[q]) && (log' == log || log' == Sent(log, q))
  }

  lemma RerunKeepsLog(s: State, log: seq<Row>)
    requires LogOk(s) && s.phase.Idle? && SameButSent(s.log, log, s.question)
    ensures LogOk(s.(log := log + [PendingRow(|log| + 1)], phase := Working(false)))
  {
    var log' := log + [PendingRow(|log| + 1)];
    forall i: nat | i < |log'| ensures RowOk(log', i) {
      assert i < |log| ==> RowOk(s.log, i);
    }
  }

  lemma EndKeepsLog(s: State, msg: ChatMessage, kind: Kind)
    requires LogOk(s) && s.phase.Working? && kind !in {Question, Unsent, Pending}
    requires msg.role == Assistant && (kind == Failed ==> msg == BLANK_ANSWER)
    ensures LogOk(s.(log := WithLast(s.log, msg, kind), phase := Idle))
  {
    var log' := WithLast(s.log, msg, kind);
    forall i: nat | i < |log'| ensures RowOk(log', i) {
      assert RowOk(s.log, i);
    }
  }

  lemma StepKeepsLog(s: State, e: Event, max: nat)
    requires LogOk(s) && Enabled(s, e)
    ensures LogOk(Next(s, e, max))
  {
    match e
    case Ask(content, reached) => AskKeepsLog(s, content, reached, max);
    case Resend(reached) => ResendKeepsLog(s, reached, max);
    case Reply => RerunKeepsLog(s, s.log);
    case Answer(msg, reached) => EndKeepsLog(s, msg, if reached then Answered else Lost);
    case ShowCard(msg) => EndKeepsLog(s, msg, Card);
    case Fail => EndKeepsLog(s, BLANK_ANSWER, Failed);
    case _ =>
  }

  // What the tail has missed

  /** The same questions, and the same other rows, in the first n. */
  predicate SameShape(log: seq<Row>, log': seq<Row>, n: nat) {
    n <= |log| && n <= |log'|
    && forall i :: 0 <= i < n ==> log[i] == log'[i] || (IsQuestion(log[i]) && IsQuestion(log'[i]))
  }

  lemma {:induction false} UnansweredKept(log: seq<Row>, log': seq<Row>, j: nat, m: nat, hi: nat, hi': nat)
    requires j <= m <= hi <= |log| && m <= hi' <= |log'| && SameShape(log, log', m)
    requires Unanswered(log, j, hi) && Unanswered(log', m, hi')
    ensures Unanswered(log', j, hi')
    decreases m - j
  {
    if j < m && !IsQuestion(log[j]) {
      UnansweredKept(log, log', j + 1, m, hi, hi');
    }
  }

  /** Up to row m the questions missed are among those missed before, and the rows from there on leave
      them unanswered. */
  lemma MissesKept(log: seq<Row>, log': seq<Row>, m: nat, t: int)
    requires m <= |log| && MissedUnanswered(log, |log|, t) && SameShape(log, log', m)
    requires forall i: nat :: i < |log'| && MissedQuestion(log'[i], t) ==>
      (i < m && MissedQuestion(log[i], t)) || Unanswered(log', i + 1, |log'|)
    requires Unanswered(log', m, |log'|)
    ensures MissedUnanswered(log', |log'|, t)
  {
    forall i: nat | i < |log'| && MissedQuestion(log'[i], t) ensures Unanswered(log', i + 1, |log'|) {
      if i < m && MissedQuestion(log[i], t) {
        UnansweredKept(log, log', i + 1, m, |log|, |log'|);
      }
    }
  }

  lemma AskKeepsMisses(s: State, content: string, reached: bool, max: nat)
    requires LogOk(s) && MissesOk(s) && s.phase.Idle?
    ensures MissesOk(Next(s, Ask(content, reached), max))
  {
    var n, log' := |s.log|, Next(s, Ask(content, reached), max).log;
    assert Unanswered(log', n + 1, n + 2);
    assert MissedUnanswered(s.log, n, s.fetched);
    MissesKept(s.log, log', n, s.fetched);
  }

  lemma RerunKeepsMisses(s: State, log: seq<Row>)
    requires LogOk(s) && MissesOk(s) && s.phase.Idle? && SameButSent(s.log, log, s.question)
    ensures MissesOk(s.(log := log + [PendingRow(|log| + 1)], phase := Working(false)))
  {
    var n, log' := |s.log|, log + [PendingRow(|log| + 1)];
    assert Unanswered(log', n, n + 1);
    MissesKept(s.log, log', n, s.fetched);
  }

  lemma FailKeepsMisses(s: State)
    requires LogOk(s) && MissesOk(s) && s.phase.Working?
    ensures MissesOk(s.(log := WithLast(s.log, BLANK_ANSWER, Failed), phase := Idle))
  {
    var m, log' := |s.log| - 1, WithLast(s.log, BLANK_ANSWER, Failed);
    assert Unanswered(log', m, m + 1);
    MissesKept(s.log, log', m, s.fetched);
  }

  /** An answered question has not been missed, and those before end with it. */
  lemma EndKeepsMisses(s: State, msg: ChatMessage, kind: Kind)
    requires LogOk(s) && MissesOk(s) && s.phase == Working(true) && kind in {Answered, Lost, Card}
    ensures MissesOk(s.(log := WithLast(s.log, msg, kind), phase := Idle))
  {
    MissesKept(s.log, WithLast(s.log, msg, kind), s.question, s.fetched);
  }

  lemma LoadKeepsMisses(s: State, valid: bool, max: nat)
    requires Inv(s, max) && s.phase.Working? && max >= 1
    ensures MissesOk(Next(s, Load(valid), max))
  {
    var c := ColdReadReflects(s, max);
    ReadAllMissesNone(s);
    QuestionIsKept(s, max);
  }

  /** Rows read up to the answer being written leave no question out. */
  lemma ReadAllMissesNone(s: State)
    requires LogOk(s) && s.phase.Working?
    ensures MissedUnanswered(s.log, |s.log|, |s.log| - 1) && NoneMissed(s.log, 0, |s.log|, |s.log| - 1)
    ensures Keeps(s.log[s.question], |s.log| - 1)
  {
    forall i: nat | i < |s.log| ensures !MissedQuestion(s.log[i], |s.log| - 1) {
      assert RowOk(s.log, i);
    }
  }

  /** A tail that reaches the question has it. */
  lemma QuestionIsKept(s: State, max: nat)
    requires LogOk(s) && TailInv(s, max)
    ensures s.tail.Some? && !Behind(s) ==> Keeps(s.log[s.question], s.fetched)
  {
    if s.tail.Some? {
      assert RowOk(s.log, s.question);
    }
  }

  /** The rows as a resend leaves them, but for the new answer row. */
  function Resent(s: State, reached: bool): seq<Row>
    requires s.question < |s.log|
  {
    if reached && Behind(s) then Sent(s.log, s.question) else s.log
  }

  lemma ResendFields(s: State, reached: bool, max: nat)
    requires s.question < |s.log|
    ensures var s' := Next(s, Resend(reached), max);
      && s'.log == Resent(s, reached) + [PendingRow(|s.log| + 1)]
      && s'.fetched == s.fetched && s'.question == s.question && s'.phase == Working(false)
  {
  }

  lemma ResendKeepsLog(s: State, reached: bool, max: nat)
    requires LogOk(s) && s.phase.Idle? && s.log != []
    ensures LogOk(Next(s, Resend(reached), max))
  {
    RerunKeepsLog(s, Resent(s, reached));
    ResendFields(s, reached, max);
  }

  lemma ResendKeepsMisses(s: State, reached: bool, max: nat)
    requires LogOk(s) && MissesOk(s) && s.phase.Idle? && s.log != []
    ensures MissesOk(Next(s, Resend(reached), max))
  {
    RerunKeepsMisses(s, Resent(s, reached));
    ResendFields(s, reached, max);
  }

  lemma AnswerKeepsMisses(s: State, msg: ChatMessage, reached: bool, max: nat)
    requires LogOk(s) && MissesOk(s) && s.phase == Working(true)
    ensures MissesOk(Next(s, Answer(msg, reached), max))
  {
    EndKeepsMisses(s, msg, if reached then Answered else Lost);
  }

  lemma StepKeepsMisses(s: State, e: Event, max: nat)
    requires Inv(s, max) && Enabled(s, e) && max >= 1
    ensures MissesOk(Next(s, e, max))
  {
    match e
    case Ask(content, reached) => AskKeepsMisses(s, content, reached, max);
    case Resend(reached) => ResendKeepsMisses(s, reached, max);
    case Reply => RerunKeepsMisses(s, s.log);
    case Load(valid) => LoadKeepsMisses(s, valid, max);
    case Answer(msg, reached) => AnswerKeepsMisses(s, msg, reached, max);
    case ShowCard(msg) => EndKeepsMisses(s, msg, Card);
    case Fail => FailKeepsMisses(s);
    case Expire =>
  }

  // The tail

  lemma {:induction false} BeforeIsPrefix(log: seq<Row>, n: nat)
    requires n <= |log| && RowsOk(log)
    ensures Before(log, Some(n + 1)) == log[..n]
    decreases |log|
  {
    if log != [] {
      var m := |log| - 1;
      var front := log[..m];
      assert RowOk(log, m);
      forall i: nat | i < m ensures RowOk(front, i) { assert RowOk(log, i); }
      BeforeIsPrefix(front, if n <= m then n else m);
      if n <= m {
        assert front[..n] == log[..n];
      } else {
        SameBefore(front, m + 1, n + 1);
        assert log[..n] == front + [log[m]];
      }
    }
  }

  lemma {:induction false} SameBefore(log: seq<Row>, a: int, b: int)
    requires RowsOk(log) && |log| < a && |log| < b
    ensures Before(log, Some(a)) == Before(log, Some(b))
  {
    if log != [] {
      var m := |log| - 1;
      assert RowOk(log, m);
      forall i: nat | i < m ensures RowOk(log[..m], i) { assert RowOk(log, i); }
      SameBefore(log[..m], a, b);
    }
  }

  lemma NewestIsSlice(log: seq<Row>, n: nat, max: nat) returns (c: nat)
    requires 1 <= n <= |log| && max >= 1
    ensures c < n && Newest(log[..n], max) == (WithoutCards(log[c..n]), log[n - 1].seqNo)
    ensures c == 0 || c + max == n
  {
    c := n - |KeepLast(log[..n], max)|;
    assert KeepLast(log[..n], max) == log[c..n];
  }

  lemma FetchedFrom(log: seq<Row>, before: int, front: seq<Row>, max: nat)
    requires Before(log, Some(before)) == front
    ensures Fetched(log, Some(before), max) == Newest(front, max)
  {
  }

  lemma FrontIs(log: seq<Row>, n: nat, before: int)
    requires n <= |log| && RowsOk(log) && before == n + 1
    ensures Before(log, Some(before)) == log[..n]
  {
    BeforeIsPrefix(log, n);
  }

  lemma FetchedIsSlice(log: seq<Row>, n: nat, before: int, max: nat) returns (c: nat)
    requires RowsOk(log) && 1 <= n <= |log| && before == n + 1 && max >= 1
    ensures c < n && Fetched(log, Some(before), max) == (WithoutCards(log[c..n]), log[n - 1].seqNo)
    ensures c == 0 || c + max == n
  {
    FrontIs(log, n, before);
    FetchedFrom(log, before, log[..n], max);
    c := NewestIsSlice(log, n, max);
  }

  /** Every row of the first n is final and numbered by its position. */
  predicate FinalUpTo(log: seq<Row>, n: nat)
    requires n <= |log|
  {
    forall i :: 0 <= i < n ==> log[i].kind != Pending && log[i].seqNo == i + 1
  }

  lemma PlaceholderFollows(s: State)
    requires LogOk(s) && s.phase.Working?
    ensures |s.log| >= 2 && RowsOk(s.log) && FinalUpTo(s.log, |s.log| - 1) && s.log[|s.log| - 1].kind == Pending
  {
    forall i | 0 <= i < |s.log| - 1 ensures s.log[i].seqNo == i + 1 {
      assert RowOk(s.log, i);
    }
  }

  lemma PickedIsWindow(log: seq<Row>, c: nat, n: nat)
    requires c <= n < |log| && FinalUpTo(log, n) && log[n].kind == Pending
    ensures Picked(log, c, n + 1, n) == WithoutCards(log[c..n])
  {
    PickedIsFetched(log, c, n, n);
  }

  lemma ColdReadOf(log: seq<Row>, n: nat, size: int, max: nat) returns (c: nat)
    requires RowsOk(log) && 1 <= n < |log| && size == n + 1 && max >= 1
    requires FinalUpTo(log, n) && log[n].kind == Pending
    ensures c < n && (c == 0 || c + max == n)
    ensures Fetched(log, Some(size), max).0 == Picked(log, c, size, n)
    ensures Fetched(log, Some(size), max).1 == n
  {
    c := FetchedIsSlice(log, n, size, max);
    PickedIsWindow(log, c, n);
  }

  /** A cold read of the table during a request returns what is picked from its end. */
  lemma ColdReadReflects(s: State, max: nat) returns (c: nat)
    requires LogOk(s) && s.phase.Working? && max >= 1
    ensures c <= |s.log| && ColdRead(s, max).0 == Picked(s.log, c, |s.log|, |s.log| - 1)
    ensures ColdRead(s, max).1 == |s.log| - 1
    ensures c == 0 || c + max <= |s.log|
  {
    PlaceholderFollows(s);
    c := ColdReadOf(s.log, |s.log| - 1, |s.log|, max);
  }

  /** An append-trim of the next row gives what is picked from a later start, and that row. */
  lemma AppendTrims(log: seq<Row>, c: nat, hi: nat, t: int, r: Row, max: nat) returns (d: nat)
    requires c <= hi <= |log| && max >= 1
    ensures d <= hi && KeepLast(Picked(log, c, hi, t) + [r], max) == Picked(log, d, hi, t) + [r]
    ensures d == c || d + max <= hi + 1
  {
    var picked := Picked(log, c, hi, t);
    var k := |picked| + 1 - |KeepLast(picked + [r], max)|;
    d := PickedTrimmed(log, c, hi, t, k);
    PickedIsShorter(log, d, hi, t);
    assert (picked + [r])[k..] == picked[k..] + [r];
  }

  /** The witness of the invariant. */
  lemma ReflectedStretch(s: State, max: nat) returns (c: nat)
    requires TailInv(s, max) && s.tail.Some?
    ensures c <= |s.log| && s.tail.value.messages.value == Picked(s.log, c, |s.log|, s.fetched)
    ensures c == 0 || c + max <= |s.log|
  {
    c :| TailReflects(s, s.tail.value.messages.value, c, max);
  }

  lemma TailInvFrom(s: State, latest: int, c: nat, max: nat)
    requires c <= |s.log| && s.tail == Some(Table(Some(latest), Some(Picked(s.log, c, |s.log|, s.fetched))))
    requires PlaceOk(s, latest) && (c == 0 || c + max <= |s.log|)
    ensures TailInv(s, max)
  {
    assert TailReflects(s, s.tail.value.messages.value, c, max);
  }

  /** The question and its empty answer row come after what was picked. */
  lemma QuestionIsPicked(log: seq<Row>, c: nat, t: int, row: Row, pending: Row, max: nat) returns (d: nat)
    requires c <= |log| && row.kind == Question && pending.kind == Pending && max >= 1
    ensures d <= |log|
    ensures KeepLast(Picked(log, c, |log|, t) + [row], max) == Picked(log + [row, pending], d, |log| + 2, t)
    ensures d == c || d + max <= |log| + 1
  {
    var n, log' := |log|, log + [row, pending];
    d := AppendTrims(log, c, n, t, row, max);
    SamePicked(log, log', d, n, t);
    assert Picked(log', d, n + 2, t) == Picked(log', d, n + 1, t) == Picked(log', d, n, t) + [row];
  }

  lemma AppendsTo(value: Option<Stored>, row: Row, newSeq: int, max: nat)
    requires value.Some? && value.value.Table? && value.value.latestSeq.Some? && value.value.messages.Some?
    requires value.value.latestSeq.value < newSeq
    ensures Appended(value, row, newSeq, max)
         == Some(Table(Some(newSeq), Some(KeepLast(value.value.messages.value + [row], max))))
  {
  }

  lemma AskReached(s: State, content: string, max: nat)
    ensures var n, row := |s.log|, QuestionRow(|s.log| + 1, content);
      Next(s, Ask(content, true), max)
        == State(s.log + [row, PendingRow(n + 2)], Appended(s.tail, row, n + 1, max), s.fetched, n, Working(false))
  {
  }

  lemma AskedInv(log: seq<Row>, n: nat, row: Row, tail: Option<Stored>, t: int, d: nat, max: nat)
    requires |log| == n + 2 && log[n] == row && row.kind == Question && 0 <= t <= n + 1
    requires d <= n + 2 && tail == Some(Table(Some(n + 1), Some(Picked(log, d, |log|, t)))) && (d == 0 || d + max <= n + 2)
    ensures TailInv(State(log, tail, t, n, Working(false)), max)
  {
    TailInvFrom(State(log, tail, t, n, Working(false)), n + 1, d, max);
  }

  lemma TailInvAsk(s: State, content: string, max: nat)
    requires LogOk(s) && TailInv(s, max) && s.phase.Idle? && max >= 1
    ensures TailInv(Next(s, Ask(content, true), max), max)
  {
    AskReached(s, content, max);
    if s.tail.Some? {
      var n, row := |s.log|, QuestionRow(|s.log| + 1, content);
      var log' := s.log + [row, PendingRow(n + 2)];
      var c := ReflectedStretch(s, max);
      var d := QuestionIsPicked(s.log, c, s.fetched, row, PendingRow(n + 2), max);
      AppendsTo(s.tail, row, n + 1, max);
      AskedInv(log', n, row, Appended(s.tail, row, n + 1, max), s.fetched, d, max);
    }
  }

  lemma TailInvAskLost(s: State, content: string, max: nat)
    requires LogOk(s) && TailInv(s, max) && s.phase.Idle?
    ensures TailInv(Next(s, Ask(content, false), max), max)
  {
    if s.tail.Some? {
      var n, s' := |s.log|, Next(s, Ask(content, false), max);
      var c := ReflectedStretch(s, max);
      SamePicked(s.log, s'.log, c, n, s.fetched);
      assert Picked(s'.log, c, n + 2, s.fetched) == Picked(s'.log, c, n + 1, s.fetched) == Picked(s'.log, c, n, s.fetched);
      TailInvFrom(s', s.tail.value.latestSeq.value, c, max);
    }
  }

  lemma TailInvRerun(s: State, max: nat)
    requires LogOk(s) && TailInv(s, max) && s.phase.Idle? && s.log != []
    ensures TailInv(s.(log := s.log + [PendingRow(|s.log| + 1)], phase := Working(false)), max)
  {
    if s.tail.Some? {
      var s' := s.(log := s.log + [PendingRow(|s.log| + 1)], phase := Working(false));
      var c := ReflectedStretch(s, max);
      SamePicked(s.log, s'.log, c, |s.log|, s.fetched);
      TailInvFrom(s', s.tail.value.latestSeq.value, c, max);
    }
  }

  /** Sending the question again leaves the tail as it is when it is cold or has the question. */
  lemma ResendIsRerun(s: State, reached: bool, max: nat)
    requires LogOk(s) && TailInv(s, max) && s.phase.Idle? && s.log != [] && !(reached && Behind(s))
    ensures Next(s, Resend(reached), max) == s.(log := s.log + [PendingRow(|s.log| + 1)], phase := Working(false))
  {
  }

  lemma {:induction false} NothingPickedAfterMissed(log: seq<Row>, q: nat, j: nat, hi: nat, t: int)
    requires RowsOk(log) && q < j <= hi <= |log| && t <= j && Unanswered(log, j, hi)
    requires forall i :: q < i < hi ==> !IsQuestion(log[i])
    ensures Picked(log, j, hi, t) == []
    decreases hi - j
  {
    if j < hi {
      PickedFirst(log, j, hi, t);
      assert RowOk(log, j);
      NothingPickedAfterMissed(log, q, j + 1, hi, t);
    }
  }

  /** What is picked ends before a missed question that is the last one. */
  lemma PickedBeforeMissed(log: seq<Row>, c: nat, q: nat, t: int) returns (b: nat)
    requires RowsOk(log) && LastQuestionAt(log, q, |log|) && MissedQuestion(log[q], t) && MissedUnanswered(log, |log|, t)
    requires c <= |log|
    ensures b <= c && b <= q && (c <= q ==> b == c) && Picked(log, c, |log|, t) == Picked(log, b, q, t)
  {
    var n, next := |log|, q + 1;
    assert RowOk(log, q);
    NothingPickedAfterMissed(log, q, next, n, t);
    if c <= q {
      b := c;
      PickedSplit(log, c, next, n, t);
    } else {
      b := q;
      PickedSplit(log, next, c, n, t);
    }
  }

  lemma SentIsPicked(log: seq<Row>, q: nat, d: nat, t: int)
    requires RowsOk(log) && LastQuestionAt(log, q, |log|) && MissedQuestion(log[q], t) && MissedUnanswered(log, |log|, t)
    requires d <= q
    ensures var log', n := Sent(log, q) + [PendingRow(|log| + 1)], |log|;
      Picked(log', d, n + 1, t) == Picked(log, d, q, t) + [log'[q]]
  {
    var log', n, next := Sent(log, q) + [PendingRow(|log| + 1)], |log|, q + 1;
    assert RowOk(log, q);
    NothingPickedAfterMissed(log, q, next, n, t);
    SamePicked(log, log', d, q, t);
    SamePickedAfter(log, log', next, n, t);
    PickedSplit(log', d, next, n, t);
    assert Picked(log', d, next, t) == Picked(log', d, q, t) + [log'[q]];
    assert Picked(log', d, n + 1, t) == Picked(log', d, n, t);
  }

  lemma {:induction false} SamePickedAfter(log: seq<Row>, log': seq<Row>, lo: nat, hi: nat, t: int)
    requires lo <= hi <= |log| && hi <= |log'| && forall i :: lo <= i < hi ==> log[i] == log'[i]
    ensures Picked(log, lo, hi, t) == Picked(log', lo, hi, t)
    decreases hi
  {
    if lo < hi {
      SamePickedAfter(log, log', lo, hi - 1, t);
    }
  }

  lemma SentNext(s: State, max: nat)
    requires s.question < |s.log| && Behind(s)
    ensures var q, log' := s.question, Sent(s.log, s.question);
      Next(s, Resend(true), max)
        == State(log' + [PendingRow(|s.log| + 1)], Appended(s.tail, log'[q], q + 1, max), s.fetched, q, Working(false))
  {
  }

  lemma SentInv(log: seq<Row>, q: nat, tail: Option<Stored>, t: int, d: nat, max: nat)
    requires q + 1 < |log| && log[q].kind == Question && 0 <= t <= q
    requires d <= |log| && tail == Some(Table(Some(q + 1), Some(Picked(log, d, |log|, t)))) && (d == 0 || d + max <= |log|)
    ensures TailInv(State(log, tail, t, q, Working(false)), max)
  {
    TailInvFrom(State(log, tail, t, q, Working(false)), q + 1, d, max);
  }

  /** What the tail holds once a question that it had missed comes to its end. */
  lemma SentTail(s: State, max: nat) returns (d: nat)
    requires LogOk(s) && MissesOk(s) && TailInv(s, max) && s.phase.Idle? && s.log != [] && Behind(s) && max >= 1
    ensures var q, log' := s.question, Sent(s.log, s.question) + [PendingRow(|s.log| + 1)];
      && q + 1 < |log'| && log'[q].kind == Question && 0 <= s.fetched <= q
      && d <= |log'| && (d == 0 || d + max <= |log'|)
      && Appended(s.tail, log'[q], q + 1, max) == Some(Table(Some(q + 1), Some(Picked(log', d, |log'|, s.fetched))))
  {
    var q, t := s.question, s.fetched;
    assert |Sent(s.log, q) + [PendingRow(|s.log| + 1)]| == |s.log| + 1;
    assert RowOk(s.log, q) && MissedQuestion(s.log[q], t);
    var c := ReflectedStretch(s, max);
    var b := PickedBeforeMissed(s.log, c, q, t);
    var row := s.log[q].(kind := Question);
    d := AppendTrims(s.log, b, q, t, row, max);
    SentIsPicked(s.log, q, d, t);
    AppendsTo(s.tail, row, q + 1, max);
  }

  lemma TailInvSent(s: State, max: nat)
    requires LogOk(s) && MissesOk(s) && TailInv(s, max) && s.phase.Idle? && s.log != [] && Behind(s) && max >= 1
    ensures TailInv(Next(s, Resend(true), max), max)
  {
    var q, log' := s.question, Sent(s.log, s.question) + [PendingRow(|s.log| + 1)];
    var d := SentTail(s, max);
    SentNext(s, max);
    SentInv(log', q, Appended(s.tail, log'[q], q + 1, max), s.fetched, d, max);
  }

  lemma TailInvLoad(s: State, valid: bool, max: nat)
    requires LogOk(s) && TailInv(s, max) && s.phase.Working? && max >= 1
    ensures TailInv(Next(s, Load(valid), max), max)
  {
    var s', n := Next(s, Load(valid), max), |s.log|;
    var c := ColdReadReflects(s, max);
    if Hit(s.tail, s.question + 1, valid) || IsAsRecent(s.tail, n - 1) {
      var d := ReflectedStretch(s, max);
      TailInvFrom(s', s.tail.value.latestSeq.value, d, max);
    } else {
      TailInvFrom(s', n - 1, c, max);
    }
  }

  /** The answer takes the place of the row being written, and is picked after what was. */
  lemma AnswerIsPicked(log: seq<Row>, c: nat, t: int, row: Row, max: nat) returns (d: nat)
    requires c < |log| && log[|log| - 1].kind == Pending && row.kind == Answered && max >= 1
    ensures d <= |log|
    ensures KeepLast(Picked(log, c, |log|, t) + [row], max) == Picked(log[|log| - 1 := row], d, |log|, t)
    ensures d == c || d + max <= |log|
  {
    var m, log' := |log| - 1, log[|log| - 1 := row];
    assert Picked(log, c, |log|, t) == Picked(log, c, m, t);
    d := AppendTrims(log, c, m, t, row, max);
    SamePicked(log, log', d, m, t);
    assert m + 1 == |log| && Picked(log', d, |log|, t) == Picked(log', d, m, t) + [row];
  }

  lemma TailInvAnswer(s: State, msg: ChatMessage, max: nat)
    requires TailInv(s, max) && MissesOk(s) && s.phase == Working(true) && max >= 1
    requires s.question < |s.log| - 1 && s.log[|s.log| - 1].kind == Pending && s.log[|s.log| - 1].seqNo == |s.log|
    requires s.log[s.question].seqNo == s.question + 1
    ensures TailInv(Next(s, Answer(msg, true), max), max)
  {
    if s.tail.Some? {
      var n, row := |s.log|, Row(|s.log|, msg, Answered);
      var c := ReflectedStretch(s, max);
      var d := AnswerIsPicked(s.log, c, s.fetched, row, max);
      AppendsTo(s.tail, row, n, max);
      var tail := Some(Table(Some(n), Some(KeepLast(s.tail.value.messages.value + [row], max))));
      TailInvFrom(s.(log := WithLast(s.log, msg, Answered), tail := tail, phase := Idle), n, d, max);
    }
  }

  lemma TailInvNotAppended(s: State, msg: ChatMessage, kind: Kind, max: nat)
    requires LogOk(s) && TailInv(s, max) && s.phase.Working? && kind in {Card, Failed, Lost}
    ensures TailInv(s.(log := WithLast(s.log, msg, kind), phase := Idle), max)
  {
    if s.tail.Some? {
      var n, s' := |s.log|, s.(log := WithLast(s.log, msg, kind), phase := Idle);
      var c := ReflectedStretch(s, max);
      assert RowOk(s.log, n - 1);
      NotAppendedIsNotPicked(s.log, s'.log, c, s.fetched);
      TailInvFrom(s', s.tail.value.latestSeq.value, c, max);
    }
  }

  lemma NotAppendedIsNotPicked(log: seq<Row>, log': seq<Row>, c: nat, t: int)
    requires c <= |log| == |log'| && log != [] && Same(log, log', |log| - 1)
    requires !Keeps(log[|log| - 1], t) && !Keeps(log'[|log| - 1], t)
    ensures Picked(log, c, |log|, t) == Picked(log', c, |log|, t)
  {
    if c < |log| {
      SamePicked(log, log', c, |log| - 1, t);
    }
  }

  lemma StepKeepsTail(s: State, e: Event, max: nat)
    requires Inv(s, max) && Enabled(s, e) && max >= 1
    ensures TailInv(Next(s, e, max), max)
  {
    match e
    case Ask(content, reached) => if reached { TailInvAsk(s, content, max); } else { TailInvAskLost(s, content, max); }
    case Resend(reached) =>
      if reached && Behind(s) {
        TailInvSent(s, max);
      } else {
        ResendIsRerun(s, reached, max);
        TailInvRerun(s, max);
      }
    case Reply => TailInvRerun(s, max);
    case Load(valid) => TailInvLoad(s, valid, max);
    case Answer(msg, reached) =>
      if reached {
        assert RowOk(s.log, |s.log| - 1) && RowOk(s.log, s.question);
        TailInvAnswer(s, msg, max);
      } else {
        TailInvNotAppended(s, msg, Lost, max);
      }
    case ShowCard(msg) => TailInvNotAppended(s, msg, Card, max);
    case Fail => TailInvNotAppended(s, BLANK_ANSWER, Failed, max);
    case Expire =>
  }

  /** In every run the tail holds what is picked of the end of the table. */
  lemma {:induction false} RunKeepsInvariant(states: seq<State>, events: seq<Event>, k: nat, max: nat)
    requires IsRun(states, events, max) && k <= |events| && max >= 1
    ensures Inv(states[k], max)
  {
    if k > 0 {
      var j := k - 1;
      RunKeepsInvariant(states, events, j, max);
      assert StepOk(states, events, j, max) && j + 1 == k;
      StepKeepsLog(states[j], events[j], max);
      StepKeepsMisses(states[j], events[j], max);
      StepKeepsTail(states[j], events[j], max);
    }
  }

  // ---------------------------------------------------------------------
  // Agreement
  // ---------------------------------------------------------------------

  /** What a load in state s returns. */
  function LoadedIn(s: State, valid: bool, max: nat): seq<ChatMessage> {
    Messages(Loaded(s.tail, s.log, Some(|s.log|), s.question + 1, valid, max))
  }

  /** Up to which row the table had been read when what the load returns was. */
  function ReadUpTo(s: State, valid: bool): int {
    if Hit(s.tail, s.question + 1, valid) then s.fetched else |s.log| - 1
  }

  lemma LoadReflects(s: State, valid: bool, max: nat) returns (c: nat)
    requires Inv(s, max) && s.phase.Working? && max >= 1
    ensures c <= |s.log| && (c == 0 || c + max <= |s.log|)
    ensures LoadedIn(s, valid, max) == Messages(Picked(s.log, c, |s.log|, ReadUpTo(s, valid)))
  {
    if Hit(s.tail, s.question + 1, valid) {
      c := ReflectedStretch(s, max);
    } else {
      c := ColdReadReflects(s, max);
    }
  }

  lemma LoadHasQuestion(s: State, valid: bool, max: nat)
    requires Inv(s, max) && s.phase.Working?
    ensures Keeps(s.log[s.question], ReadUpTo(s, valid)) && MissedUnanswered(s.log, |s.log|, ReadUpTo(s, valid))
  {
    if Hit(s.tail, s.question + 1, valid) {
      QuestionIsKept(s, max);
    } else {
      ReadAllMissesNone(s);
    }
  }

  /** The load returns what the tail holds of the table from row c on, where c leaves out none of the
      last `max` rows. The prior turns are then those of the table from c on if and only if nothing is
      at odds there. */
  ghost predicate LoadsFrom(s: State, valid: bool, max: nat, c: nat, scan: bool, detect: Detector) {
    && c <= |s.log| && (c == 0 || c + max <= |s.log|) && s.question < |s.log|
    && var loaded, t := LoadedIn(s, valid, max), ReadUpTo(s, valid);
    && loaded == Messages(Picked(s.log, c, |s.log|, t))
    && (NothingAtOdds(s.log, c, s.question, t, scan, detect) <==>
          PriorTurnsOf(loaded, scan, detect) == PriorTurnsOf(Visible(s.log, c, |s.log|), scan, detect))
  }

  /** Exactly when a load agrees with the table, in every run: with questions and answers lost to the tail,
      questions sent again, and the tail expired, unreadable or behind at any moment. */
  lemma LoadAgreesExactly(states: seq<State>, events: seq<Event>, k: nat, max: nat, scan: bool, detect: Detector)
    requires IsRun(states, events, max) && k < |events| && events[k].Load? && max >= 1
    ensures exists c: nat :: LoadsFrom(states[k], events[k].valid, max, c, scan, detect)
  {
    var s, valid := states[k], events[k].valid;
    RunKeepsInvariant(states, events, k, max);
    assert StepOk(states, events, k, max);
    var c := LoadReflects(s, valid, max);
    LoadHasQuestion(s, valid, max);
    StretchAgrees(s.log, c, s.question, ReadUpTo(s, valid), scan, detect);
    assert LoadsFrom(s, valid, max, c, scan, detect);
  }

  lemma ReadIsNotAtOdds(s: State, c: nat, scan: bool, detect: Detector)
    requires LogOk(s) && s.phase.Working?
    ensures NothingAtOdds(s.log, c, s.question, |s.log| - 1, scan, detect)
  {
    PlaceholderFollows(s);
    ReadAllMissesNone(s);
  }

  /** The load agrees with the table from row c on. */
  ghost predicate AgreesWithRows(s: State, valid: bool, max: nat, c: nat, scan: bool, detect: Detector) {
    LoadsFrom(s, valid, max, c, scan, detect) &&
    PriorTurnsOf(LoadedIn(s, valid, max), scan, detect) == PriorTurnsOf(Visible(s.log, c, |s.log|), scan, detect)
  }

  lemma ColdAgreesFrom(s: State, valid: bool, max: nat, c: nat, scan: bool, detect: Detector)
    requires LogOk(s) && s.phase.Working? && !Hit(s.tail, s.question + 1, valid) && LoadsFrom(s, valid, max, c, scan, detect)
    ensures AgreesWithRows(s, valid, max, c, scan, detect)
  {
    ReadIsNotAtOdds(s, c, scan, detect);
  }

  /** A load that reads the table is never at odds with it. */
  lemma ColdLoadAgrees(states: seq<State>, events: seq<Event>, k: nat, max: nat, scan: bool, detect: Detector)
    requires IsRun(states, events, max) && k < |events| && events[k].Load? && max >= 1
    requires !Servable(states[k].tail, states[k].question + 1, events[k].valid)
    ensures exists c: nat :: AgreesWithRows(states[k], events[k].valid, max, c, scan, detect)
  {
    var s, valid := states[k], events[k].valid;
    LoadAgreesExactly(states, events, k, max, scan, detect);
    var c: nat :| LoadsFrom(s, valid, max, c, scan, detect);
    RunKeepsInvariant(states, events, k, max);
    assert StepOk(states, events, k, max);
    ColdAgreesFrom(s, valid, max, c, scan, detect);
  }

  // ---------------------------------------------------------------------
  // Runs in which each question has one answer
  // ---------------------------------------------------------------------

  /** No question is sent again, no answer fails to reach the tail, and no request fails before it has
      loaded a question that the live tail has missed. */
  predicate Faultless(s: State, e: Event) {
    !e.Resend? && (e.Answer? ==> e.reached) && (e.Fail? && s.phase == Working(false) ==> !Behind(s))
  }

  predicate FaultlessRun(states: seq<State>, events: seq<Event>)
    requires |states| == |events| + 1
  {
    forall k: nat :: k < |events| ==> Faultless(states[k], events[k])
  }

  /** No answer has been written between `lo` and `hi` since the last question there. */
  predicate Open(log: seq<Row>, lo: nat, hi: nat)
    requires lo <= hi <= |log|
    decreases hi
  {
    lo == hi || IsQuestion(log[hi - 1]) || (log[hi - 1].kind in {Card, Pending} && Open(log, lo, hi - 1))
  }

  predicate OneAnswer(log: seq<Row>, i: nat)
    requires i < |log|
  {
    log[i].kind != Lost && (log[i].kind in {Answered, Failed} ==> Open(log, 0, i))
  }

  /** The rows after the question are cards, or the answer being written. */
  predicate AskingAt(log: seq<Row>, q: nat, hi: nat) {
    q < hi <= |log| && IsQuestion(log[q]) && forall i :: q < i < hi ==> log[i].kind in {Card, Pending}
  }

  predicate Clean(s: State) {
    && (forall i: nat :: i < |s.log| ==> OneAnswer(s.log, i))
    && (s.log != [] ==> AskingAt(s.log, s.question, if s.phase.Working? then |s.log| else |s.log| - 1))
  }

  lemma {:induction false} SameOpen(log: seq<Row>, log': seq<Row>, lo: nat, hi: nat)
    requires lo <= hi && Same(log, log', hi)
    ensures Open(log, lo, hi) == Open(log', lo, hi)
    decreases hi
  {
    if lo < hi {
      SameOpen(log, log', lo, hi - 1);
    }
  }

  lemma SameOneAnswer(log: seq<Row>, log': seq<Row>, i: nat)
    requires i < |log| && OneAnswer(log, i) && Same(log, log', i + 1)
    ensures OneAnswer(log', i)
  {
    SameOpen(log, log', 0, i);
  }

  lemma {:induction false} AskingIsOpen(log: seq<Row>, q: nat, hi: nat)
    requires AskingAt(log, q, hi)
    ensures Open(log, 0, hi)
    decreases hi
  {
    if q < hi - 1 {
      AskingIsOpen(log, q, hi - 1);
    }
  }

  lemma EndKeepsClean(s: State, msg: ChatMessage, kind: Kind)
    requires LogOk(s) && Clean(s) && s.phase.Working? && kind in {Answered, Card, Failed}
    ensures Clean(s.(log := WithLast(s.log, msg, kind), phase := Idle))
  {
    var n, log' := |s.log|, WithLast(s.log, msg, kind);
    forall i: nat | i < n ensures OneAnswer(log', i) {
      if i < n - 1 {
        SameOneAnswer(s.log, log', i);
      } else {
        AskingIsOpen(s.log, s.question, i);
        SameOpen(s.log, log', 0, i);
      }
    }
  }

  lemma LongerKeepsClean(log: seq<Row>, log': seq<Row>)
    requires log <= log' && forall i: nat :: i < |log| ==> OneAnswer(log, i)
    requires forall i: nat :: |log| <= i < |log'| ==> IsQuestion(log'[i]) || log'[i].kind == Pending
    ensures forall i: nat :: i < |log'| ==> OneAnswer(log', i)
  {
    forall i: nat | i < |log'| ensures OneAnswer(log', i) {
      if i < |log| {
        SameOneAnswer(log, log', i);
      }
    }
  }

  lemma StepKeepsClean(s: State, e: Event, max: nat)
    requires LogOk(s) && Clean(s) && Enabled(s, e) && Faultless(s, e)
    ensures Clean(Next(s, e, max))
  {
    match e
    case Ask(content, reached) => LongerKeepsClean(s.log, Next(s, e, max).log);
    case Reply => LongerKeepsClean(s.log, Next(s, e, max).log);
    case Answer(msg, reached) => EndKeepsClean(s, msg, Answered);
    case ShowCard(msg) => EndKeepsClean(s, msg, Card);
    case Fail => EndKeepsClean(s, BLANK_ANSWER, Failed);
    case _ =>
  }

  /** A live tail has all questions before the last, and that one once its worker has loaded the history. */
  predicate AllReached(s: State) {
    s.tail.Some? ==>
      && s.question < |s.log| && NoneMissed(s.log, 0, s.question, s.fetched)
      && (s.phase != Working(false) ==> !Behind(s))
  }

  lemma AskKeepsReached(s: State, content: string, reached: bool, max: nat)
    requires Inv(s, max) && AllReached(s) && s.phase.Idle?
    ensures AllReached(Next(s, Ask(content, reached), max))
  {
    if s.tail.Some? {
      QuestionIsKept(s, max);
      var n, log' := |s.log|, Next(s, Ask(content, reached), max).log;
      forall i: nat | i < n ensures !MissedQuestion(log'[i], s.fetched) {
        assert log'[i] == s.log[i];
      }
    }
  }

  lemma LoadKeepsReached(s: State, valid: bool, max: nat)
    requires Inv(s, max) && AllReached(s) && s.phase.Working? && max >= 1
    ensures AllReached(Next(s, Load(valid), max))
  {
    var c := ColdReadReflects(s, max);
    ReadAllMissesNone(s);
  }

  lemma EndKeepsReached(s: State, e: Event, max: nat)
    requires Inv(s, max) && AllReached(s) && Enabled(s, e) && Faultless(s, e) && (e.Answer? || e.ShowCard? || e.Fail?)
    ensures AllReached(Next(s, e, max))
  {
  }

  lemma StepKeepsReached(s: State, e: Event, max: nat)
    requires Inv(s, max) && AllReached(s) && Enabled(s, e) && Faultless(s, e) && max >= 1
    ensures AllReached(Next(s, e, max))
  {
    match e
    case Ask(content, reached) => AskKeepsReached(s, content, reached, max);
    case Reply =>
    case Load(valid) => LoadKeepsReached(s, valid, max);
    case Expire =>
    case _ => EndKeepsReached(s, e, max);
  }

  lemma {:induction false} FaultlessRunIsClean(states: seq<State>, events: seq<Event>, k: nat, max: nat)
    requires IsRun(states, events, max) && k <= |events| && max >= 1 && FaultlessRun(states, events)
    ensures Clean(states[k]) && AllReached(states[k])
  {
    if k > 0 {
      var j := k - 1;
      FaultlessRunIsClean(states, events, j, max);
      RunKeepsInvariant(states, events, j, max);
      assert StepOk(states, events, j, max) && j + 1 == k;
      StepKeepsClean(states[j], events[j], max);
      StepKeepsReached(states[j], events[j], max);
    }
  }

  lemma {:induction false} OpenSince(log: seq<Row>, f: nat, i: nat)
    requires f < i <= |log| && Open(log, 0, i) && forall j :: f < j < i ==> !IsQuestion(log[j])
    ensures IsQuestion(log[f]) || log[f].kind in {Card, Pending}
    decreases i
  {
    if f < i - 1 {
      OpenSince(log, f, i - 1);
    }
  }

  lemma {:induction false} NoneAppendedAfter(log: seq<Row>, f: nat, j: nat, hi: nat)
    requires f < j <= hi <= |log| && log[f].kind == Failed
    requires forall i: nat :: i < |log| ==> OneAnswer(log, i)
    requires forall i :: f < i < j ==> !IsQuestion(log[i])
    ensures FirstAppended(log, j, hi).None?
    decreases hi - j
  {
    if j < hi && !IsQuestion(log[j]) {
      assert OneAnswer(log, j);
      if log[j].kind == Answered {
        OpenSince(log, f, j);
      } else {
        NoneAppendedAfter(log, f, j + 1, hi);
      }
    }
  }

  lemma {:induction false} NoRowWhileAsking(log: seq<Row>, q: nat, j: nat, hi: nat)
    requires AskingAt(log, q, hi) && q < j <= hi
    ensures FirstRow(log, j, hi) == hi
    decreases hi - j
  {
    if j < hi {
      NoRowWhileAsking(log, q, j + 1, hi);
    }
  }

  lemma CleanIsNotAtOdds(s: State, c: nat, t: int, scan: bool, detect: Detector)
    requires LogOk(s) && Clean(s) && s.phase.Working? && NoneMissed(s.log, 0, s.question, t)
    ensures NothingAtOdds(s.log, c, s.question, t, scan, detect)
  {
    var q := s.question;
    forall i: nat | c <= i < q && IsQuestion(s.log[i]) ensures !AtOdds(s.log, i, q, t) {
      QuestionNotAtOdds(s.log, i, q, t);
    }
    NoRowWhileAsking(s.log, q, q + 1, |s.log|);
  }

  lemma QuestionNotAtOdds(log: seq<Row>, i: nat, hi: nat, t: int)
    requires RowsOk(log) && i < hi <= |log| && forall j: nat :: j < |log| ==> OneAnswer(log, j)
    ensures !AtOdds(log, i, hi, t)
  {
    var f := FirstRow(log, i + 1, hi);
    if FirstIsMissed(log, i, hi, t) {
      assert OneAnswer(log, f) && RowOk(log, f);
      NoneAppendedAfter(log, f, f + 1, hi);
    }
  }

  lemma {:induction false} NothingPickedWhileAsking(log: seq<Row>, q: nat, hi: nat, t: int)
    requires AskingAt(log, q, hi)
    ensures Picked(log, q + 1, hi, t) == []
    decreases hi
  {
    if q + 1 < hi {
      NothingPickedWhileAsking(log, q, hi - 1, t);
    }
  }

  lemma QuestionEndsLoad(log: seq<Row>, c: nat, q: nat, t: int)
    requires AskingAt(log, q, |log|) && c <= q && Keeps(log[q], t)
    ensures var loaded := Messages(Picked(log, c, |log|, t));
      loaded != [] && loaded[|loaded| - 1] == log[q].msg
  {
    PickedSplit(log, c, q + 1, |log|, t);
    NothingPickedWhileAsking(log, q, |log|, t);
    assert Picked(log, c, q + 1, t) == Picked(log, c, q, t) + [log[q]];
  }

  lemma {:induction false} VisibleConcat(log: seq<Row>, lo: nat, m: nat, hi: nat)
    requires lo <= m <= hi <= |log|
    ensures Visible(log, lo, hi) == Visible(log, lo, m) + Visible(log, m, hi)
    decreases hi
  {
    if m < hi {
      VisibleConcat(log, lo, m, hi - 1);
    }
  }

  /** Where the last `max` rows of the table start. */
  function RecentStart(log: seq<Row>, max: nat): (r: nat)
    ensures r <= |log|
  {
    if |log| <= max then 0 else |log| - max
  }

  /** The loaded prior turns are the last ones of the whole table up to renumbering, and those of the
      last `max` rows are in turn the last ones among them: nothing in those rows is lost. While the
      question is among those rows, it ends what is loaded; and while the table has no more rows, the
      prior turns are exactly the table's. */
  ghost predicate LoadAgrees(s: State, valid: bool, max: nat, scan: bool, detect: Detector) {
    var n, loaded := |s.log|, LoadedIn(s, valid, max);
    var recent := RecentStart(s.log, max);
    && s.question < n
    && IsShiftedSuffix(PriorTurnsOf(loaded, scan, detect), PriorTurnsOf(Visible(s.log, 0, n), scan, detect))
    && IsShiftedSuffix(PriorTurnsOf(Visible(s.log, recent, n), scan, detect), PriorTurnsOf(loaded, scan, detect))
    && (s.question >= recent ==> loaded != [] && loaded[|loaded| - 1] == s.log[s.question].msg)
    && (n <= max ==> PriorTurnsOf(loaded, scan, detect) == PriorTurnsOf(Visible(s.log, 0, n), scan, detect))
  }

  lemma StretchCoversRecent(log: seq<Row>, c: nat, max: nat, scan: bool, detect: Detector)
    requires c <= |log| && (c == 0 || c + max <= |log|)
    ensures var turns := PriorTurnsOf(Visible(log, c, |log|), scan, detect);
      && IsShiftedSuffix(turns, PriorTurnsOf(Visible(log, 0, |log|), scan, detect))
      && IsShiftedSuffix(PriorTurnsOf(Visible(log, RecentStart(log, max), |log|), scan, detect), turns)
  {
    var n, recent := |log|, RecentStart(log, max);
    VisibleConcat(log, 0, c, n);
    CutIsShiftedSuffix(Visible(log, 0, c), Visible(log, c, n), scan, detect);
    VisibleConcat(log, c, recent, n);
    CutIsShiftedSuffix(Visible(log, c, recent), Visible(log, recent, n), scan, detect);
  }

  lemma LoadMissesNone(s: State, valid: bool, max: nat)
    requires Inv(s, max) && AllReached(s) && s.phase.Working?
    ensures NoneMissed(s.log, 0, s.question, ReadUpTo(s, valid)) && Keeps(s.log[s.question], ReadUpTo(s, valid))
  {
    LoadHasQuestion(s, valid, max);
    ReadAllMissesNone(s);
  }

  lemma LoadedTurns(s: State, valid: bool, max: nat, c: nat, scan: bool, detect: Detector)
    requires Inv(s, max) && Clean(s) && AllReached(s) && s.phase.Working? && LoadsFrom(s, valid, max, c, scan, detect)
    ensures PriorTurnsOf(LoadedIn(s, valid, max), scan, detect) == PriorTurnsOf(Visible(s.log, c, |s.log|), scan, detect)
    ensures var loaded := LoadedIn(s, valid, max);
      c <= s.question ==> loaded != [] && loaded[|loaded| - 1] == s.log[s.question].msg
  {
    LoadMissesNone(s, valid, max);
    CleanIsNotAtOdds(s, c, ReadUpTo(s, valid), scan, detect);
    if c <= s.question {
      QuestionEndsLoad(s.log, c, s.question, ReadUpTo(s, valid));
    }
  }

  lemma AgreesFrom(s: State, valid: bool, max: nat, c: nat, scan: bool, detect: Detector)
    requires Inv(s, max) && Clean(s) && AllReached(s) && s.phase.Working? && LoadsFrom(s, valid, max, c, scan, detect)
    ensures LoadAgrees(s, valid, max, scan, detect)
  {
    LoadedTurns(s, valid, max, c, scan, detect);
    StretchCoversRecent(s.log, c, max, scan, detect);
    assert c <= RecentStart(s.log, max) && (|s.log| <= max ==> c == 0);
  }

  /** Cache agreement: in every run without those faults, whatever the tail was when a worker loads the
      history (warm, cold, expired, unreadable, behind). */
  lemma LoadAgreesWithTable(states: seq<State>, events: seq<Event>, k: nat, max: nat, scan: bool, detect: Detector)
    requires IsRun(states, events, max) && k < |events| && events[k].Load? && max >= 1
    requires FaultlessRun(states, events)
    ensures LoadAgrees(states[k], events[k].valid, max, scan, detect)
  {
    var s, valid := states[k], events[k].valid;
    LoadAgreesExactly(states, events, k, max, scan, detect);
    var c: nat :| LoadsFrom(s, valid, max, c, scan, detect);
    RunKeepsInvariant(states, events, k, max);
    FaultlessRunIsClean(states, events, k, max);
    assert StepOk(states, events, k, max);
    AgreesFrom(s, valid, max, c, scan, detect);
  }

  // ---------------------------------------------------------------------
  // Runs with a fault
  // ---------------------------------------------------------------------

  /** The answer shows nothing in a turn. */
  predicate ShowsNothing(a: ChatMessage) {
    Shown(Some(a)) == Shown(None)
  }

  /** The load in state s gives exactly the table's prior turns. */
  predicate SameTurns(s: State, valid: bool, max: nat, scan: bool, detect: Detector) {
    PriorTurnsOf(LoadedIn(s, valid, max), scan, detect) == PriorTurnsOf(Visible(s.log, 0, |s.log|), scan, detect)
  }

  lemma SmallLoadAgreesExactly(states: seq<State>, events: seq<Event>, k: nat, max: nat, scan: bool, detect: Detector)
    requires IsRun(states, events, max) && k < |events| && events[k].Load? && max >= 1
    requires |states[k].log| <= max
    ensures var s, valid := states[k], events[k].valid;
      && s.question < |s.log|
      && (SameTurns(s, valid, max, scan, detect) <==>
            NothingAtOdds(s.log, 0, s.question, ReadUpTo(s, valid), scan, detect))
  {
    LoadAgreesExactly(states, events, k, max, scan, detect);
  }

  /** The last step of the run is a load in state s. */
  lemma LastLoadAgreesExactly(
      states: seq<State>, events: seq<Event>, s: State, max: nat, scan: bool, detect: Detector)
    requires IsRun(states, events, max) && events != [] && states[|events| - 1] == s
    requires events[|events| - 1] == Load(true) && 1 <= max && |s.log| <= max
    ensures s.question < |s.log|
    ensures SameTurns(states[|events| - 1], true, max, scan, detect) <==>
              NothingAtOdds(s.log, 0, s.question, ReadUpTo(s, true), scan, detect)
  {
    SmallLoadAgreesExactly(states, events, |events| - 1, max, scan, detect);
  }

  // The states of the runs below

  function FailedRow(seqNo: int): Row {
    Row(seqNo, BLANK_ANSWER, Failed)
  }

  function TailOf(latest: int, rows: seq<Row>): Option<Stored> {
    Some(Table(Some(latest), Some(rows)))
  }

  lemma AskStep(s: State, next: string, latest: int, rows: seq<Row>, max: nat)
    requires s.phase.Idle? && s.tail == TailOf(latest, rows) && latest <= |s.log| && |rows| < max
    ensures var n, row := |s.log|, QuestionRow(|s.log| + 1, next);
      && Enabled(s, Ask(next, true))
      && Next(s, Ask(next, true), max)
           == State(s.log + [row, PendingRow(n + 2)], TailOf(n + 1, rows + [row]), s.fetched, n, Working(false))
  {
    AppendsTo(s.tail, QuestionRow(|s.log| + 1, next), |s.log| + 1, max);
  }

  lemma AnswerStep(s: State, a: ChatMessage, latest: int, rows: seq<Row>, max: nat)
    requires s.phase == Working(true) && a.role == Assistant
    requires s.log != [] && s.tail == TailOf(latest, rows) && latest < |s.log| && |rows| < max
    ensures var row := Row(|s.log|, a, Answered);
      && Enabled(s, Answer(a, true))
      && Next(s, Answer(a, true), max)
           == s.(log := WithLast(s.log, a, Answered), tail := TailOf(|s.log|, rows + [row]), phase := Idle)
  {
    AppendsTo(s.tail, Row(|s.log|, a, Answered), |s.log|, max);
  }

  lemma WarmLoadStep(s: State, latest: int, rows: seq<Row>, max: nat)
    requires s.phase.Working? && s.tail == TailOf(latest, rows) && latest > s.question
    ensures Enabled(s, Load(true)) && Next(s, Load(true), max) == s.(phase := Working(true))
  {
  }

  /** A load that reads the table, whose rows before the last are the given ones. */
  lemma ColdLoadStep(s: State, rows: seq<Row>, max: nat)
    requires s.phase.Working? && s.tail == None && |rows| <= max && rows != []
    requires s.log == rows + [PendingRow(|rows| + 1)]
    requires forall i :: 0 <= i < |rows| ==> rows[i].seqNo == i + 1 && rows[i].kind !in {Card, Pending}
    ensures Enabled(s, Load(true))
    ensures Next(s, Load(true), max) == s.(tail := TailOf(|rows|, rows), fetched := |rows|, phase := Working(true))
  {
    var n := |rows|;
    AllBefore(rows, n + 2);
    assert Before(s.log, Some(n + 1)) == rows && Before(s.log, Some(|s.log|)) == rows by {
      AllBefore(rows, n + 1);
      assert s.log[..n] == rows;
    }
    AllKept(rows);
    assert KeepLast(rows, max) == rows;
  }

  lemma {:induction false} AllBefore(rows: seq<Row>, before: int)
    requires forall i :: 0 <= i < |rows| ==> rows[i].seqNo < before
    ensures Before(rows, Some(before)) == rows
  {
    if rows != [] {
      AllBefore(rows[..|rows| - 1], before);
    }
  }

  lemma {:induction false} AllKept(rows: seq<Row>)
    requires forall i :: 0 <= i < |rows| ==> rows[i].kind != Card
    ensures WithoutCards(rows) == rows
  {
    if rows != [] {
      AllKept(rows[..|rows| - 1]);
    }
  }

  /** The first question has been asked; its history has been loaded. */
  function AskedFirst(q: Row): State {
    State([q, PendingRow(2)], None, 0, 0, Working(false))
  }

  function LoadedFirst(q: Row): State {
    State([q, PendingRow(2)], TailOf(1, [q]), 1, 0, Working(true))
  }

  lemma FirstSteps(question: string, max: nat)
    requires max >= 1
    ensures var q := QuestionRow(1, question);
      && Next(START, Ask(question, true), max) == AskedFirst(q)
      && Enabled(AskedFirst(q), Load(true)) && Next(AskedFirst(q), Load(true), max) == LoadedFirst(q)
  {
    var q := QuestionRow(1, question);
    assert START.log + [q, PendingRow(2)] == [q, PendingRow(2)];
    assert [q, PendingRow(2)] == [q] + [PendingRow(2)];
    ColdLoadStep(AskedFirst(q), [q], max);
  }

  lemma OneMoreStep(states: seq<State>, events: seq<Event>, s: State, e: Event, s': State, max: nat)
    requires IsRun(states, events, max) && states[|events|] == s && Enabled(s, e) && Next(s, e, max) == s'
    ensures IsRun(states + [s'], events + [e], max) && (states + [s'])[|events + [e]|] == s'
  {
    var states', events' := states + [s'], events + [e];
    forall k: nat | k < |events'| ensures StepOk(states', events', k, max) {
      assert k < |events| ==> StepOk(states, events, k, max);
    }
  }

  function FirstEvents(question: string): seq<Event> {
    [Ask(question, true), Load(true)]
  }

  lemma FirstRun(question: string, max: nat) returns (states: seq<State>)
    requires max >= 1
    ensures IsRun(states, FirstEvents(question), max) && states[2] == LoadedFirst(QuestionRow(1, question))
  {
    var q := QuestionRow(1, question);
    FirstSteps(question, max);
    states := [START, AskedFirst(q), LoadedFirst(q)];
    assert StepOk(states, FirstEvents(question), 0, max) && StepOk(states, FirstEvents(question), 1, max);
  }

  /** The first request failed; its question was sent again. */
  function ResentFirst(q: Row): State {
    State([q, FailedRow(2), PendingRow(3)], TailOf(1, [q]), 1, 0, Working(false))
  }

  function ResentEvents(question: string): seq<Event> {
    FirstEvents(question) + [Fail] + [Resend(true)]
  }

  lemma ResentSteps(q: Row, max: nat)
    requires q.seqNo == 1
    ensures var failed := Next(LoadedFirst(q), Fail, max);
      && Enabled(LoadedFirst(q), Fail) && Enabled(failed, Resend(true))
      && Next(failed, Resend(true), max) == ResentFirst(q)
  {
    assert WithLast(LoadedFirst(q).log, BLANK_ANSWER, Failed) == [q, FailedRow(2)];
    assert [q, FailedRow(2)] + [PendingRow(3)] == ResentFirst(q).log;
  }

  lemma ResentRun(question: string, max: nat) returns (states: seq<State>)
    requires max >= 1
    ensures IsRun(states, ResentEvents(question), max) && states[|ResentEvents(question)|] == ResentFirst(QuestionRow(1, question))
  {
    var q := QuestionRow(1, question);
    ResentSteps(q, max);
    states := FirstRun(question, max);
    var failed := Next(LoadedFirst(q), Fail, max);
    OneMoreStep(states, FirstEvents(question), LoadedFirst(q), Fail, failed, max);
    OneMoreStep(states + [failed], FirstEvents(question) + [Fail], failed, Resend(true), ResentFirst(q), max);
    states := states + [failed] + [ResentFirst(q)];
  }

  /** The second request has loaded the history: from a warm tail, or by reading the table again. */
  function Retried(q: Row, reread: bool): State {
    State([q, FailedRow(2), PendingRow(3)], if reread then TailOf(2, [q, FailedRow(2)]) else TailOf(1, [q]),
          if reread then 2 else 1, 0, Working(true))
  }

  function RetriedEvents(question: string, reread: bool): seq<Event> {
    if reread then ResentEvents(question) + [Event.Expire] + [Load(true)] else ResentEvents(question) + [Load(true)]
  }

  /** What that load is made from. */
  function BeforeRetry(q: Row, reread: bool): State {
    if reread then ResentFirst(q).(tail := None) else ResentFirst(q)
  }

  lemma RetriedSteps(q: Row, max: nat)
    requires max >= 2 && q.seqNo == 1 && q.kind == Question
    ensures Enabled(ResentFirst(q), Load(true)) && Next(ResentFirst(q), Load(true), max) == Retried(q, false)
    ensures var cold := Next(ResentFirst(q), Event.Expire, max);
      Enabled(cold, Load(true)) && Next(cold, Load(true), max) == Retried(q, true)
  {
    WarmLoadStep(ResentFirst(q), 1, [q], max);
    var rows := [q, FailedRow(2)];
    assert ResentFirst(q).log == rows + [PendingRow(3)];
    ColdLoadStep(ResentFirst(q).(tail := None), rows, max);
  }

  lemma RetriedRun(question: string, reread: bool, max: nat) returns (states: seq<State>)
    requires max >= 2
    ensures var events, q := RetriedEvents(question, reread), QuestionRow(1, question);
      && IsRun(states, events, max)
      && states[|events| - 1] == BeforeRetry(q, reread) && states[|events|] == Retried(q, reread)
  {
    var q, events := QuestionRow(1, question), ResentEvents(question);
    RetriedSteps(q, max);
    states := ResentRun(question, max);
    if reread {
      var cold := Next(ResentFirst(q), Event.Expire, max);
      OneMoreStep(states, events, ResentFirst(q), Event.Expire, cold, max);
      OneMoreStep(states + [cold], events + [Event.Expire], cold, Load(true), Retried(q, true), max);
      states := states + [cold] + [Retried(q, true)];
    } else {
      OneMoreStep(states, events, ResentFirst(q), Load(true), Retried(q, false), max);
      states := states + [Retried(q, false)];
    }
  }

  /** The question has been answered after all, and another one asked. */
  function NextAsked(q: Row, a: ChatMessage, next: string, reread: bool): State {
    var answer, row := Row(3, a, Answered), QuestionRow(4, next);
    State([q, FailedRow(2), answer, row, PendingRow(5)],
          TailOf(4, (if reread then [q, FailedRow(2)] else [q]) + [answer] + [row]),
          if reread then 2 else 1, 3, Working(false))
  }

  lemma AnsweredSteps(q: Row, a: ChatMessage, next: string, reread: bool, max: nat)
    requires max >= 4 && a.role == Assistant
    ensures var s := Retried(q, reread);
            var s' := Next(s, Answer(a, true), max);
      && Enabled(s, Answer(a, true)) && Enabled(s', Ask(next, true))
      && Next(s', Ask(next, true), max) == NextAsked(q, a, next, reread)
  {
    var s, answer := Retried(q, reread), Row(3, a, Answered);
    var rows, latest := if reread then [q, FailedRow(2)] else [q], if reread then 2 else 1;
    AnswerStep(s, a, latest, rows, max);
    var log := [q, FailedRow(2), answer];
    assert WithLast(s.log, a, Answered) == log;
    var s' := s.(log := log, tail := TailOf(3, rows + [answer]), phase := Idle);
    AskStep(s', next, 3, rows + [answer], max);
    assert log + [QuestionRow(4, next), PendingRow(5)] == NextAsked(q, a, next, reread).log;
  }

  /** A failed question sent again, answered, and followed by another; the key may expire before the
      second request loads the history, so that the table is read again. */
  function ResentAnswered(question: string, a: ChatMessage, next: string, reread: bool): seq<Event> {
    RetriedEvents(question, reread) + [Answer(a, true)] + [Ask(next, true)] + [Load(true)]
  }

  lemma ResentAnsweredRun(question: string, a: ChatMessage, next: string, reread: bool, max: nat)
    returns (states: seq<State>)
    requires max >= 5 && a.role == Assistant
    ensures var events := ResentAnswered(question, a, next, reread);
      IsRun(states, events, max) && states[|events| - 1] == NextAsked(QuestionRow(1, question), a, next, reread)
  {
    var q, events := QuestionRow(1, question), RetriedEvents(question, reread);
    states := RetriedRun(question, reread, max);
    AnsweredSteps(q, a, next, reread, max);
    var s, s'' := Retried(q, reread), NextAsked(q, a, next, reread);
    var s' := Next(s, Answer(a, true), max);
    OneMoreStep(states, events, s, Answer(a, true), s', max);
    OneMoreStep(states + [s'], events + [Answer(a, true)], s', Ask(next, true), s'', max);
    var loaded := Next(s'', Load(true), max);
    OneMoreStep(states + [s'] + [s''], events + [Answer(a, true)] + [Ask(next, true)], s'', Load(true), loaded, max);
    states := states + [s'] + [s''] + [loaded];
  }

  lemma ResentOdds(log: seq<Row>, q: Row, a: ChatMessage, t: int, scan: bool, detect: Detector)
    requires |log| == 5 && log[0] == q && q.kind == Question && log[1] == FailedRow(2)
    requires log[2] == Row(3, a, Answered) && log[3].kind == Question && log[4].kind == Pending
    ensures NothingAtOdds(log, 0, 3, t, scan, detect) <==> t >= 2 || IsBlocked(q.msg, scan, detect) || ShowsNothing(a)
  {
    assert FirstRow(log, 1, 3) == 1;
    assert FirstAppended(log, 2, 3) == Some(a);
    assert FirstRow(log, 4, 5) == FirstRow(log, 5, 5) == 5;
    assert AtOdds(log, 0, 3, t) <==> t < 2 && !ShowsNothing(a);
  }

  lemma NextAskedOdds(q: Row, a: ChatMessage, next: string, reread: bool, scan: bool, detect: Detector)
    requires q.kind == Question
    ensures var s := NextAsked(q, a, next, reread);
      NothingAtOdds(s.log, 0, s.question, ReadUpTo(s, true), scan, detect) <==>
        reread || IsBlocked(q.msg, scan, detect) || ShowsNothing(a)
  {
    var s := NextAsked(q, a, next, reread);
    assert s.question == 3 && ReadUpTo(s, true) == if reread then 2 else 1;
    ResentOdds(s.log, q, a, ReadUpTo(s, true), scan, detect);
  }

  /** The last load of that run agrees with the table if and only if the table was read again in between
      (so that the tail has the blank answer too), or the question is blocked, or its answer shows
      nothing. */
  lemma ResentQuestionAgreement(
      question: string, a: ChatMessage, next: string, reread: bool, max: nat, scan: bool, detect: Detector)
    returns (states: seq<State>)
    requires max >= 5 && a.role == Assistant
    ensures var events := ResentAnswered(question, a, next, reread);
      && IsRun(states, events, max) && events[|events| - 1] == Load(true)
      && (SameTurns(states[|events| - 1], true, max, scan, detect) <==>
            reread || IsBlocked(QuestionRow(1, question).msg, scan, detect) || ShowsNothing(a))
  {
    var q, events := QuestionRow(1, question), ResentAnswered(question, a, next, reread);
    states := ResentAnsweredRun(question, a, next, reread, max);
    LastLoadAgreesExactly(states, events, NextAsked(q, a, next, reread), max, scan, detect);
    NextAskedOdds(q, a, next, reread, scan, detect);
  }

  lemma RetryOdds(log: seq<Row>, q: Row, t: int, scan: bool, detect: Detector)
    requires |log| == 3 && log[0] == q && q.kind == Question && log[1] == FailedRow(2) && log[2].kind == Pending
    ensures NothingAtOdds(log, 0, 0, t, scan, detect) <==> t >= 2 || IsBlocked(q.msg, scan, detect)
  {
    assert FirstRow(log, 1, 3) == 1;
    assert FirstAppended(log, 2, 3) == FirstAppended(log, 3, 3) == None;
  }

  lemma BeforeRetryOdds(q: Row, reread: bool, scan: bool, detect: Detector)
    requires q.kind == Question
    ensures var s := BeforeRetry(q, reread);
      NothingAtOdds(s.log, 0, s.question, ReadUpTo(s, true), scan, detect) <==> reread || IsBlocked(q.msg, scan, detect)
  {
    var s := BeforeRetry(q, reread);
    assert s.question == 0 && ReadUpTo(s, true) == if reread then 2 else 1;
    RetryOdds(s.log, q, ReadUpTo(s, true), scan, detect);
  }

  /** The second request's own load: a warm tail ends with the question, while the table has the blank
      answer after it and so shows the question as a prior turn. They agree if and only if the table is
      read, or the question is blocked. */
  lemma ResentLoadAgreement(question: string, reread: bool, max: nat, scan: bool, detect: Detector)
    returns (states: seq<State>)
    requires max >= 3
    ensures var events := RetriedEvents(question, reread);
      && IsRun(states, events, max) && events[|events| - 1] == Load(true)
      && (SameTurns(states[|events| - 1], true, max, scan, detect) <==>
            reread || IsBlocked(QuestionRow(1, question).msg, scan, detect))
  {
    var q, events := QuestionRow(1, question), RetriedEvents(question, reread);
    states := RetriedRun(question, reread, max);
    LastLoadAgreesExactly(states, events, BeforeRetry(q, reread), max, scan, detect);
    BeforeRetryOdds(q, reread, scan, detect);
  }

  /** An answer does not reach the tail, and another question is asked. */
  function LostThenAsked(q: Row, a: ChatMessage, next: string): State {
    var row := QuestionRow(3, next);
    State([q, Row(2, a, Lost), row, PendingRow(4)], TailOf(3, [q] + [row]), 1, 2, Working(false))
  }

  lemma LostSteps(q: Row, a: ChatMessage, next: string, max: nat)
    requires max >= 3 && a.role == Assistant
    ensures var s := LoadedFirst(q);
            var s' := Next(s, Answer(a, false), max);
      && Enabled(s, Answer(a, false)) && Enabled(s', Ask(next, true))
      && Next(s', Ask(next, true), max) == LostThenAsked(q, a, next)
  {
    var s, log := LoadedFirst(q), [q, Row(2, a, Lost)];
    assert WithLast(s.log, a, Lost) == log;
    AskStep(s.(log := log, phase := Idle), next, 1, [q], max);
    assert log + [QuestionRow(3, next), PendingRow(4)] == LostThenAsked(q, a, next).log;
  }

  /** A question whose answer does not reach the tail, followed by another; the key may expire before
      that one's request loads the history, so that the table is read again. */
  function LostAnswered(question: string, a: ChatMessage, next: string, reread: bool): seq<Event> {
    var events := FirstEvents(question) + [Answer(a, false)] + [Ask(next, true)];
    if reread then events + [Event.Expire] + [Load(true)] else events + [Load(true)]
  }

  lemma LostAnsweredRun(question: string, a: ChatMessage, next: string, reread: bool, max: nat)
    returns (states: seq<State>)
    requires max >= 4 && a.role == Assistant
    ensures var events := LostAnswered(question, a, next, reread);
      && IsRun(states, events, max)
      && states[|events| - 1] == BeforeLostLoad(QuestionRow(1, question), a, next, reread)
  {
    var q, events := QuestionRow(1, question), FirstEvents(question);
    states := FirstRun(question, max);
    LostSteps(q, a, next, max);
    var s, s'' := LoadedFirst(q), LostThenAsked(q, a, next);
    var s' := Next(s, Answer(a, false), max);
    OneMoreStep(states, events, s, Answer(a, false), s', max);
    OneMoreStep(states + [s'], events + [Answer(a, false)], s', Ask(next, true), s'', max);
    states, events := states + [s'] + [s''], events + [Answer(a, false)] + [Ask(next, true)];
    if reread {
      OneMoreStep(states, events, s'', Event.Expire, s''.(tail := None), max);
      states, events, s'' := states + [s''.(tail := None)], events + [Event.Expire], s''.(tail := None);
    }
    OneMoreStep(states, events, s'', Load(true), Next(s'', Load(true), max), max);
    states := states + [Next(s'', Load(true), max)];
  }

  lemma LostOdds(log: seq<Row>, q: Row, a: ChatMessage, t: int, scan: bool, detect: Detector)
    requires |log| == 4 && log[0] == q && q.kind == Question && log[1] == Row(2, a, Lost)
    requires log[2].kind == Question && log[3].kind == Pending
    ensures NothingAtOdds(log, 0, 2, t, scan, detect) <==> t >= 2 || IsBlocked(q.msg, scan, detect) || ShowsNothing(a)
  {
    assert FirstRow(log, 1, 2) == 1;
    assert FirstAppended(log, 2, 2) == None;
    assert FirstRow(log, 3, 4) == FirstRow(log, 4, 4) == 4;
    assert AtOdds(log, 0, 2, t) <==> t < 2 && !ShowsNothing(a);
  }

  /** What the load after that is made from. */
  function BeforeLostLoad(q: Row, a: ChatMessage, next: string, reread: bool): State {
    if reread then LostThenAsked(q, a, next).(tail := None) else LostThenAsked(q, a, next)
  }

  lemma BeforeLostLoadOdds(q: Row, a: ChatMessage, next: string, reread: bool, scan: bool, detect: Detector)
    requires q.kind == Question
    ensures var s := BeforeLostLoad(q, a, next, reread);
      NothingAtOdds(s.log, 0, s.question, ReadUpTo(s, true), scan, detect) <==>
        reread || IsBlocked(q.msg, scan, detect) || ShowsNothing(a)
  {
    var s := BeforeLostLoad(q, a, next, reread);
    assert s.question == 2 && ReadUpTo(s, true) == if reread then 3 else 1;
    LostOdds(s.log, q, a, ReadUpTo(s, true), scan, detect);
  }

  /** The last load of that run agrees with the table if and only if it reads it, or the question is
      blocked, or its answer shows nothing. */
  lemma LostAnswerAgreement(
      question: string, a: ChatMessage, next: string, reread: bool, max: nat, scan: bool, detect: Detector)
    returns (states: seq<State>)
    requires max >= 4 && a.role == Assistant
    ensures var events := LostAnswered(question, a, next, reread);
      && IsRun(states, events, max) && events[|events| - 1] == Load(true)
      && (SameTurns(states[|events| - 1], true, max, scan, detect) <==>
            reread || IsBlocked(QuestionRow(1, question).msg, scan, detect) || ShowsNothing(a))
  {
    var q, events := QuestionRow(1, question), LostAnswered(question, a, next, reread);
    states := LostAnsweredRun(question, a, next, reread, max);
    LastLoadAgreesExactly(states, events, BeforeLostLoad(q, a, next, reread), max, scan, detect);
    BeforeLostLoadOdds(q, a, next, reread, scan, detect);
  }

  /** A question and its answer, then a question that does not reach the live tail. */
  function AskedUnsent(q: Row, a: ChatMessage, unsent: string): State {
    var answer := Row(2, a, Answered);
    State([q, answer, AskedRow(3, unsent, false), PendingRow(4)], TailOf(2, [q] + [answer]), 1, 2, Working(false))
  }

  lemma UnsentSteps(q: Row, a: ChatMessage, unsent: string, max: nat)
    requires max >= 2 && a.role == Assistant
    ensures var s := LoadedFirst(q);
            var s' := Next(s, Answer(a, true), max);
      && Enabled(s, Answer(a, true)) && Enabled(s', Ask(unsent, false))
      && Next(s', Ask(unsent, false), max) == AskedUnsent(q, a, unsent)
  {
    var s, answer := LoadedFirst(q), Row(2, a, Answered);
    AnswerStep(s, a, 1, [q], max);
    var log := [q, answer];
    assert WithLast(s.log, a, Answered) == log;
    assert log + [AskedRow(3, unsent, false), PendingRow(4)] == AskedUnsent(q, a, unsent).log;
  }

  /** Its request fails before loading the history, and another question is asked. */
  function AskedPast(q: Row, a: ChatMessage, unsent: string, next: string): State {
    var answer, row := Row(2, a, Answered), QuestionRow(5, next);
    State([q, answer, AskedRow(3, unsent, false), FailedRow(4), row, PendingRow(6)],
          TailOf(5, [q] + [answer] + [row]), 1, 4, Working(false))
  }

  lemma PastSteps(q: Row, a: ChatMessage, unsent: string, next: string, max: nat)
    requires max >= 3
    ensures var s := AskedUnsent(q, a, unsent);
            var s' := Next(s, Fail, max);
      && Enabled(s, Fail) && Enabled(s', Ask(next, true)) && Next(s', Ask(next, true), max) == AskedPast(q, a, unsent, next)
  {
    var s, answer := AskedUnsent(q, a, unsent), Row(2, a, Answered);
    var log := [q, answer, AskedRow(3, unsent, false), FailedRow(4)];
    assert WithLast(s.log, BLANK_ANSWER, Failed) == log;
    AskStep(s.(log := log, phase := Idle), next, 2, [q] + [answer], max);
    assert log + [QuestionRow(5, next), PendingRow(6)] == AskedPast(q, a, unsent, next).log;
  }

  /** What the load after that is made from: the key may have expired, so that the table is read again. */
  function BeforePastLoad(q: Row, a: ChatMessage, unsent: string, next: string, reread: bool): State {
    if reread then AskedPast(q, a, unsent, next).(tail := None) else AskedPast(q, a, unsent, next)
  }

  function PastEvents(question: string, a: ChatMessage, unsent: string, next: string, reread: bool): seq<Event> {
    var events := FirstEvents(question) + [Answer(a, true)] + [Ask(unsent, false)] + [Fail] + [Ask(next, true)];
    if reread then events + [Event.Expire] + [Load(true)] else events + [Load(true)]
  }

  lemma UnsentRun(question: string, a: ChatMessage, unsent: string, max: nat) returns (states: seq<State>)
    requires max >= 2 && a.role == Assistant
    ensures var events := FirstEvents(question) + [Answer(a, true)] + [Ask(unsent, false)];
      IsRun(states, events, max) && states[|events|] == AskedUnsent(QuestionRow(1, question), a, unsent)
  {
    var q, events := QuestionRow(1, question), FirstEvents(question);
    states := FirstRun(question, max);
    UnsentSteps(q, a, unsent, max);
    var s, s'' := LoadedFirst(q), AskedUnsent(q, a, unsent);
    var s' := Next(s, Answer(a, true), max);
    OneMoreStep(states, events, s, Answer(a, true), s', max);
    OneMoreStep(states + [s'], events + [Answer(a, true)], s', Ask(unsent, false), s'', max);
    states := states + [s'] + [s''];
  }

  lemma PastRun(question: string, a: ChatMessage, unsent: string, next: string, reread: bool, max: nat)
    returns (states: seq<State>)
    requires max >= 3 && a.role == Assistant
    ensures var events := PastEvents(question, a, unsent, next, reread);
      && IsRun(states, events, max)
      && states[|events| - 1] == BeforePastLoad(QuestionRow(1, question), a, unsent, next, reread)
  {
    var q, events := QuestionRow(1, question), FirstEvents(question) + [Answer(a, true)] + [Ask(unsent, false)];
    states := UnsentRun(question, a, unsent, max);
    PastSteps(q, a, unsent, next, max);
    var s, s'' := AskedUnsent(q, a, unsent), AskedPast(q, a, unsent, next);
    var s' := Next(s, Fail, max);
    OneMoreStep(states, events, s, Fail, s', max);
    OneMoreStep(states + [s'], events + [Fail], s', Ask(next, true), s'', max);
    states, events := states + [s'] + [s''], events + [Fail] + [Ask(next, true)];
    if reread {
      OneMoreStep(states, events, s'', Event.Expire, s''.(tail := None), max);
      states, events, s'' := states + [s''.(tail := None)], events + [Event.Expire], s''.(tail := None);
    }
    OneMoreStep(states, events, s'', Load(true), Next(s'', Load(true), max), max);
    states := states + [Next(s'', Load(true), max)];
  }

  lemma PastOdds(log: seq<Row>, a: ChatMessage, row: Row, t: int, scan: bool, detect: Detector)
    requires |log| == 6 && log[0].kind == Question && log[1] == Row(2, a, Answered) && log[2] == row && log[3] == FailedRow(4)
    requires row.kind == Unsent && row.seqNo == 3 && log[4].kind == Question && log[5].kind == Pending
    ensures NothingAtOdds(log, 0, 4, t, scan, detect) <==> t >= 3 || IsBlocked(row.msg, scan, detect)
  {
    assert FirstRow(log, 1, 4) == 1 && FirstRow(log, 3, 4) == 3;
    assert FirstAppended(log, 4, 4) == None;
    assert FirstRow(log, 5, 6) == FirstRow(log, 6, 6) == 6;
    assert MissedQuestion(log[2], t) <==> t < 3;
    assert AllBlocked(log, 2, 4, scan, detect) <==> IsBlocked(row.msg, scan, detect);
  }

  lemma BeforePastLoadOdds(
      q: Row, a: ChatMessage, unsent: string, next: string, reread: bool, scan: bool, detect: Detector)
    requires q.kind == Question
    ensures var s := BeforePastLoad(q, a, unsent, next, reread);
      NothingAtOdds(s.log, 0, s.question, ReadUpTo(s, true), scan, detect) <==>
        reread || IsBlocked(AskedRow(3, unsent, false).msg, scan, detect)
  {
    var s := BeforePastLoad(q, a, unsent, next, reread);
    assert s.question == 4 && ReadUpTo(s, true) == if reread then 5 else 1;
    PastOdds(s.log, a, AskedRow(3, unsent, false), ReadUpTo(s, true), scan, detect);
  }

  /** The last load of that run agrees with the table if and only if it reads it, or the question that was
      passed over is blocked. */
  lemma MissedQuestionAgreement(
      question: string, a: ChatMessage, unsent: string, next: string, reread: bool, max: nat, scan: bool, detect: Detector)
    returns (states: seq<State>)
    requires max >= 6 && a.role == Assistant
    ensures var events := PastEvents(question, a, unsent, next, reread);
      && IsRun(states, events, max) && events[|events| - 1] == Load(true)
      && (SameTurns(states[|events| - 1], true, max, scan, detect) <==>
            reread || IsBlocked(AskedRow(3, unsent, false).msg, scan, detect))
  {
    var q, events := QuestionRow(1, question), PastEvents(question, a, unsent, next, reread);
    states := PastRun(question, a, unsent, next, reread, max);
    LastLoadAgreesExactly(states, events, BeforePastLoad(q, a, unsent, next, reread), max, scan, detect);
    BeforePastLoadOdds(q, a, unsent, next, reread, scan, detect);
  }
}

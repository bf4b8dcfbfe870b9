/** Prior conversation turns: pairing the loaded messages into question/answer turns and
    capping them to a token budget (src/services/context/turns.py). */
module Turns {
  import opened PyText

  datatype Role = System | Developer | User | Assistant | Tool

  datatype TurnSummary = TurnSummary(
    route: string, queryShape: Option<string>, entities: seq<string>, docCount: Option<nat>)

  datatype ChatMessage = ChatMessage(
    role: Role,
    content: string,
    summary: Option<TurnSummary>,
    findingsBlock: Option<string>,
    fromCarryover: bool,
    hops: int,
    docIds: Option<seq<string>>)

  /** One prior question and its answer. There is no field for a findings block. */
  datatype Turn = Turn(
    index: int, question: string, answer: Option<string>, fromCarryover: bool, summary: Option<TurnSummary>)

  // ---------------------------------------------------------------------
  // Pairing
  // ---------------------------------------------------------------------

  datatype Pair = Pair(question: ChatMessage, answer: Option<ChatMessage>)

  function AddToPairs(pairs: seq<Pair>, m: ChatMessage): seq<Pair> {
    if m.role == User then pairs + [Pair(m, None)]
    else if m.role == Assistant && pairs != [] && pairs[|pairs| - 1].answer.None? then
      pairs[|pairs| - 1 := pairs[|pairs| - 1].(answer := Some(m))]
    else pairs
  }

  /** The pairing loop, continued from `pairs` over `msgs`. */
  function PairFrom(pairs: seq<Pair>, msgs: seq<ChatMessage>): seq<Pair> {
    if msgs == [] then pairs else AddToPairs(PairFrom(pairs, msgs[..|msgs| - 1]), msgs[|msgs| - 1])
  }

  function Pairs(msgs: seq<ChatMessage>): seq<Pair> {
    PairFrom([], msgs)
  }

  /** The messages without the current question, which is last when it is there. */
  function WithoutCurrent(msgs: seq<ChatMessage>): seq<ChatMessage> {
    if msgs != [] && msgs[|msgs| - 1].role == User then msgs[..|msgs| - 1] else msgs
  }

  /** What the injection detector says about one text. The detector itself is not modelled:
      every statement below holds for any detector. */
  datatype Signal = Signal(block: bool, sanitized: string)
  type Detector = string -> Signal

  predicate Blocked(p: Pair, scan: bool, detect: Detector) {
    scan && p.question.content != "" && detect(p.question.content).block
  }

  function Sanitized(p: Pair, scan: bool, detect: Detector): string {
    if scan && p.question.content != "" then detect(p.question.content).sanitized else p.question.content
  }

  function AnswerText(answer: Option<ChatMessage>): Option<string> {
    if answer.Some? && answer.value.content != "" then Some(answer.value.content) else None
  }

  function TurnOf(index: int, p: Pair, scan: bool, detect: Detector): Turn {
    Turn(index, Sanitized(p, scan, detect), AnswerText(p.answer),
         p.answer.Some? && p.answer.value.fromCarryover,
         if p.answer.Some? then p.answer.value.summary else None)
  }

  /** The turns of `pairs`, the first of which has index `base`. */
  function TurnsOf(pairs: seq<Pair>, base: int, scan: bool, detect: Detector): seq<Turn> {
    if pairs == [] then []
    else
      var last := |pairs| - 1;
      TurnsOf(pairs[..last], base, scan, detect) +
      if Blocked(pairs[last], scan, detect) then [] else [TurnOf(base + last, pairs[last], scan, detect)]
  }

  function PriorTurnsOf(msgs: seq<ChatMessage>, scan: bool, detect: Detector): seq<Turn> {
    TurnsOf(Pairs(WithoutCurrent(msgs)), 0, scan, detect)
  }

  method PriorTurns(messages: seq<ChatMessage>, scan: bool, detect: Detector) returns (turns: seq<Turn>)
    ensures turns == PriorTurnsOf(messages, scan, detect)
  {
    var msgs := messages;
    if msgs != [] && msgs[|msgs| - 1].role == User {
      msgs := msgs[..|msgs| - 1];
    }
    var pairs: seq<Pair> := [];
    for i := 0 to |msgs|
      invariant pairs == Pairs(msgs[..i])
    {
      var m := msgs[i];
      assert msgs[..i + 1][..i] == msgs[..i];
      if m.role == User {
        pairs := pairs + [Pair(m, None)];
      } else if m.role == Assistant && pairs != [] && pairs[|pairs| - 1].answer.None? {
        pairs := pairs[|pairs| - 1 := Pair(pairs[|pairs| - 1].question, Some(m))];
      }
    }
    assert msgs[..|msgs|] == msgs;
    turns := [];
    for i := 0 to |pairs|
      invariant turns == TurnsOf(pairs[..i], 0, scan, detect)
    {
      assert pairs[..i + 1][..i] == pairs[..i];
      var question, answer := pairs[i].question, pairs[i].answer;
      var text := question.content;
      if scan && text != "" {
        var signal := detect(text);
        if signal.block {
          continue;
        }
        text := signal.sanitized;
      }
      turns := turns + [Turn(i, text, AnswerText(answer), answer.Some? && answer.value.fromCarryover,
                             if answer.Some? then answer.value.summary else None)];
    }
    assert pairs[..|pairs|] == pairs;
  }

  // What pairing means, without the loop: the questions are the user messages in order, and
  // the answer to one is the first assistant message before the next.

  /** The first assistant message of `msgs` that comes before any user message. */
  function FirstAnswer(msgs: seq<ChatMessage>): Option<ChatMessage> {
    if msgs == [] || msgs[0].role == User then None
    else if msgs[0].role == Assistant then Some(msgs[0])
    else FirstAnswer(msgs[1..])
  }

  function QuestionsWithAnswers(msgs: seq<ChatMessage>): seq<Pair> {
    if msgs == [] then []
    else if msgs[0].role == User then [Pair(msgs[0], FirstAnswer(msgs[1..]))] + QuestionsWithAnswers(msgs[1..])
    else QuestionsWithAnswers(msgs[1..])
  }

  lemma {:induction false} PairFromConcat(pairs: seq<Pair>, a: seq<ChatMessage>, b: seq<ChatMessage>)
    ensures PairFrom(pairs, a + b) == PairFrom(PairFrom(pairs, a), b)
  {
    if b == [] {
      assert a + b == a;
    } else {
      var n := |b| - 1;
      assert (a + b)[..|a + b| - 1] == a + b[..n];
      PairFromConcat(pairs, a, b[..n]);
    }
  }

  /** `pairs`, whose last question has been given an answer if it was waiting for one. */
  function AnsweredWith(pairs: seq<Pair>, answer: Option<ChatMessage>): (r: seq<Pair>)
    ensures |r| == |pairs|
  {
    if pairs != [] && pairs[|pairs| - 1].answer.None? then pairs[|pairs| - 1 := pairs[|pairs| - 1].(answer := answer)]
    else pairs
  }

  /** Pairing is the declarative pairing, from any starting point. */
  lemma {:induction false} PairFromIsDeclarative(pairs: seq<Pair>, msgs: seq<ChatMessage>)
    ensures PairFrom(pairs, msgs) == AnsweredWith(pairs, FirstAnswer(msgs)) + QuestionsWithAnswers(msgs)
    decreases |msgs|
  {
    if msgs != [] {
      var m, rest := msgs[0], msgs[1..];
      assert msgs == [m] + rest;
      PairFromConcat(pairs, [m], rest);
      assert PairFrom(pairs, [m]) == AddToPairs(pairs, m) by { assert [m][..0] == []; }
      PairFromIsDeclarative(AddToPairs(pairs, m), rest);
    }
  }

  /** Each question is paired with the first assistant message before the next question. */
  lemma PairsAreQuestionsWithAnswers(msgs: seq<ChatMessage>)
    ensures Pairs(msgs) == QuestionsWithAnswers(msgs)
  {
    PairFromIsDeclarative([], msgs);
  }

  // Cutting

  function Shifted(turns: seq<Turn>, shift: int): (r: seq<Turn>)
    ensures |r| == |turns|
  {
    seq(|turns|, i requires 0 <= i < |turns| => turns[i].(index := turns[i].index + shift))
  }

  lemma {:induction false} TurnsOfConcat(p: seq<Pair>, q: seq<Pair>, base: int, scan: bool, detect: Detector)
    ensures TurnsOf(p + q, base, scan, detect)
         == TurnsOf(p, base, scan, detect) + TurnsOf(q, base + |p|, scan, detect)
  {
    if q == [] {
      assert p + q == p;
    } else {
      assert (p + q)[..|p + q| - 1] == p + q[..|q| - 1];
      TurnsOfConcat(p, q[..|q| - 1], base, scan, detect);
    }
  }

  lemma {:induction false} TurnsOfShift(p: seq<Pair>, base: int, shift: int, scan: bool, detect: Detector)
    ensures TurnsOf(p, base + shift, scan, detect) == Shifted(TurnsOf(p, base, scan, detect), shift)
  {
    if p != [] {
      TurnsOfShift(p[..|p| - 1], base, shift, scan, detect);
    }
  }

  ghost predicate ShiftedSuffixAt(part: seq<Turn>, whole: seq<Turn>, n: nat, shift: int) {
    n <= |whole| && whole[n..] == Shifted(part, shift)
  }

  /** `part` is the end of `whole`, its turns counted from a later start. */
  ghost predicate IsShiftedSuffix(part: seq<Turn>, whole: seq<Turn>) {
    exists n: nat, shift: nat :: ShiftedSuffixAt(part, whole, n, shift)
  }

  lemma PairsOfCut(a: seq<ChatMessage>, b: seq<ChatMessage>)
    ensures Pairs(a + b) == AnsweredWith(Pairs(a), FirstAnswer(b)) + Pairs(b)
  {
    PairFromConcat([], a, b);
    PairFromIsDeclarative(Pairs(a), b);
    PairsAreQuestionsWithAnswers(b);
  }

  /** Cutting the message list anywhere leaves a suffix of the turns, renumbered. */
  lemma CutIsShiftedSuffix(a: seq<ChatMessage>, b: seq<ChatMessage>, scan: bool, detect: Detector)
    ensures IsShiftedSuffix(PriorTurnsOf(b, scan, detect), PriorTurnsOf(a + b, scan, detect))
  {
    var part, whole := PriorTurnsOf(b, scan, detect), PriorTurnsOf(a + b, scan, detect);
    if b == [] {
      assert ShiftedSuffixAt(part, whole, |whole|, 0);
    } else {
      var b' := WithoutCurrent(b);
      assert WithoutCurrent(a + b) == a + b';
      var front := AnsweredWith(Pairs(a), FirstAnswer(b'));
      PairsOfCut(a, b');
      TurnsOfConcat(front, Pairs(b'), 0, scan, detect);
      TurnsOfShift(Pairs(b'), 0, |front|, scan, detect);
      assert ShiftedSuffixAt(part, whole, |TurnsOf(front, 0, scan, detect)|, |front|);
    }
  }

  // Which turns are there

  predicate Earlier(turns: seq<Turn>, i: nat, j: nat)
    requires i < j < |turns|
  {
    turns[i].index < turns[j].index
  }

  predicate IndicesIncrease(turns: seq<Turn>) {
    forall i: nat, j: nat :: i < j < |turns| ==> Earlier(turns, i, j)
  }

  /** `t` is the turn of the question at its own index, and that question is not blocked. */
  predicate IsUnblockedTurn(t: Turn, pairs: seq<Pair>, base: int, scan: bool, detect: Detector) {
    var i := t.index - base;
    0 <= i < |pairs| && !Blocked(pairs[i], scan, detect) && t == TurnOf(t.index, pairs[i], scan, detect)
  }

  lemma {:induction false} TurnsAreUnblocked(t: Turn, pairs: seq<Pair>, base: int, scan: bool, detect: Detector)
    ensures t in TurnsOf(pairs, base, scan, detect) <==> IsUnblockedTurn(t, pairs, base, scan, detect)
  {
    if pairs != [] {
      TurnsAreUnblocked(t, pairs[..|pairs| - 1], base, scan, detect);
    }
  }

  lemma {:induction false} TurnIndicesIncrease(pairs: seq<Pair>, base: int, scan: bool, detect: Detector)
    ensures IndicesIncrease(TurnsOf(pairs, base, scan, detect))
  {
    if pairs != [] {
      var front := pairs[..|pairs| - 1];
      TurnIndicesIncrease(front, base, scan, detect);
      var before, turns := TurnsOf(front, base, scan, detect), TurnsOf(pairs, base, scan, detect);
      forall i: nat, j: nat | i < j < |turns| ensures Earlier(turns, i, j) {
        TurnsAreUnblocked(before[i], front, base, scan, detect);
        assert j < |before| ==> Earlier(before, i, j);
      }
    }
  }

  /** A turn is there exactly for each question that is not blocked, with that question's first
      answer and position; no blocked question and no answer to one is there. */
  lemma PriorTurnsAreUnblocked(t: Turn, msgs: seq<ChatMessage>, scan: bool, detect: Detector)
    ensures t in PriorTurnsOf(msgs, scan, detect)
       <==> IsUnblockedTurn(t, QuestionsWithAnswers(WithoutCurrent(msgs)), 0, scan, detect)
    ensures IndicesIncrease(PriorTurnsOf(msgs, scan, detect))
  {
    PairsAreQuestionsWithAnswers(WithoutCurrent(msgs));
    TurnsAreUnblocked(t, Pairs(WithoutCurrent(msgs)), 0, scan, detect);
    TurnIndicesIncrease(Pairs(WithoutCurrent(msgs)), 0, scan, detect);
  }

  /** What a model is shown of question p, whose answer is the first before the next question: the text the detector
      passes on when it scans, and else the text itself; an answer only if there is one with any text, and its flags. */
  predicate ShowsPair(t: Turn, p: Pair, scan: bool, detect: Detector) {
    && t.question == (if scan && p.question.content != "" then detect(p.question.content).sanitized else p.question.content)
    && t.answer == (if p.answer.Some? && p.answer.value.content != "" then Some(p.answer.value.content) else None)
    && (t.fromCarryover <==> p.answer.Some? && p.answer.value.fromCarryover)
    && t.summary == (if p.answer.Some? then p.answer.value.summary else None)
  }

  /** Each question is shown at its own position, unless the detector is asked about it and blocks it; nothing else is. */
  lemma TurnsShowQuestions(t: Turn, msgs: seq<ChatMessage>, scan: bool, detect: Detector)
    ensures var asked := QuestionsWithAnswers(WithoutCurrent(msgs));
      t in PriorTurnsOf(msgs, scan, detect) <==>
        && 0 <= t.index < |asked|
        && !(scan && asked[t.index].question.content != "" && detect(asked[t.index].question.content).block)
        && ShowsPair(t, asked[t.index], scan, detect)
  {
    PriorTurnsAreUnblocked(t, msgs, scan, detect);
  }

  // Contract F1

  /** The message with its findings block, hop count and document ids removed. */
  function NoFindings(m: ChatMessage): ChatMessage {
    m.(findingsBlock := None, hops := 0, docIds := None)
  }

  function AllNoFindings(msgs: seq<ChatMessage>): (r: seq<ChatMessage>)
    ensures |r| == |msgs|
  {
    seq(|msgs|, i requires 0 <= i < |msgs| => NoFindings(msgs[i]))
  }

  function PairNoFindings(p: Pair): Pair {
    Pair(NoFindings(p.question), if p.answer.Some? then Some(NoFindings(p.answer.value)) else None)
  }

  lemma {:induction false} PairsIgnoreFindings(msgs: seq<ChatMessage>)
    ensures |Pairs(AllNoFindings(msgs))| == |Pairs(msgs)|
    ensures forall i :: 0 <= i < |Pairs(msgs)| ==> Pairs(AllNoFindings(msgs))[i] == PairNoFindings(Pairs(msgs)[i])
  {
    if msgs != [] {
      PairsIgnoreFindings(msgs[..|msgs| - 1]);
      assert AllNoFindings(msgs)[..|msgs| - 1] == AllNoFindings(msgs[..|msgs| - 1]);
    }
  }

  lemma {:induction false} TurnsIgnoreFindings(p: seq<Pair>, q: seq<Pair>, scan: bool, detect: Detector)
    requires |p| == |q| && forall i :: 0 <= i < |p| ==> q[i] == PairNoFindings(p[i])
    ensures TurnsOf(p, 0, scan, detect) == TurnsOf(q, 0, scan, detect)
  {
    if p != [] {
      TurnsIgnoreFindings(p[..|p| - 1], q[..|q| - 1], scan, detect);
    }
  }

  /** Contract F1: no change to any findings block, its hop count or its document ids can be
      seen in the turns. */
  lemma FindingsNeverReachTurns(a: seq<ChatMessage>, b: seq<ChatMessage>, scan: bool, detect: Detector)
    requires AllNoFindings(a) == AllNoFindings(b)
    ensures PriorTurnsOf(a, scan, detect) == PriorTurnsOf(b, scan, detect)
  {
    forall s | s == a || s == b
      ensures PriorTurnsOf(s, scan, detect) == PriorTurnsOf(AllNoFindings(s), scan, detect)
    {
      assert s != [] ==> AllNoFindings(s)[|s| - 1] == NoFindings(s[|s| - 1]);
      assert WithoutCurrent(AllNoFindings(s)) == AllNoFindings(WithoutCurrent(s));
      PairsIgnoreFindings(WithoutCurrent(s));
      TurnsIgnoreFindings(Pairs(WithoutCurrent(s)), Pairs(WithoutCurrent(AllNoFindings(s))), scan, detect);
    }
  }
}

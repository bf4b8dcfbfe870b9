/** The token-budgeted, step-aligned window over prior turns that each model is given
    (src/services/context/turns.py). */
module HistoryWindow {
  import opened PyText
  import opened Turns

  /** Floor division rounded up, written as the source writes it. */
  function CeilDiv(a: int, b: int): int
    requires b > 0
  {
    -((-a) / b)
  }

  function ApproxTokens(text: string): (n: nat)
    ensures 4 * n - 3 <= |text| <= 4 * n
  {
    CeilDiv(|text|, 4)
  }

  const TRUNCATION_MARKER := " [\U{2026}truncated]"

  function TruncateTokens(text: string, maxTokens: int): string {
    if ApproxTokens(text) <= maxTokens then text
    else RStrip(SliceTo(text, maxTokens * 4)) + TRUNCATION_MARKER
  }

  datatype HistoryBudget = HistoryBudget(budgetTokens: int, maxAnswerTokens: Option<int>, step: int) {
    /** What `__post_init__` demands; any other value raises. */
    predicate Valid() {
      budgetTokens >= 1 && step >= 1
    }

    /** A configured budget, in which an answer cap of 0 means whole answers; None is the ValueError. */
    static function FromConfig(budgetTokens: int, maxAnswerTokens: int, step: int): (b: Option<HistoryBudget>)
      ensures b.Some? <==> budgetTokens >= 1 && step >= 1
      ensures b.Some? ==> b.value.Valid() && (b.value.maxAnswerTokens.None? <==> maxAnswerTokens == 0)
    {
      var b := HistoryBudget(budgetTokens, if maxAnswerTokens == 0 then None else Some(maxAnswerTokens), step);
      if b.Valid() then Some(b) else None
    }
  }

  function CapAnswer(t: Turn, maxTokens: Option<int>): Turn {
    if maxTokens.Some? && t.answer.Some? then t.(answer := Some(TruncateTokens(t.answer.value, maxTokens.value)))
    else t
  }

  function CapAnswers(turns: seq<Turn>, maxTokens: Option<int>): (r: seq<Turn>)
    ensures |r| == |turns|
  {
    seq(|turns|, i requires 0 <= i < |turns| => CapAnswer(turns[i], maxTokens))
  }

  function TurnTokens(t: Turn): nat {
    ApproxTokens(t.question) + ApproxTokens(if t.answer.Some? then t.answer.value else "")
  }

  function TokensFrom(turns: seq<Turn>, k: nat): nat
    requires k <= |turns|
    decreases |turns| - k
  {
    if k == |turns| then 0 else TurnTokens(turns[k]) + TokensFrom(turns, k + 1)
  }

  /** The start, at or before k, of the longest suffix within the budget. */
  function FitsDownFrom(turns: seq<Turn>, k: nat, budget: nat): (f: nat)
    requires k <= |turns| && TokensFrom(turns, k) <= budget
    ensures f <= k && TokensFrom(turns, f) <= budget
    ensures f > 0 ==> TokensFrom(turns, f - 1) > budget
  {
    if k > 0 && TokensFrom(turns, k - 1) <= budget then FitsDownFrom(turns, k - 1, budget) else k
  }

  function FitsFrom(turns: seq<Turn>, budget: nat): (f: nat)
    ensures f <= |turns| && TokensFrom(turns, f) <= budget
    ensures f > 0 ==> TokensFrom(turns, f - 1) > budget
  {
    FitsDownFrom(turns, |turns|, budget)
  }

  function Max(a: int, b: int): int {
    if a >= b then a else b
  }

  /** The last turn when not even it fits: its answer is cut to what the question leaves. */
  function CutToRoom(last: Turn, budget: int): Turn {
    if last.answer.None? then last
    else last.(answer := Some(TruncateTokens(last.answer.value, Max(budget - ApproxTokens(last.question), 0))))
  }

  function AtLeast(turns: seq<Turn>, start: int): seq<Turn> {
    if turns == [] then []
    else (if turns[0].index >= start then [turns[0]] else []) + AtLeast(turns[1..], start)
  }

  /** The first multiple of `step` that is not before `index`. */
  function Boundary(index: int, step: int): int
    requires step >= 1
  {
    CeilDiv(index, step) * step
  }

  /** The window over turns whose answers are already capped. */
  function Window(capped: seq<Turn>, b: HistoryBudget): seq<Turn>
    requires b.Valid()
  {
    WindowAt(capped, FitsFrom(capped, b.budgetTokens), b)
  }

  function WindowAt(capped: seq<Turn>, f: nat, b: HistoryBudget): seq<Turn>
    requires b.Valid() && f <= |capped|
  {
    if capped == [] then []
    else if f == |capped| then [CutToRoom(capped[f - 1], b.budgetTokens)]
    else FromBoundary(capped[f..], Boundary(capped[f].index, b.step))
  }

  /** The turns from the boundary on, or all of them when none is that late. */
  function FromBoundary(turns: seq<Turn>, start: int): seq<Turn> {
    var window := AtLeast(turns, start);
    if window == [] then turns else window
  }

  function CapTurnsOf(turns: seq<Turn>, b: HistoryBudget): seq<Turn>
    requires b.Valid()
  {
    Window(CapAnswers(turns, b.maxAnswerTokens), b)
  }

  // ---------------------------------------------------------------------
  // What a window is, said without the functions that compute it
  // ---------------------------------------------------------------------

  /** How many characters of a text that is too long are looked at. */
  function RoomIn(text: string, maxTokens: int): nat {
    if maxTokens >= 0 then 4 * maxTokens else if |text| + 4 * maxTokens >= 0 then |text| + 4 * maxTokens else 0
  }

  /** A text of at most four characters a token is shown as it is; of a longer one, that many characters
      without their trailing whitespace, and the marker. */
  ghost predicate ShownWithin(text: string, maxTokens: int, shown: string) {
    if |text| <= 4 * maxTokens then shown == text
    else exists k: nat :: EndsBeforeSpace(text, k, RoomIn(text, maxTokens)) && shown == text[..k] + " [\U{2026}truncated]"
  }

  /** Turn m is turn t, its answer shown within the cap. */
  ghost predicate ShowsTurn(t: Turn, maxTokens: Option<int>, m: Turn) {
    && m.index == t.index && m.question == t.question && m.fromCarryover == t.fromCarryover && m.summary == t.summary
    && match t.answer
       case None => m.answer == None
       case Some(answer) =>
         m.answer.Some? && if maxTokens.None? then m.answer == t.answer else ShownWithin(answer, maxTokens.value, m.answer.value)
  }

  ghost predicate ShowsTurns(turns: seq<Turn>, maxTokens: Option<int>, capped: seq<Turn>) {
    |capped| == |turns| && forall i :: 0 <= i < |turns| ==> ShowsTurn(turns[i], maxTokens, capped[i])
  }

  /** Of the turns from f on, which are the longest suffix within the budget, those from p on are kept: from the
      first to reach the least multiple m of the step that is not before turn f, or all when none does. */
  ghost predicate StartsAt(capped: seq<Turn>, b: HistoryBudget, f: nat, m: int, p: nat)
    requires b.Valid()
  {
    && f <= p < |capped| && TokensFrom(capped, f) <= b.budgetTokens && (f > 0 ==> TokensFrom(capped, f - 1) > b.budgetTokens)
    && capped[f].index <= m < capped[f].index + b.step && m % b.step == 0
    && (forall i :: f <= i < p ==> capped[i].index < m)
    && (capped[p].index >= m || (p == f && forall i :: f <= i < |capped| ==> capped[i].index < m))
  }

  /** What is kept of the turns as shown: a suffix if the last turn fits, and else that turn alone, its answer
      within what the question leaves of the budget. */
  ghost predicate KeepsRight(capped: seq<Turn>, b: HistoryBudget, kept: seq<Turn>)
    requires b.Valid() && capped != []
  {
    var last := capped[|capped| - 1];
    if TurnTokens(last) <= b.budgetTokens then exists f: nat, m: int, p: nat :: StartsAt(capped, b, f, m, p) && kept == capped[p..]
    else |kept| == 1 && ShowsTurn(last, Some(Max(b.budgetTokens - ApproxTokens(last.question), 0)), kept[0])
  }

  /** What is kept of turns whose indices increase. */
  ghost predicate WindowIsRight(turns: seq<Turn>, b: HistoryBudget, kept: seq<Turn>)
    requires b.Valid()
  {
    if turns == [] then kept == []
    else IndicesIncrease(turns) ==> exists capped :: ShowsTurns(turns, b.maxAnswerTokens, capped) && KeepsRight(capped, b, kept)
  }

  lemma TruncatesExactly(text: string, maxTokens: int)
    ensures ShownWithin(text, maxTokens, TruncateTokens(text, maxTokens))
  {
    if |text| > 4 * maxTokens {
      var cut := SliceTo(text, maxTokens * 4);
      var k := |RStrip(cut)|;
      RStripExactly(cut);
      assert |cut| == RoomIn(text, maxTokens);
      assert forall i :: 0 <= i < |cut| ==> cut[i] == text[i];
      assert EndsBeforeSpace(text, k, RoomIn(text, maxTokens));
      assert RStrip(cut) == text[..k];
    }
  }

  lemma CapsExactly(turns: seq<Turn>, maxTokens: Option<int>)
    ensures ShowsTurns(turns, maxTokens, CapAnswers(turns, maxTokens))
  {
    forall i | 0 <= i < |turns| ensures ShowsTurn(turns[i], maxTokens, CapAnswer(turns[i], maxTokens)) {
      if maxTokens.Some? && turns[i].answer.Some? {
        TruncatesExactly(turns[i].answer.value, maxTokens.value);
      }
    }
  }

  function Characters(turns: seq<Turn>, k: nat): nat
    requires k <= |turns|
    decreases |turns| - k
  {
    if k == |turns| then 0
    else |turns[k].question| + (if turns[k].answer.Some? then |turns[k].answer.value| else 0) + Characters(turns, k + 1)
  }

  /** Every turn counts a token for each four characters, question and answer each rounded up. */
  lemma {:induction false} TokensOfTurns(turns: seq<Turn>, k: nat)
    requires k <= |turns|
    ensures 4 * TokensFrom(turns, k) - 6 * (|turns| - k) <= Characters(turns, k) <= 4 * TokensFrom(turns, k)
    decreases |turns| - k
  {
    if k < |turns| {
      TokensOfTurns(turns, k + 1);
    }
  }

  lemma KeepsStart(capped: seq<Turn>, b: HistoryBudget)
    requires b.Valid() && capped != [] && IndicesIncrease(capped) && FitsFrom(capped, b.budgetTokens) < |capped|
    ensures var f := FitsFrom(capped, b.budgetTokens);
      StartsAt(capped, b, f, Boundary(capped[f].index, b.step), WindowStart(capped, b))
  {
    var f := FitsFrom(capped, b.budgetTokens);
    BoundaryBounds(capped[f].index, b.step);
    MultipleMod(CeilDiv(capped[f].index, b.step), b.step);
  }

  lemma KeepsExactly(capped: seq<Turn>, b: HistoryBudget)
    requires b.Valid() && capped != [] && IndicesIncrease(capped)
    ensures KeepsRight(capped, b, Window(capped, b))
  {
    var f, n := FitsFrom(capped, b.budgetTokens), |capped| - 1;
    FittingSuffixIsLongest(capped, b.budgetTokens, n);
    assert TokensFrom(capped, n) == TurnTokens(capped[n]) + TokensFrom(capped, |capped|);
    if f < |capped| {
      KeepsStart(capped, b);
      AtLeastIsSuffix(capped, f, Boundary(capped[f].index, b.step));
    } else if capped[n].answer.Some? {
      TruncatesExactly(capped[n].answer.value, Max(b.budgetTokens - ApproxTokens(capped[n].question), 0));
    }
  }

  /** The window of any turns, described. */
  lemma WindowExactly(turns: seq<Turn>, b: HistoryBudget)
    requires b.Valid()
    ensures WindowIsRight(turns, b, CapTurnsOf(turns, b))
  {
    if turns != [] && IndicesIncrease(turns) {
      var capped := CapAnswers(turns, b.maxAnswerTokens);
      CapsExactly(turns, b.maxAnswerTokens);
      IncreaseInCapped(turns, b.maxAnswerTokens);
      KeepsExactly(capped, b);
    }
  }

  /** No answer is longer than the cap allows. */
  predicate AnswersShort(turns: seq<Turn>, maxTokens: Option<int>) {
    maxTokens.None? || forall i :: 0 <= i < |turns| && turns[i].answer.Some? ==> |turns[i].answer.value| <= 4 * maxTokens.value
  }

  /** With no cap, or with every answer within it, a window whose last turn fits is a suffix of the turns given. */
  lemma ShortAnswersAreKept(turns: seq<Turn>, b: HistoryBudget)
    requires b.Valid() && turns != [] && IndicesIncrease(turns)
    requires AnswersShort(turns, b.maxAnswerTokens) && TurnTokens(turns[|turns| - 1]) <= b.budgetTokens
    ensures var kept := CapTurnsOf(turns, b);
      1 <= |kept| <= |turns| && kept == turns[|turns| - |kept|..]
  {
    var capped := CapAnswers(turns, b.maxAnswerTokens);
    CapsExactly(turns, b.maxAnswerTokens);
    forall i | 0 <= i < |turns| ensures capped[i] == turns[i] {
      assert ShowsTurn(turns[i], b.maxAnswerTokens, capped[i]);
    }
    assert capped == turns;
    KeepsExactly(capped, b);
  }

  method CapTurns(turns: seq<Turn>, b: HistoryBudget) returns (kept: seq<Turn>)
    requires b.Valid()
    ensures kept == CapTurnsOf(turns, b)
    ensures WindowIsRight(turns, b, kept)
  {
    WindowExactly(turns, b);
    var capped := CapAnswers(turns, b.maxAnswerTokens);
    if capped == [] {
      return [];
    }
    var total, fitsFrom, pos := 0, |capped|, |capped|;
    while pos > 0
      invariant 0 <= pos == fitsFrom <= |capped|
      invariant total == TokensFrom(capped, pos) <= b.budgetTokens
      invariant FitsFrom(capped, b.budgetTokens) == FitsDownFrom(capped, pos, b.budgetTokens)
    {
      total := total + TurnTokens(capped[pos - 1]);
      if total > b.budgetTokens {
        break;
      }
      pos := pos - 1;
      fitsFrom := pos;
    }
    assert fitsFrom == FitsFrom(capped, b.budgetTokens);
    if fitsFrom == |capped| {
      return [CutToRoom(capped[|capped| - 1], b.budgetTokens)];
    }
    var window := AtLeast(capped[fitsFrom..], Boundary(capped[fitsFrom].index, b.step));
    kept := if window == [] then capped[fitsFrom..] else window;
  }

  // ---------------------------------------------------------------------
  // Size
  // ---------------------------------------------------------------------

  lemma TruncatedSize(text: string, maxTokens: nat)
    ensures ApproxTokens(TruncateTokens(text, maxTokens)) <= maxTokens + 4
  {
    var cut := SliceTo(text, maxTokens * 4);
    RStripIsPrefix(cut);
    assert |RStrip(cut) + TRUNCATION_MARKER| <= 4 * maxTokens + 13;
  }

  /** A cut text is at most the marker over its cap, and a cap holds only if it is not negative. */
  lemma TruncationBound(maxTokens: int)
    ensures (forall text :: ApproxTokens(TruncateTokens(text, maxTokens)) <= maxTokens + 4) <==> maxTokens >= 0
  {
    if maxTokens >= 0 {
      forall text ensures ApproxTokens(TruncateTokens(text, maxTokens)) <= maxTokens + 4 {
        TruncatedSize(text, maxTokens);
      }
    } else {
      assert SliceTo("", maxTokens * 4) == "";
      assert TruncateTokens("", maxTokens) == TRUNCATION_MARKER;
    }
  }

  lemma {:induction false} TokensFromIsMonotone(turns: seq<Turn>, j: nat, k: nat)
    requires j <= k <= |turns|
    ensures TokensFrom(turns, k) <= TokensFrom(turns, j)
    decreases k - j
  {
    if j < k {
      TokensFromIsMonotone(turns, j + 1, k);
    }
  }

  /** The suffixes within the budget are exactly those no longer than the fitting one. */
  lemma FittingSuffixIsLongest(turns: seq<Turn>, budget: nat, k: nat)
    requires k <= |turns|
    ensures TokensFrom(turns, k) <= budget <==> FitsFrom(turns, budget) <= k
  {
    var f := FitsFrom(turns, budget);
    if f <= k {
      TokensFromIsMonotone(turns, f, k);
    } else {
      TokensFromIsMonotone(turns, k, f - 1);
    }
  }

  lemma {:induction false} TokensOfSuffix(turns: seq<Turn>, n: nat, k: nat)
    requires n <= k <= |turns|
    ensures TokensFrom(turns[n..], k - n) == TokensFrom(turns, k)
    decreases |turns| - k
  {
    if k < |turns| {
      TokensOfSuffix(turns, n, k + 1);
    }
  }

  /** Where the window starts in the list of turns. */
  function WindowStart(capped: seq<Turn>, b: HistoryBudget): (p: nat)
    requires b.Valid() && capped != []
    ensures p < |capped|
  {
    var f := FitsFrom(capped, b.budgetTokens);
    if f == |capped| then f - 1
    else
      var p := FirstAtLeast(capped, f, Boundary(capped[f].index, b.step));
      if p < |capped| then p else f
  }

  /** The first position from `from` on whose turn index is at least `start`, or the length. */
  function FirstAtLeast(turns: seq<Turn>, from: nat, start: int): (p: nat)
    requires from <= |turns|
    ensures from <= p <= |turns|
    ensures forall i :: from <= i < p ==> turns[i].index < start
    ensures p < |turns| ==> turns[p].index >= start
    decreases |turns| - from
  {
    if from == |turns| || turns[from].index >= start then from else FirstAtLeast(turns, from + 1, start)
  }

  lemma IncreaseInPrefix(turns: seq<Turn>, i: nat)
    requires i <= |turns| && IndicesIncrease(turns)
    ensures IndicesIncrease(turns[..i])
  {
    forall j: nat, k: nat | j < k < i ensures Earlier(turns[..i], j, k) {
      assert Earlier(turns, j, k);
    }
  }

  lemma IncreaseInCapped(turns: seq<Turn>, maxTokens: Option<int>)
    requires IndicesIncrease(turns)
    ensures IndicesIncrease(CapAnswers(turns, maxTokens))
  {
    forall j: nat, k: nat | j < k < |turns| ensures Earlier(CapAnswers(turns, maxTokens), j, k) {
      assert Earlier(turns, j, k);
    }
  }

  lemma {:induction false} AtLeastIsSuffix(turns: seq<Turn>, from: nat, start: int)
    requires from <= |turns| && IndicesIncrease(turns)
    ensures AtLeast(turns[from..], start) == turns[FirstAtLeast(turns, from, start)..]
    decreases |turns| - from
  {
    if from < |turns| {
      AtLeastIsSuffix(turns, from + 1, start);
      assert turns[from..][1..] == turns[from + 1..];
      if turns[from].index >= start {
        assert from + 1 < |turns| ==> Earlier(turns, from, from + 1);
        assert FirstAtLeast(turns, from + 1, start) == from + 1;
      }
    }
  }

  predicate LastFits(turns: seq<Turn>, b: HistoryBudget)
    requires b.Valid()
  {
    var capped := CapAnswers(turns, b.maxAnswerTokens);
    FitsFrom(capped, b.budgetTokens) < |capped|
  }

  /** What is kept is a contiguous suffix, or the last turn alone. */
  lemma WindowIsSuffix(turns: seq<Turn>, b: HistoryBudget)
    requires b.Valid() && turns != [] && IndicesIncrease(turns)
    ensures var capped := CapAnswers(turns, b.maxAnswerTokens);
            var kept := CapTurnsOf(turns, b);
      if LastFits(turns, b) then kept == capped[WindowStart(capped, b)..]
      else kept == [CutToRoom(capped[|turns| - 1], b.budgetTokens)] && WindowStart(capped, b) == |turns| - 1
  {
    var capped := CapAnswers(turns, b.maxAnswerTokens);
    if LastFits(turns, b) {
      var f := FitsFrom(capped, b.budgetTokens);
      IncreaseInCapped(turns, b.maxAnswerTokens);
      AtLeastIsSuffix(capped, f, Boundary(capped[f].index, b.step));
    }
  }

  /** When the last turn fits, what is kept is within the budget, and with step 1 it is the
      longest suffix that is. */
  lemma KeptWithinBudget(turns: seq<Turn>, b: HistoryBudget)
    requires b.Valid() && turns != [] && IndicesIncrease(turns) && LastFits(turns, b)
    ensures var capped, kept := CapAnswers(turns, b.maxAnswerTokens), CapTurnsOf(turns, b);
      && TokensFrom(kept, 0) <= b.budgetTokens
      && (b.step == 1 ==> |kept| == |turns| - FitsFrom(capped, b.budgetTokens))
  {
    var capped := CapAnswers(turns, b.maxAnswerTokens);
    WindowIsSuffix(turns, b);
    var p := WindowStart(capped, b);
    TokensOfSuffix(capped, p, p);
    FittingSuffixIsLongest(capped, b.budgetTokens, p);
  }

  /** When not even the last turn fits, it is kept alone and exceeds the larger of the budget and
      its question by at most the marker. */
  lemma LoneTurnNearBudget(turns: seq<Turn>, b: HistoryBudget)
    requires b.Valid() && turns != [] && !LastFits(turns, b)
    ensures var kept := CapTurnsOf(turns, b);
      && |kept| == 1
      && kept[0].question == turns[|turns| - 1].question
      && TurnTokens(kept[0]) <= Max(b.budgetTokens, ApproxTokens(kept[0].question)) + 4
  {
    var last := CapAnswer(turns[|turns| - 1], b.maxAnswerTokens);
    assert CapTurnsOf(turns, b) == [CutToRoom(last, b.budgetTokens)];
    if last.answer.Some? {
      TruncatedSize(last.answer.value, Max(b.budgetTokens - ApproxTokens(last.question), 0));
    }
  }

  /** A kept answer is at most the marker over its cap, unless it is the lone last answer with
      more room than the cap: that one is cut a second time and can be up to 7 over. */
  lemma KeptAnswersWithinCap(turns: seq<Turn>, b: HistoryBudget, t: Turn)
    requires b.Valid() && turns != [] && IndicesIncrease(turns)
    requires b.maxAnswerTokens.Some? && b.maxAnswerTokens.value >= 0
    requires t in CapTurnsOf(turns, b) && t.answer.Some?
    ensures ApproxTokens(t.answer.value) <= b.maxAnswerTokens.value +
      if LastFits(turns, b) || b.budgetTokens - ApproxTokens(t.question) <= b.maxAnswerTokens.value then 4 else 7
  {
    var cap := b.maxAnswerTokens.value;
    WindowIsSuffix(turns, b);
    var capped := CapAnswers(turns, b.maxAnswerTokens);
    if LastFits(turns, b) {
      var k :| 0 <= k < |capped| && capped[k] == t;
      TruncatedSize(turns[k].answer.value, cap);
    } else {
      CutAnswerBound(turns[|turns| - 1], cap, b.budgetTokens);
    }
  }

  lemma CutAnswerBound(last: Turn, cap: nat, budget: nat)
    requires last.answer.Some?
    ensures ApproxTokens(CutToRoom(CapAnswer(last, Some(cap)), budget).answer.value) <=
      cap + if budget - ApproxTokens(last.question) <= cap then 4 else 7
  {
    var once := TruncateTokens(last.answer.value, cap);
    TruncatedSize(last.answer.value, cap);
    TruncatedSize(once, Max(budget - ApproxTokens(last.question), 0));
  }

  /** Every kept answer is at most the marker over its cap. */
  ghost predicate AnswersWithinCap(b: HistoryBudget, cap: int)
    requires b.Valid()
  {
    forall turns, t :: IndicesIncrease(turns) && t in CapTurnsOf(turns, b) && t.answer.Some? ==>
      ApproxTokens(t.answer.value) <= cap + 4
  }

  /** Kept answers stay within the marker of their cap exactly when the cap is not negative and at least
      the whole budget: otherwise the lone last answer can be cut, marker included, a second time. */
  lemma AnswersWithinCapExactly(b: HistoryBudget, cap: int)
    requires b.Valid() && b.maxAnswerTokens == Some(cap)
    ensures AnswersWithinCap(b, cap) <==> 0 <= cap && b.budgetTokens <= cap
  {
    if 0 <= cap && b.budgetTokens <= cap {
      forall turns, t | IndicesIncrease(turns) && t in CapTurnsOf(turns, b) && t.answer.Some?
        ensures ApproxTokens(t.answer.value) <= cap + 4
      {
        KeptAnswersWithinCap(turns, b, t);
      }
    } else {
      var turn := if cap < 0 then Turn(0, "", Some(""), false, None) else TooLong(cap, b.budgetTokens);
      if cap < 0 {
        NegativeCap(cap, b);
      } else {
        TooLongIsCutTwice(cap, b);
      }
      assert IndicesIncrease([turn]);
      var t := CapTurnsOf([turn], b)[0];
      assert t in CapTurnsOf([turn], b);
    }
  }

  /** The same for a budget as it is configured. */
  lemma ConfiguredAnswersWithinCap(budgetTokens: int, maxAnswerTokens: int, step: int)
    requires HistoryBudget.FromConfig(budgetTokens, maxAnswerTokens, step).Some? && maxAnswerTokens != 0
    ensures AnswersWithinCap(HistoryBudget.FromConfig(budgetTokens, maxAnswerTokens, step).value, maxAnswerTokens)
       <==> budgetTokens <= maxAnswerTokens
  {
    AnswersWithinCapExactly(HistoryBudget(budgetTokens, Some(maxAnswerTokens), step), maxAnswerTokens);
  }

  function Times(c: char, n: nat): (s: string)
    ensures |s| == n && forall i :: 0 <= i < n ==> s[i] == c
  {
    if n == 0 then "" else Times(c, n - 1) + [c]
  }

  /** A turn that leaves its answer one token more than the cap. */
  function TooLong(cap: nat, budget: nat): Turn
    requires budget > cap
  {
    Turn(0, Times('q', 4 * (budget - cap - 1)), Some(Times('a', 4 * cap + 4)), false, None)
  }

  lemma TokensOf(text: string, n: nat)
    requires 4 * n - 3 <= |text| <= 4 * n
    ensures ApproxTokens(text) == n
  {
  }

  lemma CutOnce(cap: nat)
    ensures TruncateTokens(Times('a', 4 * cap + 4), cap) == Times('a', 4 * cap) + TRUNCATION_MARKER
  {
    var text := Times('a', 4 * cap + 4);
    TokensOf(text, cap + 1);
    assert SliceTo(text, cap * 4) == Times('a', 4 * cap);
  }

  lemma CutAgain(cap: nat)
    ensures var once := Times('a', 4 * cap) + TRUNCATION_MARKER;
      ApproxTokens(once) == cap + 4 && ApproxTokens(TruncateTokens(once, cap + 1)) == cap + 5
  {
    var once := Times('a', 4 * cap) + TRUNCATION_MARKER;
    TokensOf(once, cap + 4);
    var cut := SliceTo(once, (cap + 1) * 4);
    assert |cut| == 4 * cap + 4 && cut[|cut| - 1] == once[4 * cap + 3] == TRUNCATION_MARKER[3];
    assert RStrip(cut) == cut;
    TokensOf(cut + TRUNCATION_MARKER, cap + 5);
  }

  lemma LoneFromBoundary(t: Turn, start: int)
    ensures FromBoundary([t], start) == [t]
  {
    assert [t][1..] == [];
    assert AtLeast([t], start) == (if t.index >= start then [t] else []) + AtLeast([], start);
  }

  lemma LoneTurn(t: Turn, b: HistoryBudget)
    requires b.Valid()
    ensures var capped := CapAnswer(t, b.maxAnswerTokens);
      && (TurnTokens(capped) > b.budgetTokens ==> CapTurnsOf([t], b) == [CutToRoom(capped, b.budgetTokens)])
      && (TurnTokens(capped) <= b.budgetTokens ==> CapTurnsOf([t], b) == [capped])
  {
    var capped := CapAnswer(t, b.maxAnswerTokens);
    assert CapAnswers([t], b.maxAnswerTokens) == [capped];
    assert TokensFrom([capped], 0) == TurnTokens(capped) + TokensFrom([capped], 1) == TurnTokens(capped);
    FittingSuffixIsLongest([capped], b.budgetTokens, 0);
    if TurnTokens(capped) <= b.budgetTokens {
      assert [capped][0..] == [capped];
      LoneFromBoundary(capped, Boundary(capped.index, b.step));
    }
  }

  lemma TooLongCapped(cap: nat, budget: nat)
    requires budget > cap
    ensures var t, once := TooLong(cap, budget), Times('a', 4 * cap) + TRUNCATION_MARKER;
      && CapAnswer(t, Some(cap)) == t.(answer := Some(once))
      && ApproxTokens(t.question) == budget - cap - 1 && ApproxTokens(once) == cap + 4
  {
    CutOnce(cap);
    CutAgain(cap);
    TokensOf(TooLong(cap, budget).question, budget - cap - 1);
  }

  lemma TooLongIsCutTwice(cap: nat, b: HistoryBudget)
    requires b.Valid() && b.maxAnswerTokens == Some(cap) && b.budgetTokens > cap
    ensures var kept := CapTurnsOf([TooLong(cap, b.budgetTokens)], b);
      |kept| == 1 && kept[0].answer.Some? && ApproxTokens(kept[0].answer.value) == cap + 5
  {
    TooLongCapped(cap, b.budgetTokens);
    LoneTurn(TooLong(cap, b.budgetTokens), b);
    CutAgain(cap);
  }

  lemma NegativeCap(cap: int, b: HistoryBudget)
    requires b.Valid() && b.maxAnswerTokens == Some(cap) && cap < 0
    ensures var kept := CapTurnsOf([Turn(0, "", Some(""), false, None)], b);
      |kept| == 1 && kept[0].answer.Some? && ApproxTokens(kept[0].answer.value) >= 4
  {
    var t := Turn(0, "", Some(""), false, None);
    TokensOf("", 0);
    assert SliceTo("", cap * 4) == "" && RStrip("") == "" && "" + TRUNCATION_MARKER == TRUNCATION_MARKER;
    assert TruncateTokens("", cap) == TRUNCATION_MARKER;
    assert CapAnswer(t, Some(cap)).answer == Some(TRUNCATION_MARKER);
    TokensOf(TRUNCATION_MARKER, 4);
    LoneTurn(t, b);
  }

  lemma FirstCut()
    ensures TruncateTokens("aaaaaaaa", 1) == "aaaa" + TRUNCATION_MARKER
  {
    assert "aaaaaaaa"[..4] == "aaaa";
  }

  lemma SecondCut()
    ensures TruncateTokens("aaaa" + TRUNCATION_MARKER, 4) == "aaaa [\U{2026}truncated" + TRUNCATION_MARKER
    ensures ApproxTokens("aaaa" + TRUNCATION_MARKER) == 5
    ensures ApproxTokens("aaaa [\U{2026}truncated" + TRUNCATION_MARKER) == 8
  {
    var once := "aaaa" + TRUNCATION_MARKER;
    assert once[..16] == "aaaa [\U{2026}truncated";
  }

  lemma CutToFive(t: Turn)
    requires t.question == "q" && t.answer == Some("aaaa" + TRUNCATION_MARKER)
    ensures TurnTokens(t) == 6
    ensures CutToRoom(t, 5) == t.(answer := Some("aaaa [\U{2026}truncated" + TRUNCATION_MARKER))
  {
    SecondCut();
    TokensOf("q", 1);
  }

  /** The 7 of KeptAnswersWithinCap is reached: the first cut's marker is itself cut and marked again. */
  lemma AnswerCutTwice()
    ensures var b := HistoryBudget(5, Some(1), 1);
            var cut := "aaaa [\U{2026}truncated" + TRUNCATION_MARKER;
      && CapTurnsOf([Turn(0, "q", Some("aaaaaaaa"), false, None)], b) == [Turn(0, "q", Some(cut), false, None)]
      && ApproxTokens(cut) == 1 + 7
  {
    var t, b := Turn(0, "q", Some("aaaaaaaa"), false, None), HistoryBudget(5, Some(1), 1);
    LoneTurn(t, b);
    FirstCut();
    var capped := CapAnswer(t, b.maxAnswerTokens);
    assert capped == t.(answer := Some("aaaa" + TRUNCATION_MARKER));
    CutToFive(capped);
    SecondCut();
  }

  // ---------------------------------------------------------------------
  // Stability while the conversation grows
  // ---------------------------------------------------------------------

  lemma {:induction false} TokensGrow(turns: seq<Turn>, i: nat, k: nat)
    requires k <= i <= |turns|
    ensures TokensFrom(turns[..i], k) <= TokensFrom(turns, k)
    decreases i - k
  {
    if k < i {
      TokensGrow(turns, i, k + 1);
    }
  }

  lemma FitsMovesForward(turns: seq<Turn>, i: nat, budget: nat)
    requires i <= |turns|
    ensures FitsFrom(turns[..i], budget) <= FitsFrom(turns, budget)
  {
    var f := FitsFrom(turns[..i], budget);
    if 0 < f {
      TokensGrow(turns, i, f - 1);
      FittingSuffixIsLongest(turns, budget, f - 1);
    }
  }

  lemma BoundaryIsNext(index: int, step: int, m: int)
    requires step >= 1 && index <= m < Boundary(index, step)
    ensures Boundary(m, step) == Boundary(index, step)
  {
    var q, r := CeilDiv(index, step), CeilDiv(m, step);
    BoundaryBounds(index, step);
    BoundaryBounds(m, step);
    MulOrder(r, q - 1, step);
    MulOrder(q, r - 1, step);
  }

  lemma MulOrder(a: int, b: int, step: int)
    requires step >= 1
    ensures a <= b <==> a * step <= b * step
  {
    if a < b {
      assert (b - a) * step > 0;
    } else if a > b {
      assert (a - b) * step > 0;
    }
  }

  lemma BoundaryIsLeast(index: int, step: int, m: int)
    requires step >= 1 && index <= m * step
    ensures Boundary(index, step) <= m * step
  {
    var c := CeilDiv(index, step);
    BoundaryBounds(index, step);
    MulOrder(m, c - 1, step);
    MulOrder(c, m, step);
  }

  lemma BoundaryBounds(index: int, step: int)
    requires step >= 1
    ensures index <= Boundary(index, step) < index + step
    ensures Boundary(index, step) == CeilDiv(index, step) * step
    ensures (CeilDiv(index, step) - 1) * step == Boundary(index, step) - step
  {
    var q := (-index) / step;
    assert -index == q * step + (-index) % step;
    assert (-q) * step == -(q * step);
  }

  /** The start position never moves backwards when turns are appended. */
  lemma StartMovesForward(capped: seq<Turn>, i: nat, b: HistoryBudget)
    requires b.Valid() && 1 <= i < |capped| && IndicesIncrease(capped)
    ensures WindowStart(capped[..i], b) <= WindowStart(capped, b)
    ensures FitsFrom(capped[..i], b.budgetTokens) == i ==> WindowStart(capped[..i], b) < WindowStart(capped, b)
    ensures FitsFrom(capped, b.budgetTokens) == |capped| ==> WindowStart(capped[..i], b) < WindowStart(capped, b)
  {
    var before := capped[..i];
    var f, f' := FitsFrom(before, b.budgetTokens), FitsFrom(capped, b.budgetTokens);
    FitsMovesForward(capped, i, b.budgetTokens);
    if f < i && f' < |capped| {
      StartOfAlignedMovesForward(capped, i, f, f', b.step);
    }
  }

  lemma StartOfAlignedMovesForward(capped: seq<Turn>, i: nat, f: nat, f': nat, step: int)
    requires step >= 1 && f < i < |capped| && f <= f' < |capped| && IndicesIncrease(capped)
    ensures var p, p' := FirstAtLeast(capped[..i], f, Boundary(capped[f].index, step)),
                         FirstAtLeast(capped, f', Boundary(capped[f'].index, step));
      f' < p < i ==> p' == p
  {
    var start := Boundary(capped[f].index, step);
    var p := FirstAtLeast(capped[..i], f, start);
    if f' < p < i {
      assert f < f' ==> Earlier(capped, f, f');
      assert forall k :: f <= k < p ==> capped[..i][k] == capped[k] && capped[k].index < start;
      BoundaryIsNext(capped[f].index, step, capped[f'].index);
      assert capped[..i][p] == capped[p];
    }
  }

  lemma CappedPrefix(turns: seq<Turn>, i: nat, maxTokens: Option<int>)
    requires i <= |turns|
    ensures CapAnswers(turns[..i], maxTokens) == CapAnswers(turns, maxTokens)[..i]
    ensures CapAnswers(turns[i..], maxTokens) == CapAnswers(turns, maxTokens)[i..]
  {
  }

  lemma SplitSuffix<T>(s: seq<T>, p: nat, i: nat)
    requires p <= i <= |s|
    ensures s[p..] == s[..i][p..] + s[i..]
  {
  }

  lemma FirstKept(turns: seq<Turn>, b: HistoryBudget)
    requires b.Valid() && turns != [] && IndicesIncrease(turns)
    ensures CapTurnsOf(turns, b) != []
    ensures CapTurnsOf(turns, b)[0].index == turns[WindowStart(CapAnswers(turns, b.maxAnswerTokens), b)].index
  {
    WindowIsSuffix(turns, b);
  }

  /** As turns are appended, the first kept turn never moves back; while it stays the same, what
      is kept only grows at the end. */
  lemma WindowIsStable(turns: seq<Turn>, i: nat, b: HistoryBudget)
    requires b.Valid() && 1 <= i < |turns| && IndicesIncrease(turns)
    ensures var before, after := CapTurnsOf(turns[..i], b), CapTurnsOf(turns, b);
      && before != [] && after != []
      && before[0].index <= after[0].index
      && (before[0].index == after[0].index ==> after == before + CapAnswers(turns[i..], b.maxAnswerTokens))
  {
    var capped := CapAnswers(turns, b.maxAnswerTokens);
    CappedPrefix(turns, i, b.maxAnswerTokens);
    IncreaseInPrefix(turns, i);
    IncreaseInCapped(turns, b.maxAnswerTokens);
    FirstKept(turns[..i], b);
    FirstKept(turns, b);
    StartMovesForward(capped, i, b);
    var p, p' := WindowStart(capped[..i], b), WindowStart(capped, b);
    assert p < p' ==> Earlier(turns, p, p');
    if WindowStart(capped[..i], b) == WindowStart(capped, b) {
      SameStartGrows(turns, i, b);
    }
  }

  lemma SameStartGrows(turns: seq<Turn>, i: nat, b: HistoryBudget)
    requires b.Valid() && 1 <= i < |turns| && IndicesIncrease(turns)
    requires var capped := CapAnswers(turns, b.maxAnswerTokens);
      WindowStart(CapAnswers(turns[..i], b.maxAnswerTokens), b) == WindowStart(capped, b)
    ensures CapTurnsOf(turns, b) == CapTurnsOf(turns[..i], b) + CapAnswers(turns[i..], b.maxAnswerTokens)
  {
    var capped := CapAnswers(turns, b.maxAnswerTokens);
    CappedPrefix(turns, i, b.maxAnswerTokens);
    assert LastFits(turns[..i], b) && LastFits(turns, b) by {
      IncreaseInCapped(turns, b.maxAnswerTokens);
      StartMovesForward(capped, i, b);
    }
    IncreaseInPrefix(turns, i);
    WindowIsSuffix(turns[..i], b);
    WindowIsSuffix(turns, b);
    SplitSuffix(capped, WindowStart(capped, b), i);
  }

  /** The window starts at a step boundary rather than at the start of an unaligned fallback. */
  predicate Aligned(turns: seq<Turn>, b: HistoryBudget)
    requires b.Valid()
  {
    var capped := CapAnswers(turns, b.maxAnswerTokens);
    LastFits(turns, b) &&
    var f := FitsFrom(capped, b.budgetTokens);
    FirstAtLeast(capped, f, Boundary(capped[f].index, b.step)) < |capped|
  }

  lemma StartPassesBoundary(capped: seq<Turn>, p: nat, f: nat, p': nat, step: int)
    requires step >= 1 && IndicesIncrease(capped)
    requires f < |capped| && p < p' < |capped| && p' == FirstAtLeast(capped, f, Boundary(capped[f].index, step))
    ensures Boundary(capped[p].index + 1, step) <= capped[p'].index
  {
    BoundaryBounds(capped[f].index, step);
    assert p < f ==> Earlier(capped, p, f);
    BoundaryNotAfter(capped[p].index + 1, step, capped[f].index);
  }

  lemma BoundaryNotAfter(index: int, step: int, later: int)
    requires step >= 1 && index <= Boundary(later, step)
    ensures Boundary(index, step) <= Boundary(later, step)
  {
    BoundaryIsLeast(index, step, CeilDiv(later, step));
  }

  lemma FirstKeptOfPrefix(turns: seq<Turn>, i: nat, b: HistoryBudget)
    requires b.Valid() && 1 <= i <= |turns| && IndicesIncrease(turns)
    ensures var p := WindowStart(CapAnswers(turns[..i], b.maxAnswerTokens), b);
      p < i && CapTurnsOf(turns[..i], b) != [] && CapTurnsOf(turns[..i], b)[0].index == turns[p].index
  {
    IncreaseInPrefix(turns, i);
    FirstKept(turns[..i], b);
  }

  lemma StartsInOrder(turns: seq<Turn>, i: nat, b: HistoryBudget)
    requires b.Valid() && 1 <= i < |turns| && IndicesIncrease(turns)
    requires CapTurnsOf(turns[..i], b)[0].index < CapTurnsOf(turns, b)[0].index
    ensures var p := WindowStart(CapAnswers(turns[..i], b.maxAnswerTokens), b);
            var p' := WindowStart(CapAnswers(turns, b.maxAnswerTokens), b);
      && p < p' < |turns|
      && CapTurnsOf(turns[..i], b)[0].index == turns[p].index && CapTurnsOf(turns, b)[0].index == turns[p'].index
  {
    FirstKeptOfPrefix(turns, i, b);
    FirstKept(turns, b);
    var p, p' := WindowStart(CapAnswers(turns[..i], b.maxAnswerTokens), b), WindowStart(CapAnswers(turns, b.maxAnswerTokens), b);
    assert p' < p ==> Earlier(turns, p', p);
  }

  /** A move to an aligned window reaches or passes the next multiple of the step. */
  lemma MoveSkipsBoundary(turns: seq<Turn>, i: nat, b: HistoryBudget)
    requires b.Valid() && 1 <= i < |turns| && IndicesIncrease(turns)
    requires Aligned(turns, b)
    requires CapTurnsOf(turns[..i], b)[0].index < CapTurnsOf(turns, b)[0].index
    ensures Boundary(CapTurnsOf(turns[..i], b)[0].index + 1, b.step) <= CapTurnsOf(turns, b)[0].index
  {
    var capped := CapAnswers(turns, b.maxAnswerTokens);
    var p, p' := WindowStart(CapAnswers(turns[..i], b.maxAnswerTokens), b), WindowStart(capped, b);
    StartsInOrder(turns, i, b);
    IncreaseInCapped(turns, b.maxAnswerTokens);
    StartPassesBoundary(capped, p, FitsFrom(capped, b.budgetTokens), p', b.step);
    assert capped[p].index == turns[p].index && capped[p'].index == turns[p'].index;
  }

  /** When no turn is missing, an aligned window starts exactly at a multiple of the step, so two
      aligned windows differ by whole steps. */
  lemma AlignedStartIsMultiple(turns: seq<Turn>, b: HistoryBudget)
    requires b.Valid() && turns != [] && Aligned(turns, b)
    requires forall i :: 0 <= i < |turns| ==> turns[i].index == i
    ensures CapTurnsOf(turns, b)[0].index % b.step == 0
  {
    var capped := CapAnswers(turns, b.maxAnswerTokens);
    FirstKept(turns, b);
    var f := FitsFrom(capped, b.budgetTokens);
    BoundaryBounds(f, b.step);
    var p := FirstAtLeast(capped, f, Boundary(f, b.step));
    assert p == Boundary(f, b.step) by {
      assert p > f ==> capped[p - 1].index == p - 1;
    }
    MultipleMod(CeilDiv(f, b.step), b.step);
  }

  /** From f on, no turn before the first whose index is a multiple of the step has reached the boundary. */
  ghost predicate ReachesMultiple(turns: seq<Turn>, f: nat, step: int)
    requires step >= 1 && f < |turns|
  {
    exists i: nat :: f <= i < |turns| && turns[i].index % step == 0 &&
      forall j :: f <= j < i ==> turns[j].index < Boundary(turns[f].index, step)
  }

  lemma FirstOnMultiple(turns: seq<Turn>, f: nat, step: int)
    requires step >= 1 && f < |turns| && IndicesIncrease(turns)
    ensures var p := FirstAtLeast(turns, f, Boundary(turns[f].index, step));
      ReachesMultiple(turns, f, step) <==> p < |turns| && turns[p].index % step == 0
  {
    var start := Boundary(turns[f].index, step);
    var p := FirstAtLeast(turns, f, start);
    if ReachesMultiple(turns, f, step) {
      var i: nat :| f <= i < |turns| && turns[i].index % step == 0 && forall j :: f <= j < i ==> turns[j].index < start;
      assert f < i ==> Earlier(turns, f, i);
      MultipleReachesBoundary(turns[f].index, step, turns[i].index);
      assert p == i;
    }
  }

  lemma MultipleOf(m: int, step: int)
    requires step >= 1 && m % step == 0
    ensures m == m / step * step
  {
  }

  lemma MultipleReachesBoundary(index: int, step: int, m: int)
    requires step >= 1 && index <= m && m % step == 0
    ensures Boundary(index, step) <= m
  {
    MultipleOf(m, step);
    BoundaryIsLeast(index, step, m / step);
  }

  lemma MultipleIsBoundary(m: int, step: int)
    requires step >= 1 && m % step == 0
    ensures Boundary(m, step) == m
  {
    MultipleOf(m, step);
    BoundaryIsUnique(m, step, m / step);
  }

  lemma StartOnMultiple(capped: seq<Turn>, b: HistoryBudget)
    requires b.Valid() && capped != [] && IndicesIncrease(capped)
    ensures var f := FitsFrom(capped, b.budgetTokens);
      capped[WindowStart(capped, b)].index % b.step == 0 <==>
        if f == |capped| then capped[f - 1].index % b.step == 0 else ReachesMultiple(capped, f, b.step)
  {
    var f := FitsFrom(capped, b.budgetTokens);
    if f < |capped| {
      FirstOnMultiple(capped, f, b.step);
      if capped[f].index % b.step == 0 {
        MultipleIsBoundary(capped[f].index, b.step);
      }
    }
  }

  lemma SameIndicesReach(turns: seq<Turn>, capped: seq<Turn>, f: nat, step: int)
    requires step >= 1 && f < |turns| == |capped| && forall i :: 0 <= i < |turns| ==> turns[i].index == capped[i].index
    ensures ReachesMultiple(turns, f, step) <==> ReachesMultiple(capped, f, step)
  {
    if ReachesMultiple(turns, f, step) {
      var i: nat :| f <= i < |turns| && turns[i].index % step == 0 &&
        forall j :: f <= j < i ==> turns[j].index < Boundary(turns[f].index, step);
      assert capped[i].index % step == 0;
    }
    if ReachesMultiple(capped, f, step) {
      var i: nat :| f <= i < |capped| && capped[i].index % step == 0 &&
        forall j :: f <= j < i ==> capped[j].index < Boundary(capped[f].index, step);
      assert turns[i].index % step == 0;
    }
  }

  /** The window starts at a multiple of the step exactly when, of the turns that fit, the first to reach
      the boundary is itself on a multiple; or, when none fits, the last turn is. Indices may have gaps. */
  lemma StartIsMultipleExactly(turns: seq<Turn>, b: HistoryBudget)
    requires b.Valid() && turns != [] && IndicesIncrease(turns)
    ensures var f := FitsFrom(CapAnswers(turns, b.maxAnswerTokens), b.budgetTokens);
      CapTurnsOf(turns, b)[0].index % b.step == 0 <==>
        if f == |turns| then turns[f - 1].index % b.step == 0 else ReachesMultiple(turns, f, b.step)
  {
    var capped := CapAnswers(turns, b.maxAnswerTokens);
    var f := FitsFrom(capped, b.budgetTokens);
    FirstKept(turns, b);
    IncreaseInCapped(turns, b.maxAnswerTokens);
    StartOnMultiple(capped, b);
    assert forall i :: 0 <= i < |turns| ==> turns[i].index == capped[i].index;
    if f < |turns| {
      SameIndicesReach(turns, capped, f, b.step);
    }
  }

  lemma TokensOfLast(turns: seq<Turn>, k: nat)
    requires k < |turns|
    ensures TokensFrom(turns, k) == TurnTokens(turns[k]) + TokensFrom(turns, k + 1)
  {
  }

  /** Turn 2 is missing, since its question was blocked. Boundary 2 lies in the part that fits, but the
      first turn past it is turn 3. */
  lemma StartPastBlocked()
    ensures var turns := [Turn(0, "a", None, false, None), Turn(1, "b", None, false, None), Turn(3, "d", None, false, None)];
            var b := HistoryBudget(2, None, 2);
      Aligned(turns, b) && CapTurnsOf(turns, b) == turns[2..]
  {
    var turns := [Turn(0, "a", None, false, None), Turn(1, "b", None, false, None), Turn(3, "d", None, false, None)];
    assert CapAnswers(turns, None) == turns;
    TokensOfLast(turns, 2);
    TokensOfLast(turns, 1);
    TokensOfLast(turns, 0);
    FittingSuffixIsLongest(turns, 2, 0);
    FittingSuffixIsLongest(turns, 2, 1);
    BoundaryIsUnique(1, 2, 1);
    AtLeastIsSuffix(turns, 1, 2);
    assert FirstAtLeast(turns, 1, 2) == FirstAtLeast(turns, 2, 2) == 2;
  }

  /** When no turn is missing, the window starts at a multiple of the step exactly when it is aligned,
      or is the last turn alone at such an index. */
  lemma GaplessStartIsMultiple(turns: seq<Turn>, b: HistoryBudget)
    requires b.Valid() && turns != []
    requires forall i :: 0 <= i < |turns| ==> turns[i].index == i
    ensures CapTurnsOf(turns, b)[0].index % b.step == 0 <==>
      Aligned(turns, b) || (!LastFits(turns, b) && (|turns| - 1) % b.step == 0)
  {
    var capped := CapAnswers(turns, b.maxAnswerTokens);
    FirstKept(turns, b);
    if Aligned(turns, b) {
      AlignedStartIsMultiple(turns, b);
    } else if LastFits(turns, b) {
      UnalignedIsNoMultiple(turns, b);
    }
  }

  lemma UnalignedIsNoMultiple(turns: seq<Turn>, b: HistoryBudget)
    requires b.Valid() && turns != [] && LastFits(turns, b) && !Aligned(turns, b)
    requires forall i :: 0 <= i < |turns| ==> turns[i].index == i
    ensures WindowStart(CapAnswers(turns, b.maxAnswerTokens), b) % b.step != 0
  {
    var capped := CapAnswers(turns, b.maxAnswerTokens);
    var f := FitsFrom(capped, b.budgetTokens);
    assert capped[f].index == f;
    if f % b.step == 0 {
      MultipleIsBoundary(f, b.step);
    }
  }

  /** Two turns of one token each, of which only the second fits: the window starts at index 1, which is
      no multiple of 4. */
  lemma StartOffBoundary()
    ensures var turns := [Turn(0, "a", None, false, None), Turn(1, "b", None, false, None)];
      CapTurnsOf(turns, HistoryBudget(1, None, 4)) == turns[1..]
  {
    var turns, b := [Turn(0, "a", None, false, None), Turn(1, "b", None, false, None)], HistoryBudget(1, None, 4);
    assert CapAnswers(turns, None) == turns;
    assert TokensFrom(turns, 1) == TurnTokens(turns[1]) + TokensFrom(turns, 2) == 1;
    assert TokensFrom(turns, 0) == TurnTokens(turns[0]) + TokensFrom(turns, 1) == 2;
    FittingSuffixIsLongest(turns, 1, 0);
    FittingSuffixIsLongest(turns, 1, 1);
    BoundaryIsUnique(1, 4, 1);
    assert AtLeast(turns[1..], 4) == [] by { assert turns[1..][1..] == []; }
  }

  lemma MultipleMod(q: int, step: int)
    requires step >= 1
    ensures q * step % step == 0
  {
    var r, d := q * step % step, q * step / step;
    assert (q - d) * step == r;
    MulOrder(1, q - d, step);
    MulOrder(q - d, -1, step);
  }

  // Renumbering. Turn indices count from the start of the loaded tail, so trimming the tail
  // shifts them all.

  lemma {:induction false} ShiftKeepsTokens(capped: seq<Turn>, shift: int, k: nat)
    requires k <= |capped|
    ensures TokensFrom(Shifted(capped, shift), k) == TokensFrom(capped, k)
    decreases |capped| - k
  {
    if k < |capped| {
      ShiftKeepsTokens(capped, shift, k + 1);
    }
  }

  lemma {:induction false} ShiftKeepsAtLeast(turns: seq<Turn>, shift: int, start: int)
    ensures AtLeast(Shifted(turns, shift), start + shift) == Shifted(AtLeast(turns, start), shift)
  {
    if turns != [] {
      ShiftKeepsAtLeast(turns[1..], shift, start);
      assert Shifted(turns, shift)[1..] == Shifted(turns[1..], shift);
    }
  }

  lemma ShiftKeepsBoundary(index: int, q: int, step: int)
    requires step >= 1
    ensures Boundary(index + q * step, step) == Boundary(index, step) + q * step
  {
    var r, r' := CeilDiv(index, step), CeilDiv(index + q * step, step);
    BoundaryBounds(index, step);
    BoundaryBounds(index + q * step, step);
    assert (r' - q) * step == r' * step - q * step;
    MulOrder(r' - q, r - 1, step);
    MulOrder(r, r' - q - 1, step);
    assert (r' - q - 1) * step == (r' - q) * step - step;
  }

  lemma ShiftKeepsFromBoundary(turns: seq<Turn>, shift: int, start: int)
    ensures FromBoundary(Shifted(turns, shift), start + shift) == Shifted(FromBoundary(turns, start), shift)
  {
    ShiftKeepsAtLeast(turns, shift, start);
  }

  lemma LoneOfShifted(last: Turn, shift: int, budget: int)
    ensures CutToRoom(last.(index := last.index + shift), budget)
         == CutToRoom(last, budget).(index := CutToRoom(last, budget).index + shift)
  {
  }

  lemma ShiftedSuffix(turns: seq<Turn>, shift: int, n: nat)
    requires n <= |turns|
    ensures Shifted(turns, shift)[n..] == Shifted(turns[n..], shift)
    ensures n < |turns| ==> Shifted(turns, shift)[n] == turns[n].(index := turns[n].index + shift)
  {
  }

  lemma WindowAtOfShifted(capped: seq<Turn>, f: nat, shift: int, b: HistoryBudget)
    requires b.Valid() && f <= |capped|
    requires f < |capped| ==> Boundary(capped[f].index + shift, b.step) == Boundary(capped[f].index, b.step) + shift
    ensures WindowAt(Shifted(capped, shift), f, b) == Shifted(WindowAt(capped, f, b), shift)
  {
    if f < |capped| {
      ShiftedSuffix(capped, shift, f);
      ShiftKeepsFromBoundary(capped[f..], shift, Boundary(capped[f].index, b.step));
    } else if capped != [] {
      ShiftedSuffix(capped, shift, f - 1);
      LoneOfShifted(capped[f - 1], shift, b.budgetTokens);
    }
  }

  lemma FitsOfShifted(capped: seq<Turn>, shift: int, budget: nat)
    ensures FitsFrom(Shifted(capped, shift), budget) == FitsFrom(capped, budget)
  {
    var f, f' := FitsFrom(capped, budget), FitsFrom(Shifted(capped, shift), budget);
    ShiftKeepsTokens(capped, shift, f');
    ShiftKeepsTokens(capped, shift, f);
    FittingSuffixIsLongest(capped, budget, f');
    FittingSuffixIsLongest(Shifted(capped, shift), budget, f);
  }

  /** What is loaded once the tail is full and another turn has been asked and answered: the oldest turn
      is gone and the others are counted anew from the start. */
  function Trimmed(turns: seq<Turn>, t: Turn): seq<Turn>
    requires turns != []
  {
    Shifted(turns[1..], -1) + [t.(index := |turns| - 1)]
  }

  predicate IsUnblockedPair(q: ChatMessage, a: ChatMessage, scan: bool, detect: Detector) {
    q.role == User && a.role == Assistant && !Blocked(Pair(q, Some(a)), scan, detect)
  }

  lemma TurnOfPair(q: ChatMessage, a: ChatMessage, index: int, scan: bool, detect: Detector)
    requires IsUnblockedPair(q, a, scan, detect)
    ensures Pairs([q, a]) == [Pair(q, Some(a))]
    ensures TurnsOf([Pair(q, Some(a))], index, scan, detect) == [TurnOf(index, Pair(q, Some(a)), scan, detect)]
  {
    PairsOfTwo(q, a);
    OneTurn(Pair(q, Some(a)), index, scan, detect);
  }

  lemma PairsOfTwo(q: ChatMessage, a: ChatMessage)
    requires q.role == User && a.role == Assistant
    ensures Pairs([q, a]) == [Pair(q, Some(a))]
  {
    PairsAreQuestionsWithAnswers([q, a]);
    assert [q, a][1..] == [a] && [a][1..] == [];
    assert FirstAnswer([a]) == Some(a) && QuestionsWithAnswers([a]) == [];
  }

  lemma OneTurn(p: Pair, index: int, scan: bool, detect: Detector)
    requires !Blocked(p, scan, detect)
    ensures TurnsOf([p], index, scan, detect) == [TurnOf(index, p, scan, detect)]
  {
    assert [p][..0] == [];
    assert TurnsOf([p][..0], index, scan, detect) == [];
  }

  lemma ShiftedBack(turns: seq<Turn>, shift: int)
    ensures Shifted(Shifted(turns, shift), -shift) == turns
  {
  }

  lemma TurnsAfterFirst(q: ChatMessage, a: ChatMessage, rest: seq<ChatMessage>, scan: bool, detect: Detector)
    requires IsUnblockedPair(q, a, scan, detect) && WithoutCurrent(rest) == rest
    ensures var turns := PriorTurnsOf([q, a] + rest, scan, detect);
      turns != [] && Shifted(turns[1..], -1) == TurnsOf(Pairs(rest), 0, scan, detect)
  {
    assert WithoutCurrent([q, a] + rest) == [q, a] + rest;
    TurnOfPair(q, a, 0, scan, detect);
    PairsOfCut([q, a], rest);
    TurnsOfConcat([Pair(q, Some(a))], Pairs(rest), 0, scan, detect);
    TurnsOfShift(Pairs(rest), 0, 1, scan, detect);
    ShiftedBack(TurnsOf(Pairs(rest), 0, scan, detect), 1);
  }

  lemma TurnsWithLast(q: ChatMessage, a: ChatMessage, rest: seq<ChatMessage>, scan: bool, detect: Detector)
    requires IsUnblockedPair(q, a, scan, detect)
    ensures PriorTurnsOf(rest + [q, a], scan, detect)
         == TurnsOf(Pairs(rest), 0, scan, detect) + [TurnOf(|Pairs(rest)|, Pair(q, Some(a)), scan, detect)]
  {
    assert WithoutCurrent(rest + [q, a]) == rest + [q, a];
    PairsOfCut(rest, [q, a]);
    assert AnsweredWith(Pairs(rest), None) == Pairs(rest);
    TurnOfPair(q, a, |Pairs(rest)|, scan, detect);
    TurnsOfConcat(Pairs(rest), [Pair(q, Some(a))], 0, scan, detect);
  }

  /** So it is: a full tail that loses its oldest question and answer as a new pair comes in. */
  lemma FullTailIsTrimmed(q: ChatMessage, a: ChatMessage, rest: seq<ChatMessage>, q': ChatMessage, a': ChatMessage,
                          scan: bool, detect: Detector)
    requires IsUnblockedPair(q, a, scan, detect) && IsUnblockedPair(q', a', scan, detect)
    requires WithoutCurrent(rest) == rest
    requires |TurnsOf(Pairs(rest), 0, scan, detect)| == |Pairs(rest)|
    ensures var turns := PriorTurnsOf([q, a] + rest, scan, detect);
      && turns != []
      && PriorTurnsOf(rest + [q', a'], scan, detect) == Trimmed(turns, TurnOf(0, Pair(q', Some(a')), scan, detect))
  {
    TurnsAfterFirst(q, a, rest, scan, detect);
    TurnsWithLast(q', a', rest, scan, detect);
  }

  lemma NextToMultiple(m: int, step: int)
    requires step > 1 && m % step == 0
    ensures (m + 1) % step != 0
  {
    MultipleOf(m, step);
    if (m + 1) % step == 0 {
      MultipleOf(m + 1, step);
      MultiplesApart(m / step, (m + 1) / step, step);
    }
  }

  lemma MultiplesApart(q: int, r: int, step: int)
    requires step > 1
    ensures r * step != q * step + 1
  {
    MulOrder(r, q, step);
    MulOrder(q + 1, r, step);
    assert (q + 1) * step == q * step + step;
  }

  /** Once the tail is full, aligned windows move with every turn: the first turn kept before is never the
      first kept after. */
  lemma TrimmedWindowMoves(turns: seq<Turn>, t: Turn, b: HistoryBudget)
    requires b.Valid() && b.step > 1 && turns != []
    requires forall i :: 0 <= i < |turns| ==> turns[i].index == i
    requires Aligned(turns, b) && Aligned(Trimmed(turns, t), b)
    ensures CapTurnsOf(Trimmed(turns, t), b)[0].index + 1 != CapTurnsOf(turns, b)[0].index
  {
    AlignedStartIsMultiple(turns, b);
    AlignedStartIsMultiple(Trimmed(turns, t), b);
    NextToMultiple(CapTurnsOf(Trimmed(turns, t), b)[0].index, b.step);
  }

  lemma AllKept(turns: seq<Turn>, b: HistoryBudget)
    requires b.Valid() && turns != [] && b.maxAnswerTokens.None? && IndicesIncrease(turns)
    requires turns[0].index == 0 && TokensFrom(turns, 0) <= b.budgetTokens
    ensures CapTurnsOf(turns, b) == turns && Aligned(turns, b)
  {
    assert CapAnswers(turns, None) == turns;
    FittingSuffixIsLongest(turns, b.budgetTokens, 0);
    BoundaryIsUnique(0, b.step, 0);
    assert 0 * b.step == 0;
    AtLeastIsSuffix(turns, 0, 0);
    assert turns[0..] == turns;
  }

  /** Two turns of one token each, with room for three and a step of 4. A third one leaves the start where
      it was, but once the tail has room for two only, the window moves. */
  lemma TrimmedMoves()
    ensures var a, b, c := Turn(0, "a", None, false, None), Turn(1, "b", None, false, None), Turn(2, "c", None, false, None);
            var budget := HistoryBudget(3, None, 4);
      && CapTurnsOf([a, b], budget) == [a, b] && CapTurnsOf([a, b, c], budget) == [a, b, c]
      && CapTurnsOf(Trimmed([a, b], c), budget) == [b.(index := 0), c.(index := 1)]
      && Aligned([a, b], budget) && Aligned(Trimmed([a, b], c), budget)
  {
    var a, b, c := Turn(0, "a", None, false, None), Turn(1, "b", None, false, None), Turn(2, "c", None, false, None);
    var budget := HistoryBudget(3, None, 4);
    OneTokenEach([a, b], 0);
    OneTokenEach([a, b, c], 0);
    AllKept([a, b], budget);
    AllKept([a, b, c], budget);
    assert [a, b][1..] == [b] && Shifted([b], -1) == [b.(index := 0)];
    assert Trimmed([a, b], c) == [b.(index := 0), c.(index := 1)];
    OneTokenEach(Trimmed([a, b], c), 0);
    AllKept(Trimmed([a, b], c), budget);
  }

  lemma {:induction false} OneTokenEach(turns: seq<Turn>, k: nat)
    requires k <= |turns| && forall i :: 0 <= i < |turns| ==> |turns[i].question| == 1 && turns[i].answer.None?
    ensures TokensFrom(turns, k) == |turns| - k
    decreases |turns| - k
  {
    if k < |turns| {
      OneTokenEach(turns, k + 1);
    }
  }

  ghost predicate WindowIgnoresShift(shift: int, b: HistoryBudget)
    requires b.Valid()
  {
    forall turns :: IndicesIncrease(turns) ==> CapTurnsOf(Shifted(turns, shift), b) == Shifted(CapTurnsOf(turns, b), shift)
  }

  /** Renumbering leaves every window alone exactly when it is by whole steps. So once the tail is
      full and loses one turn per turn, a step above 1 no longer keeps the prompt prefix. */
  lemma WindowIgnoresWholeSteps(shift: int, b: HistoryBudget)
    requires b.Valid()
    ensures WindowIgnoresShift(shift, b) <==> shift % b.step == 0
  {
    if shift % b.step == 0 {
      assert shift == (shift / b.step) * b.step;
      forall turns | IndicesIncrease(turns)
        ensures CapTurnsOf(Shifted(turns, shift), b) == Shifted(CapTurnsOf(turns, b), shift)
      {
        var capped := CapAnswers(turns, b.maxAnswerTokens);
        assert CapAnswers(Shifted(turns, shift), b.maxAnswerTokens) == Shifted(capped, shift);
        var f := FitsFrom(capped, b.budgetTokens);
        if f < |capped| {
          ShiftKeepsBoundary(capped[f].index, shift / b.step, b.step);
        }
        FitsOfShifted(capped, shift, b.budgetTokens);
        WindowAtOfShifted(capped, f, shift, b);
      }
    } else {
      ShiftMovesWindow(shift, b);
    }
  }

  lemma ShiftMovesWindow(shift: int, b: HistoryBudget)
    requires b.Valid() && shift % b.step != 0
    ensures !WindowIgnoresShift(shift, b)
  {
    var gap := b.step - shift % b.step;
    var turns := EmptyTurns(0, gap);
    BoundaryIsUnique(0, b.step, 0);
    TwoEmptyTurns(0, gap, b);
    ShiftedBoundary(shift, b.step);
    TwoEmptyTurns(shift, gap, b);
    assert Shifted(turns, shift) == EmptyTurns(shift, gap);
    LengthsMoved(turns, shift, b);
  }

  lemma ShiftedBoundary(shift: int, step: int)
    requires step >= 1 && shift % step != 0
    ensures Boundary(shift, step) == shift + step - shift % step > shift
  {
    BoundaryIsUnique(shift, step, shift / step + 1);
    assert (shift / step + 1) * step == shift / step * step + step;
  }

  lemma LengthsMoved(turns: seq<Turn>, shift: int, b: HistoryBudget)
    requires b.Valid() && IndicesIncrease(turns)
    requires |CapTurnsOf(Shifted(turns, shift), b)| != |CapTurnsOf(turns, b)|
    ensures !WindowIgnoresShift(shift, b)
  {
  }

  lemma BoundaryIsUnique(index: int, step: int, m: int)
    requires step >= 1 && index <= m * step < index + step
    ensures Boundary(index, step) == m * step
  {
    var c := CeilDiv(index, step);
    BoundaryBounds(index, step);
    MulOrder(c, m - 1, step);
    MulOrder(m, c - 1, step);
    assert (m - 1) * step == m * step - step;
  }

  /** Two turns with nothing in them, `gap` apart. */
  function EmptyTurns(index: int, gap: nat): (turns: seq<Turn>)
    ensures gap > 0 ==> IndicesIncrease(turns)
  {
    [Turn(index, "", None, false, None), Turn(index + gap, "", None, false, None)]
  }

  lemma TwoEmptyTurns(index: int, gap: nat, b: HistoryBudget)
    requires b.Valid() && gap > 0 && Boundary(index, b.step) <= index + gap
    ensures |CapTurnsOf(EmptyTurns(index, gap), b)| == if index >= Boundary(index, b.step) then 2 else 1
  {
    var turns := EmptyTurns(index, gap);
    assert CapAnswers(turns, b.maxAnswerTokens) == turns;
    assert TokensFrom(turns, 1) == TurnTokens(turns[1]) + TokensFrom(turns, 2) == 0;
    assert TokensFrom(turns, 0) == 0;
    FittingSuffixIsLongest(turns, b.budgetTokens, 0);
    assert turns[0..] == turns;
    assert AtLeast(turns[1..], Boundary(index, b.step)) == turns[1..] by { assert turns[1..][1..] == []; }
  }

  // ---------------------------------------------------------------------
  // Messages
  // ---------------------------------------------------------------------

  datatype Sent = Sent(role: Role, content: string)

  function MessagesOf(turns: seq<Turn>): seq<Sent> {
    if turns == [] then []
    else
      var t := turns[|turns| - 1];
      MessagesOf(turns[..|turns| - 1]) + [Sent(User, t.question)]
      + if t.answer.Some? then [Sent(Assistant, t.answer.value)] else []
  }

  method AsMessages(turns: seq<Turn>) returns (out: seq<Sent>)
    ensures out == MessagesOf(turns)
  {
    out := [];
    for i := 0 to |turns|
      invariant out == MessagesOf(turns[..i])
    {
      assert turns[..i + 1][..i] == turns[..i];
      out := out + [Sent(User, turns[i].question)];
      if turns[i].answer.Some? {
        out := out + [Sent(Assistant, turns[i].answer.value)];
      }
    }
    assert turns[..|turns|] == turns;
  }

  function Answered(turns: seq<Turn>): nat {
    if turns == [] then 0
    else Answered(turns[..|turns| - 1]) + if turns[|turns| - 1].answer.Some? then 1 else 0
  }

  /** Every turn is the user's message and, right after it, the assistant's if there is an answer; nothing else is sent. */
  lemma {:induction false} MessagesOfTurn(turns: seq<Turn>, i: nat)
    requires i < |turns|
    ensures var at, sent := i + Answered(turns[..i]), MessagesOf(turns);
            var needs := if turns[i].answer.Some? then 2 else 1;
      && at + needs <= |sent| == |turns| + Answered(turns)
      && sent[at] == Sent(User, turns[i].question)
      && (turns[i].answer.Some? ==> sent[at + 1] == Sent(Assistant, turns[i].answer.value))
  {
    MessagesInAll(turns);
    var n := |turns| - 1;
    var front := turns[..n];
    MessagesInAll(front);
    if i < n {
      MessagesOfTurn(front, i);
      assert front[..i] == turns[..i];
    }
  }

  lemma {:induction false} MessagesInAll(turns: seq<Turn>)
    ensures |MessagesOf(turns)| == |turns| + Answered(turns)
  {
    if turns != [] {
      MessagesInAll(turns[..|turns| - 1]);
    }
  }

  lemma {:induction false} MessagesConcat(a: seq<Turn>, b: seq<Turn>)
    ensures MessagesOf(a + b) == MessagesOf(a) + MessagesOf(b)
  {
    if b == [] {
      assert a + b == a;
    } else {
      assert (a + b)[..|a + b| - 1] == a + b[..|b| - 1];
      MessagesConcat(a, b[..|b| - 1]);
    }
  }

  /** While the first kept turn stays the same, the prompt sent earlier is a prefix of the next. */
  lemma PromptPrefixIsStable(turns: seq<Turn>, i: nat, b: HistoryBudget)
    requires b.Valid() && 1 <= i < |turns| && IndicesIncrease(turns)
    requires CapTurnsOf(turns[..i], b)[0].index == CapTurnsOf(turns, b)[0].index
    ensures MessagesOf(CapTurnsOf(turns[..i], b)) <= MessagesOf(CapTurnsOf(turns, b))
  {
    WindowIsStable(turns, i, b);
    MessagesConcat(CapTurnsOf(turns[..i], b), CapAnswers(turns[i..], b.maxAnswerTokens));
  }
}

/** The findings block carried from answer to answer (src/services/chat/tasks.py). */
module CarryOver {
  import opened PyText
  import opened Turns

  datatype Outcome = Carried | NoBlock | DroppedHopCap | DroppedScope

  datatype CarriedFindings = CarriedFindings(
    block: Option<string>, hops: int, docIds: Option<seq<string>>, outcome: Outcome)

  /** The message bears a findings block; an empty block counts as none. */
  predicate Bears(m: ChatMessage) {
    m.role == Assistant && m.findingsBlock.Some? && m.findingsBlock.value != ""
  }

  /** None means all documents, so it equals only itself. */
  predicate ScopeMoved(before: Option<seq<string>>, now: Option<seq<string>>) {
    if before.None? || now.None? then !(before.None? && now.None?)
    else (set d <- before.value) != (set d <- now.value)
  }

  /** What the latest bearing message gives the next turn. */
  function Inherited(m: ChatMessage, current: Option<seq<string>>, checkScope: bool, maxHops: int): CarriedFindings {
    if m.hops + 1 > maxHops then CarriedFindings(None, 0, None, DroppedHopCap)
    else if checkScope && ScopeMoved(m.docIds, current) then CarriedFindings(None, 0, None, DroppedScope)
    else CarriedFindings(m.findingsBlock, m.hops + 1, m.docIds, Carried)
  }

  /** The position of the latest bearing message before `n`, or -1. */
  function LatestBearer(messages: seq<ChatMessage>, n: nat): (i: int)
    requires n <= |messages|
    ensures -1 <= i < n
    ensures i >= 0 ==> Bears(messages[i])
    ensures forall k :: i < k < n ==> !Bears(messages[k])
  {
    if n == 0 then -1 else if Bears(messages[n - 1]) then n - 1 else LatestBearer(messages, n - 1)
  }

  /** Message i is the last from the assistant with a block that is not empty. */
  predicate IsLatest(messages: seq<ChatMessage>, i: nat)
    requires i < |messages|
  {
    && messages[i].role == Assistant && messages[i].findingsBlock.Some? && messages[i].findingsBlock.value != ""
    && forall j :: i < j < |messages| ==>
         messages[j].role != Assistant || messages[j].findingsBlock.None? || messages[j].findingsBlock.value == ""
  }

  /** The same documents, or all documents both times. */
  ghost predicate SameScope(a: Option<seq<string>>, b: Option<seq<string>>) {
    (a.None? && b.None?) || (a.Some? && b.Some? && forall d :: d in a.value <==> d in b.value)
  }

  /** Why a block is carried or not: `m` bears it. Without a check the scope plays no part. */
  ghost predicate CarriedRight(
      carried: CarriedFindings, m: ChatMessage, current: Option<seq<string>>, checkScope: bool, maxHops: int)
  {
    && (carried.outcome == DroppedHopCap <==> m.hops + 1 > maxHops)
    && (carried.outcome == DroppedScope <==> m.hops + 1 <= maxHops && checkScope && !SameScope(m.docIds, current))
    && carried.outcome != NoBlock
    && (carried.outcome == Carried ==> carried == CarriedFindings(m.findingsBlock, m.hops + 1, m.docIds, Carried))
  }

  lemma ScopesAgree(a: Option<seq<string>>, b: Option<seq<string>>)
    ensures ScopeMoved(a, b) <==> !SameScope(a, b)
  {
    if a.Some? && b.Some? {
      ScopeIsASet(a.value, b.value);
    }
  }

  lemma InheritedIsRight(m: ChatMessage, current: Option<seq<string>>, checkScope: bool, maxHops: int)
    ensures CarriedRight(Inherited(m, current, checkScope, maxHops), m, current, checkScope, maxHops)
  {
    ScopesAgree(m.docIds, current);
  }

  method LatestFindingsBlock(messages: seq<ChatMessage>, current: Option<seq<string>>, checkScope: bool, maxHops: int)
    returns (carried: CarriedFindings)
    ensures var i := LatestBearer(messages, |messages|);
      carried == if i < 0 then CarriedFindings(None, 0, None, NoBlock)
                 else Inherited(messages[i], current, checkScope, maxHops)
    ensures carried.outcome == NoBlock <==> !exists i: nat :: i < |messages| && IsLatest(messages, i)
    ensures forall i: nat :: i < |messages| && IsLatest(messages, i) ==>
              CarriedRight(carried, messages[i], current, checkScope, maxHops)
    ensures carried.outcome != Carried ==> carried.block == None && carried.hops == 0 && carried.docIds == None
  {
    ghost var latest := LatestBearer(messages, |messages|);
    if latest >= 0 {
      assert IsLatest(messages, latest);
      InheritedIsRight(messages[latest], current, checkScope, maxHops);
    }
    var n := |messages|;
    while n > 0
      invariant 0 <= n <= |messages|
      invariant LatestBearer(messages, |messages|) == LatestBearer(messages, n)
    {
      var m := messages[n - 1];
      if Bears(m) {
        var nextHops := m.hops + 1;
        if nextHops > maxHops {
          return CarriedFindings(None, 0, None, DroppedHopCap);
        }
        if checkScope && ScopeMoved(m.docIds, current) {
          return CarriedFindings(None, 0, None, DroppedScope);
        }
        return CarriedFindings(m.findingsBlock, nextHops, m.docIds, Carried);
      }
      n := n - 1;
    }
    return CarriedFindings(None, 0, None, NoBlock);
  }

  // ---------------------------------------------------------------------
  // Turns
  // ---------------------------------------------------------------------

  /** How a turn's answer came about.
      - Agent: a fresh run, with the block it produced (if any) and whether it was sealed.
      - Direct: answered without retrieval, from a carried block when there is one.
      - Fixed: a refusal, redirect or failure. */
  datatype Route = Agent(block: Option<string>, sealed: bool) | Direct | Fixed

  /** A turn: its question, the documents it was scoped to, how many of the earlier messages its
      history window held, and its route. */
  datatype Turn = Turn(question: string, scope: Option<seq<string>>, window: nat, route: Route, content: string)

  const NO_FINDINGS := ChatMessage(Assistant, "", None, None, false, 0, None)

  function CarriedBy(context: seq<ChatMessage>, scope: Option<seq<string>>, maxHops: int): CarriedFindings {
    var i := LatestBearer(context, |context|);
    if i < 0 then CarriedFindings(None, 0, None, NoBlock) else Inherited(context[i], scope, true, maxHops)
  }

  /** What is persisted with the answer: a fresh block only from a sealed run, under this turn's
      scope; a carried one with its hops and the scope it came with. */
  function AnswerOf(t: Turn, context: seq<ChatMessage>, maxHops: int): ChatMessage {
    match t.route
    case Fixed => NO_FINDINGS.(content := t.content)
    case Agent(block, sealed) =>
      if block.Some? && block.value != "" && sealed then
        NO_FINDINGS.(content := t.content, findingsBlock := block, hops := 0, docIds := t.scope)
      else NO_FINDINGS.(content := t.content)
    case Direct =>
      var carried := CarriedBy(context, t.scope, maxHops);
      if carried.block.Some? && carried.block.value != "" then
        NO_FINDINGS.(content := t.content, findingsBlock := carried.block, hops := carried.hops,
                     docIds := carried.docIds, fromCarryover := true)
      else NO_FINDINGS.(content := t.content)
  }

  function QuestionOf(t: Turn): ChatMessage {
    ChatMessage(User, t.question, None, None, false, 0, None)
  }

  /** The end of the history that the turn's window holds, and its question. */
  function ContextOf(history: seq<ChatMessage>, t: Turn): seq<ChatMessage> {
    (if t.window >= |history| then history else history[|history| - t.window..]) + [QuestionOf(t)]
  }

  /** The messages after the first k turns; turn k's answer is message 2k + 1. */
  function HistoryAt(turns: seq<Turn>, k: nat, maxHops: int): (h: seq<ChatMessage>)
    requires k <= |turns|
    ensures |h| == 2 * k
  {
    if k == 0 then []
    else
      var before, t := HistoryAt(turns, k - 1, maxHops), turns[k - 1];
      before + [QuestionOf(t), AnswerOf(t, ContextOf(before, t), maxHops)]
  }

  /** The answer to turn k. */
  function Answer(turns: seq<Turn>, k: nat, maxHops: int): ChatMessage
    requires k < |turns|
  {
    AnswerOf(turns[k], ContextOf(HistoryAt(turns, k, maxHops), turns[k]), maxHops)
  }

  // ---------------------------------------------------------------------
  // Lineage
  // ---------------------------------------------------------------------

  /** The latest turn before k whose answer bears a block, or -1. */
  function PrevBearer(turns: seq<Turn>, k: nat, maxHops: int): (j: int)
    requires k <= |turns|
    ensures -1 <= j < k
    ensures j >= 0 ==> Bears(Answer(turns, j, maxHops))
  {
    if k == 0 then -1
    else if Bears(Answer(turns, k - 1, maxHops)) then k - 1
    else PrevBearer(turns, k - 1, maxHops)
  }

  /** The latest bearing message of the history is the answer of the latest bearing turn. */
  lemma {:induction false} LatestBearerIsAnswer(turns: seq<Turn>, k: nat, maxHops: int)
    requires k <= |turns|
    ensures var j := PrevBearer(turns, k, maxHops);
            var h := HistoryAt(turns, k, maxHops);
            var i := LatestBearer(h, |h|);
      if j < 0 then i == -1 else i == 2 * j + 1 && h[i] == Answer(turns, j, maxHops)
  {
    if k > 0 {
      LatestBearerIsAnswer(turns, k - 1, maxHops);
      LastTurnOfHistory(turns, k, maxHops);
    }
  }

  lemma LastTurnOfHistory(turns: seq<Turn>, k: nat, maxHops: int)
    requires 0 < k <= |turns|
    ensures var before, h := HistoryAt(turns, k - 1, maxHops), HistoryAt(turns, k, maxHops);
            var i := LatestBearer(before, |before|);
      && h[2 * k - 1] == Answer(turns, k - 1, maxHops)
      && (i >= 0 ==> h[i] == before[i])
      && LatestBearer(h, |h|) == if Bears(h[2 * k - 1]) then 2 * k - 1 else i
  {
    var before, h := HistoryAt(turns, k - 1, maxHops), HistoryAt(turns, k, maxHops);
    assert h == before + [QuestionOf(turns[k - 1]), Answer(turns, k - 1, maxHops)];
    assert !Bears(h[2 * k - 2]);
    LatestBearerOfPrefix(h, before, 2 * k - 2);
    assert LatestBearer(h, 2 * k - 1) == LatestBearer(h, 2 * k - 2);
  }

  lemma {:induction false} LatestBearerOfPrefix(h: seq<ChatMessage>, before: seq<ChatMessage>, n: nat)
    requires n <= |before| && n <= |h| && forall i :: 0 <= i < n ==> h[i] == before[i]
    ensures LatestBearer(h, n) == LatestBearer(before, n)
  {
    if n > 0 {
      LatestBearerOfPrefix(h, before, n - 1);
    }
  }

  /** The window either holds the latest bearing message of the history or no bearing message. */
  lemma WindowSeesLatest(h: seq<ChatMessage>, t: Turn)
    ensures var context := ContextOf(h, t);
            var i := LatestBearer(context, |context|);
      i >= 0 ==> LatestBearer(h, |h|) >= 0 && context[i] == h[LatestBearer(h, |h|)]
  {
    var context := ContextOf(h, t);
    var cut := |h| + 1 - |context|;
    assert forall p :: 0 <= p < |context| - 1 ==> context[p] == h[p + cut];
    var i, j := LatestBearer(context, |context|), LatestBearer(h, |h|);
    if i >= 0 {
      assert i < |context| - 1;
      assert Bears(h[i + cut]);
      forall p | i + cut < p < |h| ensures !Bears(h[p]) {
        assert h[p] == context[p - cut];
      }
    }
  }

  /** Message m, an answer under the given scope, bears the block of `from`. */
  predicate Inherits(m: ChatMessage, from: ChatMessage, scope: Option<seq<string>>, maxHops: int) {
    && m.fromCarryover && m.findingsBlock == from.findingsBlock && m.docIds == from.docIds
    && m.hops == from.hops + 1 <= maxHops && !ScopeMoved(m.docIds, scope)
  }

  lemma DirectAnswer(t: Turn, context: seq<ChatMessage>, maxHops: int)
    requires t.route == Direct && Bears(AnswerOf(t, context, maxHops))
    ensures var i := LatestBearer(context, |context|);
      i >= 0 && Inherits(AnswerOf(t, context, maxHops), context[i], t.scope, maxHops)
  {
  }

  /** A direct answer bears the block of the latest bearing message of the history. */
  lemma DirectAnswerOf(h: seq<ChatMessage>, t: Turn, context: seq<ChatMessage>, maxHops: int)
    requires t.route == Direct && context == ContextOf(h, t) && Bears(AnswerOf(t, context, maxHops))
    ensures var i := LatestBearer(h, |h|);
      i >= 0 && Inherits(AnswerOf(t, context, maxHops), h[i], t.scope, maxHops)
  {
    DirectAnswer(t, context, maxHops);
    WindowSeesLatest(h, t);
  }

  /** Lineage of one answer: a block with hops 0 is that of a sealed agent run of the same turn,
      under its scope; any other is the block of the latest bearing answer before it, with the same
      documents and one hop more, within the cap and under a scope that has not moved. */
  lemma {:induction false} BlockLineage(turns: seq<Turn>, k: nat, maxHops: int)
    requires k < |turns| && Bears(Answer(turns, k, maxHops))
    ensures var m := Answer(turns, k, maxHops);
            var j := PrevBearer(turns, k, maxHops);
      && m.hops >= 0
      && (m.fromCarryover <==> turns[k].route == Direct)
      && (turns[k].route == Direct ==>
            && j >= 0
            && m.findingsBlock == Answer(turns, j, maxHops).findingsBlock
            && m.docIds == Answer(turns, j, maxHops).docIds
            && m.hops == Answer(turns, j, maxHops).hops + 1 <= maxHops
            && m.hops >= 1
            && !ScopeMoved(m.docIds, turns[k].scope))
      && (turns[k].route != Direct ==>
            && m.hops == 0
            && turns[k].route == Agent(m.findingsBlock, true)
            && m.docIds == turns[k].scope)
    decreases k
  {
    if turns[k].route == Direct {
      var h := HistoryAt(turns, k, maxHops);
      DirectAnswerOf(h, turns[k], ContextOf(h, turns[k]), maxHops);
      LatestBearerIsAnswer(turns, k, maxHops);
      var j := PrevBearer(turns, k, maxHops);
      BlockLineage(turns, j, maxHops);
    }
  }

  lemma {:induction false} NoneBetween(turns: seq<Turn>, k: nat, i: nat, maxHops: int)
    requires k <= |turns| && PrevBearer(turns, k, maxHops) < i < k
    ensures !Bears(Answer(turns, i, maxHops))
  {
    var last := k - 1;
    if i < last {
      NoneBetween(turns, last, i, maxHops);
    }
  }

  /** The latest bearing message is in the window when it is near enough to its end. */
  lemma WindowHoldsLatest(h: seq<ChatMessage>, t: Turn)
    ensures var context, p := ContextOf(h, t), LatestBearer(h, |h|);
      LatestBearer(context, |context|) >= 0 <==> p >= 0 && |h| <= p + t.window
  {
    var context, p := ContextOf(h, t), LatestBearer(h, |h|);
    var cut := |h| + 1 - |context|;
    assert forall q :: 0 <= q < |context| - 1 ==> context[q] == h[q + cut];
    if p >= 0 && |h| <= p + t.window {
      assert context[p - cut] == h[p] && Bears(context[p - cut]);
    }
    var i := LatestBearer(context, |context|);
    if i >= 0 {
      assert i < |context| - 1 && Bears(h[i + cut]);
      assert p >= i + cut;
    }
  }

  /** Turn j's answer is the last before turn k's that bears a block, and turn k's window holds it. */
  ghost predicate SeesBearer(turns: seq<Turn>, j: nat, k: nat, maxHops: int)
    requires k < |turns|
  {
    && j < k && Bears(Answer(turns, j, maxHops)) && (forall i: nat :: j < i < k ==> !Bears(Answer(turns, i, maxHops)))
    && 2 * (k - j) <= turns[k].window + 1
  }

  /** What turn k passes on of turn j's block: it is within the cap, and under the same scope. */
  ghost predicate PassesOn(turns: seq<Turn>, j: nat, k: nat, maxHops: int)
    requires k < |turns|
  {
    SeesBearer(turns, j, k, maxHops)
    && Answer(turns, j, maxHops).hops + 1 <= maxHops && SameScope(Answer(turns, j, maxHops).docIds, turns[k].scope)
  }

  lemma CarriedFromContext(t: Turn, context: seq<ChatMessage>, maxHops: int)
    requires t.route == Direct
    ensures var i := LatestBearer(context, |context|);
      Bears(AnswerOf(t, context, maxHops)) <==>
        i >= 0 && context[i].hops + 1 <= maxHops && SameScope(context[i].docIds, t.scope)
  {
    var i := LatestBearer(context, |context|);
    if i >= 0 {
      InheritedIsRight(context[i], t.scope, true, maxHops);
    }
  }

  lemma SeesPrevBearer(turns: seq<Turn>, k: nat, maxHops: int)
    requires k < |turns|
    ensures var context := ContextOf(HistoryAt(turns, k, maxHops), turns[k]);
            var i, j := LatestBearer(context, |context|), PrevBearer(turns, k, maxHops);
      && (i >= 0 <==> j >= 0 && SeesBearer(turns, j, k, maxHops))
      && (i >= 0 ==> context[i] == Answer(turns, j, maxHops))
  {
    var h, j := HistoryAt(turns, k, maxHops), PrevBearer(turns, k, maxHops);
    LatestBearerIsAnswer(turns, k, maxHops);
    WindowSeesLatest(h, turns[k]);
    WindowHoldsLatest(h, turns[k]);
    forall i: nat | j < i < k ensures !Bears(Answer(turns, i, maxHops)) {
      NoneBetween(turns, k, i, maxHops);
    }
  }

  lemma BearerIsPrev(turns: seq<Turn>, j: nat, k: nat, maxHops: int)
    requires k < |turns| && SeesBearer(turns, j, k, maxHops)
    ensures PrevBearer(turns, k, maxHops) == j
  {
    var p := PrevBearer(turns, k, maxHops);
    if p < j {
      NoneBetween(turns, k, j, maxHops);
    }
  }

  /** Exactly which answers bear a block: a sealed run's own, and a direct answer's when its window holds the
      last bearing answer, which is within the cap and under the same scope. */
  lemma BearsExactly(turns: seq<Turn>, k: nat, maxHops: int)
    requires k < |turns|
    ensures Bears(Answer(turns, k, maxHops)) <==>
      match turns[k].route
      case Agent(block, sealed) => sealed && block.Some? && block.value != ""
      case Direct => exists j: nat :: PassesOn(turns, j, k, maxHops)
      case Fixed => false
  {
    if turns[k].route == Direct {
      var context := ContextOf(HistoryAt(turns, k, maxHops), turns[k]);
      CarriedFromContext(turns[k], context, maxHops);
      SeesPrevBearer(turns, k, maxHops);
      var p := PrevBearer(turns, k, maxHops);
      if Bears(Answer(turns, k, maxHops)) {
        assert PassesOn(turns, p, k, maxHops);
      }
      if j: nat :| PassesOn(turns, j, k, maxHops) {
        BearerIsPrev(turns, j, k, maxHops);
      }
    }
  }

  /** A sealed run, and then direct turns under the same scope whose windows reach back far enough. */
  ghost predicate FollowUps(turns: seq<Turn>) {
    && turns != [] && turns[0].route.Agent? && turns[0].route.sealed
    && turns[0].route.block.Some? && turns[0].route.block.value != ""
    && forall k :: 1 <= k < |turns| ==>
         turns[k].route == Direct && 2 * k <= turns[k].window && SameScope(turns[0].scope, turns[k].scope)
  }

  /** The agent run a block comes from. */
  function Origin(turns: seq<Turn>, k: nat, maxHops: int): (o: nat)
    requires k < |turns| && Bears(Answer(turns, k, maxHops))
    ensures o <= k
  {
    var j := PrevBearer(turns, k, maxHops);
    if turns[k].route == Direct && j >= 0 then Origin(turns, j, maxHops) else k
  }

  lemma FollowUpPasses(turns: seq<Turn>, j: nat, k: nat, maxHops: nat)
    requires FollowUps(turns) && k == j + 1 < |turns| && k <= maxHops
    requires var m := Answer(turns, j, maxHops); Bears(m) && m.hops == j && m.docIds == turns[0].scope
    ensures PassesOn(turns, j, k, maxHops) && Bears(Answer(turns, k, maxHops))
  {
    assert PassesOn(turns, j, k, maxHops);
    BearsExactly(turns, k, maxHops);
  }

  /** As long as the cap allows, each follow-up answer bears the run's block. */
  lemma {:induction false} FollowUpCarries(turns: seq<Turn>, k: nat, maxHops: nat)
    requires FollowUps(turns) && k < |turns| && k <= maxHops
    ensures var m := Answer(turns, k, maxHops);
      Bears(m) && m.hops == k && m.docIds == turns[0].scope && Origin(turns, k, maxHops) == 0
  {
    if k == 0 {
      BearsExactly(turns, k, maxHops);
      BlockLineage(turns, k, maxHops);
    } else {
      var j := k - 1;
      FollowUpCarries(turns, j, maxHops);
      FollowUpPasses(turns, j, k, maxHops);
      BearerIsPrev(turns, j, k, maxHops);
      BlockLineage(turns, k, maxHops);
    }
  }

  lemma NotPastCap(turns: seq<Turn>, i: nat, k: nat, last: nat, maxHops: int)
    requires i <= last < k < |turns| && Bears(Answer(turns, last, maxHops)) && Answer(turns, last, maxHops).hops == maxHops
    ensures !PassesOn(turns, i, k, maxHops)
  {
  }

  /** Past the cap none does. */
  lemma {:induction false} FollowUpStops(turns: seq<Turn>, k: nat, maxHops: nat)
    requires FollowUps(turns) && maxHops < k < |turns|
    ensures !Bears(Answer(turns, k, maxHops))
  {
    forall i: nat | i < k ensures !PassesOn(turns, i, k, maxHops) {
      if i <= maxHops {
        FollowUpCarries(turns, maxHops, maxHops);
        NotPastCap(turns, i, k, maxHops, maxHops);
      } else {
        FollowUpStops(turns, i, maxHops);
      }
    }
    BearsExactly(turns, k, maxHops);
  }

  /** Every block traces back to a sealed agent run: same block, same documents, and the turn asks
      under the scope of that run. */
  lemma {:induction false} BlockTracesToRun(turns: seq<Turn>, k: nat, maxHops: int)
    requires k < |turns| && Bears(Answer(turns, k, maxHops))
    ensures var o := Origin(turns, k, maxHops);
            var m := Answer(turns, k, maxHops);
      && turns[o].route == Agent(m.findingsBlock, true)
      && m.docIds == turns[o].scope
      && !ScopeMoved(turns[o].scope, turns[k].scope)
      && (m.hops == 0 <==> o == k)
  {
    BlockLineage(turns, k, maxHops);
    if turns[k].route == Direct {
      BlockTracesToRun(turns, PrevBearer(turns, k, maxHops), maxHops);
    }
  }

  /** Turn k answers from the block of run o. */
  predicate InheritsFrom(turns: seq<Turn>, k: nat, o: nat, maxHops: int)
    requires k < |turns|
  {
    turns[k].route == Direct && Bears(Answer(turns, k, maxHops)) && Origin(turns, k, maxHops) == o
  }

  /** How many of the first n turns answer from the block of run o. */
  function Inheritors(turns: seq<Turn>, n: nat, o: nat, maxHops: int): nat
    requires n <= |turns|
  {
    if n == 0 then 0
    else Inheritors(turns, n - 1, o, maxHops) + if InheritsFrom(turns, n - 1, o, maxHops) then 1 else 0
  }

  lemma {:induction false} InheritorsCount(turns: seq<Turn>, n: nat, o: nat, maxHops: int)
    requires n <= |turns|
    ensures Inheritors(turns, n, o, maxHops) <= if maxHops > 0 then maxHops else 0
    ensures n <= o ==> Inheritors(turns, n, o, maxHops) == 0
    ensures var j := PrevBearer(turns, n, maxHops);
      j >= 0 && Origin(turns, j, maxHops) == o ==>
        Inheritors(turns, n, o, maxHops) == Answer(turns, j, maxHops).hops
  {
    if n > 0 {
      var k := n - 1;
      InheritorsCount(turns, k, o, maxHops);
      if Bears(Answer(turns, k, maxHops)) {
        BlockLineage(turns, k, maxHops);
      }
    }
  }

  /** In every run of turns, one agent run's block is inherited by at most the capped number of
      turns in total. */
  lemma InheritanceIsCapped(turns: seq<Turn>, o: nat, maxHops: int)
    ensures Inheritors(turns, |turns|, o, maxHops) <= if maxHops > 0 then maxHops else 0
  {
    InheritorsCount(turns, |turns|, o, maxHops);
  }

  /** Scopes are compared as sets: order and repetition of the documents do not matter. */
  lemma ScopeIsASet(before: seq<string>, now: seq<string>)
    ensures ScopeMoved(Some(before), Some(now)) <==> exists d :: (d in before) != (d in now)
  {
    var x, y := set d <- before, set d <- now;
    assert forall d :: (d in x <==> d in before) && (d in y <==> d in now);
    assert x == y <==> forall d :: d in x <==> d in y;
  }

  lemma {:induction false} InheritorsOfFollowUps(turns: seq<Turn>, n: nat, maxHops: nat)
    requires FollowUps(turns) && 1 <= n <= |turns|
    ensures Inheritors(turns, n, 0, maxHops) == if n - 1 <= maxHops then n - 1 else maxHops
  {
    var k := n - 1;
    if k <= maxHops {
      FollowUpCarries(turns, k, maxHops);
    } else {
      FollowUpStops(turns, k, maxHops);
    }
    assert Inheritors(turns, n, 0, maxHops) == Inheritors(turns, k, 0, maxHops) + if InheritsFrom(turns, k, 0, maxHops) then 1 else 0;
    if k > 0 {
      InheritorsOfFollowUps(turns, k, maxHops);
    }
  }

  /** The cap is reached: as many direct turns under one scope inherit the run's block as the cap allows. */
  lemma CapIsReached(turns: seq<Turn>, maxHops: nat)
    requires FollowUps(turns)
    ensures Inheritors(turns, |turns|, 0, maxHops) == if |turns| - 1 <= maxHops then |turns| - 1 else maxHops
  {
    InheritorsOfFollowUps(turns, |turns|, maxHops);
  }
}

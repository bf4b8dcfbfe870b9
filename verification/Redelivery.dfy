/** Redelivery of one chat request: workers that may die at any step, the row lock, and the commit
    that comes before the first LLM call (src/services/chat/tasks.py,
    src/repository/llm_request_repository.py). */
module Redelivery {
  import opened PyText

  datatype Status = Queued | Streaming | Completed | Failed

  datatype Row = Row(attempts: nat, status: Status)

  /** The request row as the database keeps it: the committed version and, while a transaction
      holds the row lock, that transaction's version. */
  datatype Db = Db(committed: Row, holder: Option<nat>, draft: Row) {
    /** A write by `w` goes ahead; any other writer waits. */
    predicate Free(w: nat) {
      holder == None || holder == Some(w)
    }

    /** The row `w` writes to: its own version, or the committed one when it takes the lock. */
    function Current(w: nat): Row {
      if holder == Some(w) then draft else committed
    }

    function Written(w: nat, row: Row): Db {
      Db(committed, Some(w), row)
    }

    function CommittedBy(w: nat): Db {
      if holder == Some(w) then Db(draft, None, draft) else this
    }

    function RolledBack(w: nat): Db {
      if holder == Some(w) then Db(committed, None, committed) else this
    }
  }

  function Counted(row: Row): Row {
    row.(attempts := row.attempts + 1)
  }

  /** The repository's view of the row inside a worker's session. */
  class LlmRequestRow {
    var db: Db

    constructor ()
      ensures db == Db(Row(0, Queued), None, Row(0, Queued))
    {
      db := Db(Row(0, Queued), None, Row(0, Queued));
    }

    /** `UPDATE ... RETURNING`: counts on top of whatever is committed by the time the lock is taken. */
    method IncrementAttemptCount(w: nat) returns (attempt: nat)
      requires db.Free(w)
      modifies this
      ensures db == old(db).Written(w, Counted(old(db).Current(w)))
      ensures attempt == old(db).Current(w).attempts + 1
    {
      var row := db.Current(w);
      attempt := row.attempts + 1;
      db := Db(db.committed, Some(w), Row(attempt, row.status));
    }

    /** The session writes only what it sees change: `loaded` is the status it has for the row. */
    method UpdateStatus(w: nat, loaded: Status, status: Status)
      requires status != loaded ==> db.Free(w)
      modifies this
      ensures db == if status == loaded then old(db) else old(db).Written(w, old(db).Current(w).(status := status))
    {
      if status != loaded {
        db := Db(db.committed, Some(w), Row(db.Current(w).attempts, status));
      }
    }

    method Commit(w: nat)
      modifies this
      ensures db == old(db).CommittedBy(w)
    {
      if db.holder == Some(w) {
        db := Db(db.draft, None, db.draft);
      }
    }

    method Rollback(w: nat)
      modifies this
      ensures db == old(db).RolledBack(w)
    {
      if db.holder == Some(w) {
        db := Db(db.committed, None, db.committed);
      }
    }
  }

  // ---------------------------------------------------------------------
  // Deliveries
  // ---------------------------------------------------------------------

  /** Where a delivery is.
      - Loaded: it has read the row.
      - Expiring: too old; it has written "failed".
      - Counting: it has counted its attempt.
      - Exceeding: over the cap; it has written "failed".
      - Preparing: it has written "streaming" and is building the prompt.
      - Refusing: its question was blocked; it has written "completed".
      - Running: past the commit before the router's LLM call.
      - Failing: an error ended its session; a new one is to write "failed".
      - Gone: returned or killed. */
  datatype Stage =
    | Loaded | Expiring | Counting | Exceeding | Preparing | Refusing | Running | Failing | Gone

  /** A delivery, with the row's status as it read it, and as its session has it: so, or as it last wrote it. */
  datatype Worker = Worker(stage: Stage, attempt: nat, loaded: Status, status: Status)

  /** The row, the deliveries so far, who committed each attempt, and who got to the LLM call. */
  datatype State = State(db: Db, workers: seq<Worker>, spent: seq<nat>, running: seq<nat>)

  const START := State(Db(Row(0, Queued), None, Row(0, Queued)), [], [], [])

  /** One step of delivery `w` (a new delivery for Deliver). Crash and Error can come anywhere. */
  datatype Event =
    | Deliver
    | Skip(w: nat)
    | WriteExpired(w: nat)
    | Count(w: nat)
    | WriteExceeded(w: nat)
    | NoPlaceholder(w: nat)
    | WriteStreaming(w: nat)
    | WriteRefused(w: nat)
    | CommitAndReturn(w: nat)
    | CommitAndRun(w: nat)
    | WriteOutcome(w: nat, status: Status)
    | CommitOutcome(w: nat)
    | Error(w: nat)
    | WriteError(w: nat)
    | Return(w: nat)
    | Crash(w: nat)

  predicate Enabled(s: State, e: Event, maxAttempts: nat) {
    e.Deliver? ||
    (e.w < |s.workers| &&
     var worker, db := s.workers[e.w], s.db;
     match e
     case Skip(w) => worker.stage.Loaded? && worker.status == Completed
     case WriteExpired(w) => worker.stage.Loaded? && worker.status != Completed && CanWrite(s, w, worker.status, Failed)
     case Count(w) => worker.stage.Loaded? && worker.status != Completed && db.Free(w)
     case WriteExceeded(w) =>
       worker.stage == Counting && worker.attempt > maxAttempts && CanWrite(s, w, worker.status, Failed)
     case NoPlaceholder(w) => worker.stage == Counting && worker.attempt <= maxAttempts
     case WriteStreaming(w) =>
       worker.stage == Counting && worker.attempt <= maxAttempts && CanWrite(s, w, worker.status, Streaming)
     case WriteRefused(w) => worker.stage == Preparing && CanWrite(s, w, worker.status, Completed)
     case CommitAndReturn(w) => worker.stage in {Expiring, Exceeding, Refusing}
     case CommitAndRun(w) => worker.stage == Preparing
     case WriteOutcome(w, status) =>
       worker.stage == Running && status in {Completed, Failed} && CanWrite(s, w, worker.status, status)
     case CommitOutcome(w) => worker.stage in {Running, Failing}
     case Error(w) => !worker.stage.Gone?
     case WriteError(w) => worker.stage == Failing && CanWrite(s, w, db.committed.status, Failed)
     case Return(w) => worker.stage in {Running, Failing}
     case Crash(w) => true)
  }

  /** A write of the status goes ahead: there is nothing to write, or the lock can be had. */
  predicate CanWrite(s: State, w: nat, loaded: Status, status: Status) {
    status == loaded || s.db.Free(w)
  }

  function Moved(s: State, w: nat, stage: Stage, db: Db): State
    requires w < |s.workers|
  {
    s.(db := db, workers := s.workers[w := s.workers[w].(stage := stage)])
  }

  /** A commit: an attempt counted in the transaction is now spent. */
  function Committed(s: State, w: nat, stage: Stage): State
    requires w < |s.workers|
  {
    var counted := s.db.holder == Some(w) && s.db.draft.attempts > s.db.committed.attempts;
    Moved(s, w, stage, s.db.CommittedBy(w)).(spent := if counted then s.spent + [w] else s.spent)
  }

  function Wrote(s: State, w: nat, stage: Stage, loaded: Status, status: Status): State
    requires w < |s.workers|
  {
    var db := if status == loaded then s.db else s.db.Written(w, s.db.Current(w).(status := status));
    s.(db := db, workers := s.workers[w := s.workers[w].(stage := stage, status := status)])
  }

  function Next(s: State, e: Event, maxAttempts: nat): State
    requires Enabled(s, e, maxAttempts)
  {
    match e
    case Deliver => s.(workers := s.workers + [Worker(Loaded, 0, s.db.committed.status, s.db.committed.status)])
    case Skip(w) => Moved(s, w, Gone, s.db)
    case WriteExpired(w) => Wrote(s, w, Expiring, s.workers[w].status, Failed)
    case Count(w) =>
      var row := Counted(s.db.Current(w));
      s.(db := s.db.Written(w, row), workers := s.workers[w := s.workers[w].(stage := Counting, attempt := row.attempts)])
    case WriteExceeded(w) => Wrote(s, w, Exceeding, s.workers[w].status, Failed)
    case NoPlaceholder(w) => Moved(s, w, Gone, s.db.RolledBack(w))
    case WriteStreaming(w) => Wrote(s, w, Preparing, s.workers[w].status, Streaming)
    case WriteRefused(w) => Wrote(s, w, Refusing, s.workers[w].status, Completed)
    case CommitAndReturn(w) => Committed(s, w, Gone)
    case CommitAndRun(w) => Committed(s, w, Running).(running := s.running + [w])
    case WriteOutcome(w, status) => Wrote(s, w, Running, s.workers[w].status, status)
    case CommitOutcome(w) => Committed(s, w, s.workers[w].stage)
    case Error(w) => Moved(s, w, Failing, s.db.RolledBack(w))
    case WriteError(w) => Wrote(s, w, Failing, s.db.committed.status, Failed)
    case Return(w) => Moved(s, w, Gone, s.db.RolledBack(w))
    case Crash(w) => Moved(s, w, Gone, s.db.RolledBack(w))
  }

  /** A step as the repository and the session carry it out on the row. */
  method Perform(row: LlmRequestRow, s: State, e: Event, maxAttempts: nat)
    requires row.db == s.db && Enabled(s, e, maxAttempts)
    modifies row
    ensures row.db == Next(s, e, maxAttempts).db
  {
    match e
    case Deliver =>
    case Skip(w) =>
    case WriteExpired(w) => row.UpdateStatus(w, s.workers[w].status, Failed);
    case Count(w) => var _ := row.IncrementAttemptCount(w);
    case WriteExceeded(w) => row.UpdateStatus(w, s.workers[w].status, Failed);
    case NoPlaceholder(w) => row.Rollback(w);
    case WriteStreaming(w) => row.UpdateStatus(w, s.workers[w].status, Streaming);
    case WriteRefused(w) => row.UpdateStatus(w, s.workers[w].status, Completed);
    case CommitAndReturn(w) => row.Commit(w);
    case CommitAndRun(w) => row.Commit(w);
    case WriteOutcome(w, status) => row.UpdateStatus(w, s.workers[w].status, status);
    case CommitOutcome(w) => row.Commit(w);
    case Error(w) => row.Rollback(w);
    case WriteError(w) => row.UpdateStatus(w, s.db.committed.status, Failed);
    case Return(w) => row.Rollback(w);
    case Crash(w) => row.Rollback(w);
  }

  predicate StepOk(states: seq<State>, events: seq<Event>, k: nat, maxAttempts: nat)
    requires |states| == |events| + 1 && k < |events|
  {
    Enabled(states[k], events[k], maxAttempts) && states[k + 1] == Next(states[k], events[k], maxAttempts)
  }

  ghost predicate IsRun(states: seq<State>, events: seq<Event>, maxAttempts: nat) {
    |states| == |events| + 1 && states[0] == START
    && forall k: nat :: k < |events| ==> StepOk(states, events, k, maxAttempts)
  }

  // ---------------------------------------------------------------------
  // The invariant
  // ---------------------------------------------------------------------

  /** Stages between counting an attempt and the commit that spends it. */
  predicate IsUnspent(stage: Stage) {
    stage in {Counting, Exceeding, Preparing, Refusing}
  }

  /** A delivery with an unspent attempt holds the lock on its count, one above the committed one. */
  predicate WorkerOk(s: State, w: nat, maxAttempts: nat)
    requires w < |s.workers|
  {
    IsUnspent(s.workers[w].stage) ==>
      && s.db.holder == Some(w) && s.db.draft.attempts == s.db.committed.attempts + 1 == s.workers[w].attempt
      && (s.workers[w].stage in {Preparing, Refusing} ==> s.workers[w].attempt <= maxAttempts)
  }

  predicate LockOk(s: State) {
    s.db.holder.Some? ==>
      && s.db.holder.value < |s.workers|
      && !s.workers[s.db.holder.value].stage.Gone?
      && !s.workers[s.db.holder.value].stage.Loaded?
      && (!IsUnspent(s.workers[s.db.holder.value].stage) ==> s.db.draft.attempts == s.db.committed.attempts)
  }

  /** Attempt k + 1 was committed by delivery spent[k]. */
  predicate SpentOk(s: State, k: nat)
    requires k < |s.spent|
  {
    var w := s.spent[k];
    w < |s.workers| && s.workers[w].attempt == k + 1 && !IsUnspent(s.workers[w].stage) && !s.workers[w].stage.Loaded?
  }

  /** A delivery that got to the LLM call spent an attempt within the cap, a later one than any before. */
  predicate RunningOk(s: State, i: nat, maxAttempts: nat)
    requires i < |s.running|
  {
    var w := s.running[i];
    && w < |s.workers| && 1 <= s.workers[w].attempt <= maxAttempts && s.workers[w].attempt <= |s.spent|
    && s.spent[s.workers[w].attempt - 1] == w
    && (i > 0 ==> s.running[i - 1] < |s.workers| && s.workers[s.running[i - 1]].attempt < s.workers[w].attempt)
  }

  ghost predicate Inv(s: State, maxAttempts: nat) {
    && LockOk(s)
    && |s.spent| == s.db.committed.attempts
    && (forall w: nat :: w < |s.workers| ==> WorkerOk(s, w, maxAttempts))
    && (forall k: nat :: k < |s.spent| ==> SpentOk(s, k))
    && (forall i: nat :: i < |s.running| ==> RunningOk(s, i, maxAttempts))
  }

  /** Nothing but worker w and the lock changes, and no attempt is spent. */
  predicate OnlyMoves(s: State, s': State, w: nat) {
    && |s'.workers| == |s.workers| && w < |s.workers|
    && (forall v: nat :: v < |s.workers| && v != w ==> s'.workers[v] == s.workers[v])
    && s'.db.committed.attempts == s.db.committed.attempts && s'.spent == s.spent && s'.running == s.running
    && (s.workers[w].attempt == s'.workers[w].attempt || s.workers[w].stage.Loaded?)
  }

  lemma MoveKeepsHistory(s: State, s': State, w: nat, maxAttempts: nat)
    requires Inv(s, maxAttempts) && OnlyMoves(s, s', w)
    requires s'.workers[w].stage.Loaded? || IsUnspent(s'.workers[w].stage) ==>
               s.workers[w].stage.Loaded? || IsUnspent(s.workers[w].stage)
    ensures forall k: nat :: k < |s'.spent| ==> SpentOk(s', k)
    ensures forall i: nat :: i < |s'.running| ==> RunningOk(s', i, maxAttempts)
  {
    forall k: nat | k < |s'.spent| ensures SpentOk(s', k) {
      assert SpentOk(s, k);
    }
    forall i: nat | i < |s'.running| ensures RunningOk(s', i, maxAttempts) {
      assert RunningOk(s, i, maxAttempts);
      assert SpentOk(s, s.workers[s.running[i]].attempt - 1);
      if i > 0 {
        assert RunningOk(s, i - 1, maxAttempts);
        assert SpentOk(s, s.workers[s.running[i - 1]].attempt - 1);
      }
    }
  }

  lemma MoveKeepsInvariant(s: State, e: Event, maxAttempts: nat)
    requires Inv(s, maxAttempts) && Enabled(s, e, maxAttempts)
    requires !e.Deliver? && !e.CommitAndReturn? && !e.CommitAndRun? && !e.CommitOutcome?
    ensures Inv(Next(s, e, maxAttempts), maxAttempts)
  {
    var s', w := Next(s, e, maxAttempts), e.w;
    assert WorkerOk(s, w, maxAttempts);
    MoveKeepsHistory(s, s', w, maxAttempts);
    forall v: nat | v < |s'.workers| ensures WorkerOk(s', v, maxAttempts) {
      assert WorkerOk(s, v, maxAttempts);
    }
  }

  lemma DeliverKeepsInvariant(s: State, maxAttempts: nat)
    requires Inv(s, maxAttempts)
    ensures Inv(Next(s, Deliver, maxAttempts), maxAttempts)
  {
    var s' := Next(s, Deliver, maxAttempts);
    forall v: nat | v < |s'.workers| ensures WorkerOk(s', v, maxAttempts) {
      if v < |s.workers| { assert WorkerOk(s, v, maxAttempts); }
    }
    forall k: nat | k < |s'.spent| ensures SpentOk(s', k) {
      assert SpentOk(s, k);
    }
    forall i: nat | i < |s'.running| ensures RunningOk(s', i, maxAttempts) {
      assert RunningOk(s, i, maxAttempts);
      if i > 0 { assert RunningOk(s, i - 1, maxAttempts); }
    }
  }

  /** Delivery w's commit spends its attempt, if it has one. */
  lemma CommitSpends(s: State, e: Event, maxAttempts: nat)
    requires Inv(s, maxAttempts) && Enabled(s, e, maxAttempts)
    requires e.CommitAndReturn? || e.CommitAndRun? || e.CommitOutcome?
    ensures var s' := Next(s, e, maxAttempts);
      && LockOk(s') && |s'.spent| == s'.db.committed.attempts
      && (forall v: nat :: v < |s'.workers| ==> WorkerOk(s', v, maxAttempts))
      && (forall k: nat :: k < |s'.spent| ==> SpentOk(s', k))
  {
    var s', w := Next(s, e, maxAttempts), e.w;
    assert WorkerOk(s, w, maxAttempts);
    forall v: nat | v < |s'.workers| ensures WorkerOk(s', v, maxAttempts) {
      assert WorkerOk(s, v, maxAttempts);
    }
    forall k: nat | k < |s'.spent| ensures SpentOk(s', k) {
      if k < |s.spent| { assert SpentOk(s, k); }
    }
  }

  lemma CommitKeepsInvariant(s: State, e: Event, maxAttempts: nat)
    requires Inv(s, maxAttempts) && Enabled(s, e, maxAttempts)
    requires e.CommitAndReturn? || e.CommitAndRun? || e.CommitOutcome?
    ensures Inv(Next(s, e, maxAttempts), maxAttempts)
  {
    CommitSpends(s, e, maxAttempts);
    var s', w := Next(s, e, maxAttempts), e.w;
    assert WorkerOk(s, w, maxAttempts);
    forall i: nat | i < |s'.running| ensures RunningOk(s', i, maxAttempts) {
      if i < |s.running| { assert RunningOk(s, i, maxAttempts); }
      if i > 0 { assert RunningOk(s, i - 1, maxAttempts); }
    }
  }

  lemma {:induction false} RunKeepsInvariant(states: seq<State>, events: seq<Event>, k: nat, maxAttempts: nat)
    requires IsRun(states, events, maxAttempts) && k <= |events|
    ensures Inv(states[k], maxAttempts)
  {
    if k > 0 {
      RunKeepsInvariant(states, events, k - 1, maxAttempts);
      assert StepOk(states, events, k - 1, maxAttempts);
      var s, e := states[k - 1], events[k - 1];
      if e.Deliver? {
        DeliverKeepsInvariant(s, maxAttempts);
      } else if e.CommitAndReturn? || e.CommitAndRun? || e.CommitOutcome? {
        CommitKeepsInvariant(s, e, maxAttempts);
      } else {
        MoveKeepsInvariant(s, e, maxAttempts);
      }
    }
  }

  // ---------------------------------------------------------------------
  // Main results
  // ---------------------------------------------------------------------

  lemma {:induction false} AttemptsGrow(s: State, i: nat, j: nat, maxAttempts: nat)
    requires Inv(s, maxAttempts) && i <= j < |s.running|
    ensures s.running[i] < |s.workers| && s.running[j] < |s.workers|
    ensures s.workers[s.running[i]].attempt + (j - i) <= s.workers[s.running[j]].attempt
    ensures s.workers[s.running[j]].attempt <= maxAttempts && i + 1 <= s.workers[s.running[i]].attempt
    decreases i + j
  {
    assert RunningOk(s, i, maxAttempts) && RunningOk(s, j, maxAttempts);
    if i < j {
      AttemptsGrow(s, i, j - 1, maxAttempts);
    } else if i > 0 {
      AttemptsGrow(s, i - 1, i - 1, maxAttempts);
    }
  }

  /** In every run, however deliveries interleave and wherever they die, at most the allowed number
      of them get to the LLM call, with pairwise distinct attempt numbers within the cap. */
  lemma AttemptCap(states: seq<State>, events: seq<Event>, k: nat, maxAttempts: nat)
    requires IsRun(states, events, maxAttempts) && k <= |events|
    ensures var s := states[k];
      && |s.running| <= maxAttempts
      && (forall i :: 0 <= i < |s.running| ==>
            s.running[i] < |s.workers| && 1 <= s.workers[s.running[i]].attempt <= maxAttempts)
      && (forall i, j :: 0 <= i < j < |s.running| ==>
            s.workers[s.running[i]].attempt < s.workers[s.running[j]].attempt)
  {
    RunKeepsInvariant(states, events, k, maxAttempts);
    var s := states[k];
    forall i, j | 0 <= i <= j < |s.running|
      ensures s.running[i] < |s.workers| && s.running[j] < |s.workers|
      ensures 1 <= s.workers[s.running[i]].attempt <= maxAttempts
      ensures s.workers[s.running[i]].attempt + (j - i) <= s.workers[s.running[j]].attempt
    {
      AttemptsGrow(s, i, j, maxAttempts);
      AttemptsGrow(s, i, i, maxAttempts);
    }
    if s.running != [] {
      AttemptsGrow(s, 0, |s.running| - 1, maxAttempts);
    }
  }

  /** In every run, the committed count is the number of deliveries that committed an attempt, each
      once: one that died before its commit has spent nothing. */
  lemma AttemptsAreCounted(states: seq<State>, events: seq<Event>, k: nat, maxAttempts: nat)
    requires IsRun(states, events, maxAttempts) && k <= |events|
    ensures var s := states[k];
      && s.db.committed.attempts == |s.spent|
      && (forall i, j :: 0 <= i < j < |s.spent| ==> s.spent[i] != s.spent[j])
      && (forall i :: 0 <= i < |s.running| ==> s.running[i] in s.spent)
  {
    RunKeepsInvariant(states, events, k, maxAttempts);
    var s := states[k];
    forall i, j | 0 <= i < j < |s.spent| ensures s.spent[i] != s.spent[j] {
      assert SpentOk(s, i) && SpentOk(s, j);
    }
    forall i | 0 <= i < |s.running| ensures s.running[i] in s.spent {
      assert RunningOk(s, i, maxAttempts);
    }
  }

  // What each delivery leaves in the row

  /** What delivery w has written, and what its version of the row is when it holds the lock. */
  predicate WriteOk(s: State, w: nat, maxAttempts: nat)
    requires w < |s.workers|
  {
    var x, holds, c, d := s.workers[w], s.db.holder == Some(w), s.db.committed, s.db.draft;
    match x.stage
    case Loaded => !holds && x.attempt == 0 && x.status == x.loaded
    case Expiring => x.attempt == 0 && (x.loaded != Failed ==> holds) && (holds ==> d == Row(c.attempts, Failed) && x.loaded != Failed)
    case Counting => holds && x.attempt > 0 && x.status == x.loaded && d == Row(x.attempt, c.status)
    case Exceeding => holds && x.attempt > maxAttempts && d == Row(x.attempt, if x.loaded == Failed then c.status else Failed)
    case Preparing =>
      && holds && 1 <= x.attempt <= maxAttempts && x.status == Streaming
      && d == Row(x.attempt, if x.loaded == Streaming then c.status else Streaming)
    case Refusing => holds && 1 <= x.attempt <= maxAttempts && d == Row(x.attempt, Completed)
    case Running => holds ==> d == Row(c.attempts, x.status)
    case Failing => holds ==> d == Row(c.attempts, Failed)
    case Gone => !holds
  }

  ghost predicate WritesOk(s: State, maxAttempts: nat) {
    forall w: nat :: w < |s.workers| ==> WriteOk(s, w, maxAttempts)
  }

  /** The row and what the delivery has written of it are as they were, unless it has the lock. */
  lemma OtherWriteOk(s: State, s': State, v: nat, maxAttempts: nat)
    requires v < |s.workers| && v < |s'.workers| && s'.workers[v] == s.workers[v] && WriteOk(s, v, maxAttempts)
    requires s.db.holder == Some(v) ==> s'.db == s.db
    requires s.db.holder != Some(v) ==> s'.db.holder != Some(v)
    ensures WriteOk(s', v, maxAttempts)
  {
  }

  lemma OwnWriteOk(s: State, e: Event, maxAttempts: nat)
    requires Inv(s, maxAttempts) && WritesOk(s, maxAttempts) && Enabled(s, e, maxAttempts) && !e.Deliver?
    ensures WriteOk(Next(s, e, maxAttempts), e.w, maxAttempts)
  {
    assert WriteOk(s, e.w, maxAttempts) && WorkerOk(s, e.w, maxAttempts);
  }

  /** Only delivery w's own steps touch a row whose lock it holds, or give it that lock. */
  lemma LockIsOwn(s: State, e: Event, v: nat, maxAttempts: nat)
    requires Enabled(s, e, maxAttempts) && v < |s.workers| && (!e.Deliver? ==> e.w != v)
    ensures var s' := Next(s, e, maxAttempts);
      && v < |s'.workers| && s'.workers[v] == s.workers[v]
      && (s.db.holder == Some(v) ==> s'.db == s.db) && (s.db.holder != Some(v) ==> s'.db.holder != Some(v))
  {
  }

  lemma StepKeepsWrites(s: State, e: Event, maxAttempts: nat)
    requires Inv(s, maxAttempts) && WritesOk(s, maxAttempts) && Enabled(s, e, maxAttempts)
    ensures WritesOk(Next(s, e, maxAttempts), maxAttempts)
  {
    var s' := Next(s, e, maxAttempts);
    forall v: nat | v < |s'.workers| ensures WriteOk(s', v, maxAttempts) {
      if v < |s.workers| && (e.Deliver? || e.w != v) {
        LockIsOwn(s, e, v, maxAttempts);
        OtherWriteOk(s, s', v, maxAttempts);
      } else if !e.Deliver? {
        OwnWriteOk(s, e, maxAttempts);
      }
    }
  }

  lemma {:induction false} RunKeepsWrites(states: seq<State>, events: seq<Event>, k: nat, maxAttempts: nat)
    requires IsRun(states, events, maxAttempts) && k <= |events|
    ensures WritesOk(states[k], maxAttempts)
  {
    if k > 0 {
      var j := k - 1;
      RunKeepsWrites(states, events, j, maxAttempts);
      RunKeepsInvariant(states, events, j, maxAttempts);
      assert StepOk(states, events, j, maxAttempts) && j + 1 == k;
      StepKeepsWrites(states[j], events[j], maxAttempts);
    }
  }

  lemma LoadedStays(s: State, e: Event, v: nat, maxAttempts: nat)
    requires Enabled(s, e, maxAttempts) && v < |s.workers|
    ensures var s' := Next(s, e, maxAttempts); v < |s'.workers| && s'.workers[v].loaded == s.workers[v].loaded
  {
  }

  /** The delivery of step d, later on. */
  lemma {:induction false} LoadedIsRead(states: seq<State>, events: seq<Event>, d: nat, k: nat, maxAttempts: nat)
    requires IsRun(states, events, maxAttempts) && d < k <= |events| && events[d].Deliver?
    ensures var w := |states[d].workers|;
      w < |states[k].workers| && states[k].workers[w].loaded == states[d].db.committed.status
    decreases k
  {
    var j := k - 1;
    assert StepOk(states, events, j, maxAttempts) && j + 1 == k;
    if d < j {
      LoadedIsRead(states, events, d, j, maxAttempts);
      LoadedStays(states[j], events[j], |states[d].workers|, maxAttempts);
    }
  }

  /** What a delivery leaves committed when it commits and returns, where `read` is the status it found.
      - It never counted an attempt: it was expired, and leaves "failed".
      - Its attempt is over the cap: it leaves that attempt, and "failed".
      - Its attempt is within the cap: its question was refused, and it leaves that attempt, and "completed".
      The first two write no status when they found "failed", and so leave whatever has been committed since. */
  lemma ReturnLeaves(states: seq<State>, events: seq<Event>, d: nat, k: nat, maxAttempts: nat)
    requires IsRun(states, events, maxAttempts) && d < k < |events| && events[d].Deliver?
    requires events[k] == CommitAndReturn(|states[d].workers|)
    ensures var read, before, after := states[d].db.committed.status, states[k].db.committed, states[k + 1].db.committed;
            var w := |states[d].workers|;
      && w < |states[k].workers|
      && var attempt := states[k].workers[w].attempt;
         var failed := if read == Failed then before.status else Failed;
      && (attempt == 0 ==> after == Row(before.attempts, failed))
      && (attempt > maxAttempts ==> after == Row(attempt, failed))
      && (1 <= attempt <= maxAttempts ==> after == Row(attempt, Completed))
      && (attempt > 0 ==> attempt == before.attempts + 1)
  {
    var w := |states[d].workers|;
    LoadedIsRead(states, events, d, k, maxAttempts);
    RunKeepsWrites(states, events, k, maxAttempts);
    RunKeepsInvariant(states, events, k, maxAttempts);
    assert StepOk(states, events, k, maxAttempts);
    assert WriteOk(states[k], w, maxAttempts) && WorkerOk(states[k], w, maxAttempts);
  }

  /** So a delivery over the cap leaves the request failed if and only if it did not find it failed, or it is
      failed by then; the same of an expired one. */
  lemma ReturnFailsExactly(states: seq<State>, events: seq<Event>, d: nat, k: nat, maxAttempts: nat)
    requires IsRun(states, events, maxAttempts) && d < k < |events| && events[d].Deliver?
    requires events[k] == CommitAndReturn(|states[d].workers|)
    requires |states[d].workers| < |states[k].workers|
    requires var attempt := states[k].workers[|states[d].workers|].attempt; attempt == 0 || attempt > maxAttempts
    ensures states[k + 1].db.committed.status == Failed
       <==> states[d].db.committed.status != Failed || states[k].db.committed.status == Failed
  {
    ReturnLeaves(states, events, d, k, maxAttempts);
  }

  /** The commit before the LLM call leaves the attempt, within the cap, and "streaming"; a delivery that found
      "streaming" writes no status. */
  lemma RunLeaves(states: seq<State>, events: seq<Event>, d: nat, k: nat, maxAttempts: nat)
    requires IsRun(states, events, maxAttempts) && d < k < |events| && events[d].Deliver?
    requires events[k] == CommitAndRun(|states[d].workers|)
    ensures var read, before, after := states[d].db.committed.status, states[k].db.committed, states[k + 1].db.committed;
      && 1 <= before.attempts + 1 <= maxAttempts
      && after == Row(before.attempts + 1, if read == Streaming then before.status else Streaming)
  {
    var w := |states[d].workers|;
    LoadedIsRead(states, events, d, k, maxAttempts);
    RunKeepsWrites(states, events, k, maxAttempts);
    RunKeepsInvariant(states, events, k, maxAttempts);
    assert StepOk(states, events, k, maxAttempts);
    assert WriteOk(states[k], w, maxAttempts) && WorkerOk(states[k], w, maxAttempts);
  }

  /** No step but these commits changes the committed row. */
  lemma OnlyCommitsCommit(states: seq<State>, events: seq<Event>, k: nat, maxAttempts: nat)
    requires IsRun(states, events, maxAttempts) && k < |events|
    requires !events[k].CommitAndReturn? && !events[k].CommitAndRun? && !events[k].CommitOutcome?
    ensures states[k + 1].db.committed == states[k].db.committed
  {
    assert StepOk(states, events, k, maxAttempts);
  }

  /** No outcome has been written by delivery w in the first k steps. */
  predicate NoOutcome(events: seq<Event>, k: nat, w: nat)
    requires k <= |events|
  {
    forall i :: 0 <= i < k ==> !(events[i].WriteOutcome? && events[i].w == w)
  }

  /** None of steps i to j - 1 is delivery w's. */
  predicate Rests(events: seq<Event>, i: nat, j: nat, w: nat)
    requires j <= |events|
  {
    forall k :: i <= k < j ==> events[k].Deliver? || events[k].w != w
  }

  lemma StreamingStays(s: State, e: Event, w: nat, maxAttempts: nat)
    requires WritesOk(s, maxAttempts) && Enabled(s, e, maxAttempts)
    requires w < |s.workers| && (s.workers[w].stage == Running ==> s.workers[w].status == Streaming)
    requires !(e.WriteOutcome? && e.w == w)
    ensures var s' := Next(s, e, maxAttempts);
      w < |s'.workers| && (s'.workers[w].stage == Running ==> s'.workers[w].status == Streaming)
  {
    assert WriteOk(s, w, maxAttempts);
  }

  lemma {:induction false} StreamingUntilOutcome(states: seq<State>, events: seq<Event>, k: nat, w: nat, maxAttempts: nat)
    requires IsRun(states, events, maxAttempts) && k <= |events| && w < |states[k].workers| && NoOutcome(events, k, w)
    ensures states[k].workers[w].stage == Running ==> states[k].workers[w].status == Streaming
  {
    if k > 0 {
      var j := k - 1;
      assert StepOk(states, events, j, maxAttempts) && j + 1 == k;
      RunKeepsWrites(states, events, j, maxAttempts);
      if w < |states[j].workers| {
        StreamingUntilOutcome(states, events, j, w, maxAttempts);
        StreamingStays(states[j], events[j], w, maxAttempts);
      }
    }
  }

  lemma {:induction false} HoldsWhileResting(states: seq<State>, events: seq<Event>, i: nat, j: nat, w: nat, maxAttempts: nat)
    requires IsRun(states, events, maxAttempts) && i <= j <= |events| && Rests(events, i, j, w)
    requires w < |states[i].workers| && states[i].db.holder == Some(w)
    ensures w < |states[j].workers| && states[j].workers[w] == states[i].workers[w] && states[j].db == states[i].db
    decreases j
  {
    if i < j {
      var k := j - 1;
      HoldsWhileResting(states, events, i, k, w, maxAttempts);
      assert StepOk(states, events, k, maxAttempts) && k + 1 == j;
      LockIsOwn(states[k], events[k], w, maxAttempts);
    }
  }

  lemma OutcomeWritten(s: State, w: nat, status: Status, maxAttempts: nat)
    requires Inv(s, maxAttempts) && WritesOk(s, maxAttempts) && Enabled(s, WriteOutcome(w, status), maxAttempts)
    requires s.workers[w].status == Streaming
    ensures var s' := Next(s, WriteOutcome(w, status), maxAttempts);
      && s'.db.holder == Some(w) && s'.db.draft == Row(s'.db.committed.attempts, status)
  {
    assert WriteOk(s, w, maxAttempts);
  }

  /** The outcome a running delivery writes is what it leaves when it next commits. */
  lemma OutcomeLeaves(states: seq<State>, events: seq<Event>, o: nat, k: nat, w: nat, status: Status, maxAttempts: nat)
    requires IsRun(states, events, maxAttempts) && o < k < |events| && NoOutcome(events, o, w)
    requires events[o] == WriteOutcome(w, status) && Rests(events, o + 1, k, w) && events[k] == CommitOutcome(w)
    ensures states[k + 1].db.committed == Row(states[k].db.committed.attempts, status)
  {
    var next := o + 1;
    assert StepOk(states, events, o, maxAttempts) && StepOk(states, events, k, maxAttempts);
    RunKeepsInvariant(states, events, o, maxAttempts);
    RunKeepsWrites(states, events, o, maxAttempts);
    StreamingUntilOutcome(states, events, o, w, maxAttempts);
    OutcomeWritten(states[o], w, status, maxAttempts);
    HoldsWhileResting(states, events, next, k, w, maxAttempts);
  }

  lemma ErrorWritten(s: State, w: nat, maxAttempts: nat)
    requires WritesOk(s, maxAttempts) && Enabled(s, WriteError(w), maxAttempts) && s.db.committed.status != Failed
    ensures var s' := Next(s, WriteError(w), maxAttempts);
      && s'.db.holder == Some(w) && s'.db.draft == Row(s'.db.committed.attempts, Failed)
  {
    assert WriteOk(s, w, maxAttempts);
  }

  /** The "failed" that an erring delivery writes over another status is what it leaves when it commits. */
  lemma ErrorLeaves(states: seq<State>, events: seq<Event>, o: nat, k: nat, w: nat, maxAttempts: nat)
    requires IsRun(states, events, maxAttempts) && o < k < |events| && states[o].db.committed.status != Failed
    requires events[o] == WriteError(w) && Rests(events, o + 1, k, w) && events[k] == CommitOutcome(w)
    ensures states[k + 1].db.committed == Row(states[k].db.committed.attempts, Failed)
  {
    var next := o + 1;
    assert StepOk(states, events, o, maxAttempts) && StepOk(states, events, k, maxAttempts);
    RunKeepsWrites(states, events, o, maxAttempts);
    ErrorWritten(states[o], w, maxAttempts);
    HoldsWhileResting(states, events, next, k, w, maxAttempts);
  }

  /** The request is completed, and every delivery that is not gone either read it so, or has failed on
      its own and may be about to write that. */
  predicate Calm(s: State) {
    && s.db.committed.status == Completed
    && (forall w: nat :: w < |s.workers| ==> IsCalm(s.workers[w]))
    && (s.db.holder.Some? ==>
          && s.db.holder.value < |s.workers| && s.workers[s.db.holder.value].stage == Failing
          && s.db.draft == s.db.committed.(status := Failed))
  }

  predicate IsCalm(worker: Worker) {
    worker.stage in {Gone, Failing} || (worker.stage == Loaded && worker.status == Completed)
  }

  /** A delivery that failed on its own commits its "failed". */
  predicate CommitsFailure(s: State, e: Event) {
    e.CommitOutcome? && s.db.holder == Some(e.w)
  }

  lemma StepKeepsCalm(s: State, e: Event, maxAttempts: nat)
    requires Calm(s) && Enabled(s, e, maxAttempts)
    ensures var s' := Next(s, e, maxAttempts);
      && s'.running == s.running
      && (if CommitsFailure(s, e) then s'.db.committed == s.db.committed.(status := Failed)
          else Calm(s') && s'.db.committed == s.db.committed)
  {
    var s' := Next(s, e, maxAttempts);
    if !e.Deliver? {
      assert IsCalm(s.workers[e.w]);
    }
    forall w: nat | w < |s'.workers| && !CommitsFailure(s, e) ensures IsCalm(s'.workers[w]) {
      assert w < |s.workers| ==> IsCalm(s.workers[w]);
    }
  }

  /** Between states i and j no failing delivery commits. */
  predicate NoFailureCommits(states: seq<State>, events: seq<Event>, i: nat, j: nat)
    requires |states| == |events| + 1 && j <= |events|
  {
    forall k: nat :: i <= k < j ==> !CommitsFailure(states[k], events[k])
  }

  lemma {:induction false} CalmUntilFailureCommits(
      states: seq<State>, events: seq<Event>, i: nat, j: nat, maxAttempts: nat)
    requires IsRun(states, events, maxAttempts) && i <= j <= |events|
    requires Calm(states[i]) && NoFailureCommits(states, events, i, j)
    ensures Calm(states[j])
    ensures states[j].db.committed == states[i].db.committed && states[j].running == states[i].running
    decreases j
  {
    if i < j {
      var k := j - 1;
      CalmUntilFailureCommits(states, events, i, k, maxAttempts);
      assert StepOk(states, events, k, maxAttempts) && k + 1 == j;
      StepKeepsCalm(states[k], events[k], maxAttempts);
    }
  }

  /** The row is as at state i in every state up to j. */
  predicate RowStays(states: seq<State>, i: nat, j: nat)
    requires i <= j < |states|
  {
    forall k: nat :: i <= k <= j ==> states[k].db.committed == states[i].db.committed
  }

  /** Once a request is completed and no earlier delivery is left, its row stays as it is, through any
      later deliveries, if and only if none of them fails on its own and commits that. Until then no
      further LLM call is made either. */
  lemma CompletedIsFinal(states: seq<State>, events: seq<Event>, i: nat, j: nat, maxAttempts: nat)
    requires IsRun(states, events, maxAttempts) && i <= j <= |events| && Calm(states[i])
    ensures RowStays(states, i, j) <==> NoFailureCommits(states, events, i, j)
    ensures NoFailureCommits(states, events, i, j) ==> states[j].running == states[i].running
  {
    if NoFailureCommits(states, events, i, j) {
      forall k: nat | i <= k <= j ensures states[k].db.committed == states[i].db.committed {
        CalmUntilFailureCommits(states, events, i, k, maxAttempts);
      }
      CalmUntilFailureCommits(states, events, i, j, maxAttempts);
    } else {
      var k := FirstFailure(states, events, i, j);
      CalmUntilFailureCommits(states, events, i, k, maxAttempts);
      assert StepOk(states, events, k, maxAttempts);
      StepKeepsCalm(states[k], events[k], maxAttempts);
      var next := k + 1;
      assert states[next].db.committed != states[i].db.committed;
    }
  }

  lemma FirstFailure(states: seq<State>, events: seq<Event>, i: nat, j: nat) returns (k: nat)
    requires |states| == |events| + 1 && i <= j <= |events| && !NoFailureCommits(states, events, i, j)
    ensures i <= k < j && CommitsFailure(states[k], events[k]) && NoFailureCommits(states, events, i, k)
  {
    k := i;
    while !CommitsFailure(states[k], events[k])
      invariant i <= k < j && NoFailureCommits(states, events, i, k) && !NoFailureCommits(states, events, k, j)
      decreases j - k
    {
      k := k + 1;
    }
  }

  // A redelivery that overwrites a completed request

  lemma OneMoreStep(states: seq<State>, events: seq<Event>, s: State, e: Event, s': State, maxAttempts: nat)
    requires IsRun(states, events, maxAttempts) && states[|events|] == s
    requires Enabled(s, e, maxAttempts) && Next(s, e, maxAttempts) == s'
    ensures IsRun(states + [s'], events + [e], maxAttempts) && (states + [s'])[|events + [e]|] == s'
  {
    var states', events' := states + [s'], events + [e];
    forall k: nat | k < |events'| ensures StepOk(states', events', k, maxAttempts) {
      assert k < |events| ==> StepOk(states, events, k, maxAttempts);
    }
  }

  /** Every delivery so far is gone, after getting to the LLM call or not; a attempts have been spent. */
  predicate AllDied(s: State, a: nat) {
    && |s.workers| == a && |s.running| == a && (forall w: nat :: w < a ==> s.workers[w].stage == Gone)
    && s.db == Db(s.db.committed, None, s.db.committed) && s.db.committed == Row(a, if a == 0 then Queued else Streaming)
  }

  /** One more delivery gets to the LLM call, and dies there. */
  lemma DiesRunning(s: State, a: nat, maxAttempts: nat) returns (between: seq<State>)
    requires AllDied(s, a) && a < maxAttempts
    ensures |between| == 5
    ensures Enabled(s, Deliver, maxAttempts) && Next(s, Deliver, maxAttempts) == between[0]
    ensures Enabled(between[0], Count(a), maxAttempts) && Next(between[0], Count(a), maxAttempts) == between[1]
    ensures Enabled(between[1], WriteStreaming(a), maxAttempts) && Next(between[1], WriteStreaming(a), maxAttempts) == between[2]
    ensures Enabled(between[2], CommitAndRun(a), maxAttempts) && Next(between[2], CommitAndRun(a), maxAttempts) == between[3]
    ensures Enabled(between[3], Crash(a), maxAttempts) && Next(between[3], Crash(a), maxAttempts) == between[4]
    ensures AllDied(between[4], a + 1)
  {
    var s0 := Next(s, Deliver, maxAttempts);
    var s1 := Next(s0, Count(a), maxAttempts);
    var s2 := Next(s1, WriteStreaming(a), maxAttempts);
    var s3 := Next(s2, CommitAndRun(a), maxAttempts);
    between := [s0, s1, s2, s3, Next(s3, Crash(a), maxAttempts)];
  }

  /** Step i of `steps`, taken from s on, leads to between[i]. */
  predicate Goes(s: State, steps: seq<Event>, between: seq<State>, i: nat, maxAttempts: nat)
    requires i < |steps| == |between|
  {
    var from := if i == 0 then s else between[i - 1];
    Enabled(from, steps[i], maxAttempts) && Next(from, steps[i], maxAttempts) == between[i]
  }

  lemma MoreSteps(states: seq<State>, events: seq<Event>, s: State, steps: seq<Event>, between: seq<State>, maxAttempts: nat)
    requires IsRun(states, events, maxAttempts) && states[|events|] == s && |steps| == |between|
    requires forall i: nat :: i < |steps| ==> Goes(s, steps, between, i, maxAttempts)
    ensures IsRun(states + between, events + steps, maxAttempts)
  {
    var states', events' := states + between, events + steps;
    forall k: nat | k < |events'| ensures StepOk(states', events', k, maxAttempts) {
      if k < |events| {
        assert StepOk(states, events, k, maxAttempts);
      } else {
        var i := k - |events|;
        assert Goes(s, steps, between, i, maxAttempts);
        assert states'[k] == if i == 0 then s else between[i - 1];
      }
    }
  }

  /** The cap is reached: that many deliveries can get to the LLM call, one after another. */
  lemma CapIsReached(maxAttempts: nat) returns (states: seq<State>, events: seq<Event>)
    ensures IsRun(states, events, maxAttempts) && AllDied(states[|events|], maxAttempts)
  {
    states, events := [START], [];
    var a := 0;
    while a < maxAttempts
      invariant a <= maxAttempts && IsRun(states, events, maxAttempts) && AllDied(states[|events|], a)
    {
      var between := DiesRunning(states[|events|], a, maxAttempts);
      var steps := [Deliver, Count(a), WriteStreaming(a), CommitAndRun(a), Crash(a)];
      MoreSteps(states, events, states[|events|], steps, between, maxAttempts);
      states, events := states + between, events + steps;
      a := a + 1;
    }
  }

  /** And the next delivery leaves the request failed. */
  lemma OverCapRun(maxAttempts: nat) returns (states: seq<State>, events: seq<Event>)
    ensures IsRun(states, events, maxAttempts) && states[|events|].db.committed == Row(maxAttempts + 1, Failed)
  {
    states, events := CapIsReached(maxAttempts);
    var a, s := maxAttempts, states[|events|];
    var s0 := Next(s, Deliver, maxAttempts);
    var s1 := Next(s0, Count(a), maxAttempts);
    var s2 := Next(s1, WriteExceeded(a), maxAttempts);
    var between := [s0, s1, s2, Next(s2, CommitAndReturn(a), maxAttempts)];
    var steps := [Deliver, Count(a), WriteExceeded(a), CommitAndReturn(a)];
    MoreSteps(states, events, s, steps, between, maxAttempts);
    states, events := states + between, events + steps;
  }

  // A delivery over the cap that does not leave the request failed

  const ONE_RUNNING := State(Db(Row(1, Streaming), None, Row(1, Streaming)), [Worker(Running, 1, Queued, Streaming)], [0], [0])

  /** The first delivery is at the LLM call. */
  lemma OneRuns() returns (states: seq<State>, events: seq<Event>)
    ensures IsRun(states, events, 1) && states[|events|] == ONE_RUNNING
  {
    var s0 := Next(START, Deliver, 1);
    var s1 := Next(s0, Count(0), 1);
    var s2 := Next(s1, WriteStreaming(0), 1);
    var between, steps := [s0, s1, s2, Next(s2, CommitAndRun(0), 1)], [Deliver, Count(0), WriteStreaming(0), CommitAndRun(0)];
    MoreSteps([START], [], START, steps, between, 1);
    states, events := [START] + between, [] + steps;
  }

  const ANOTHER_FAILED := State(Db(Row(1, Failed), None, Row(1, Failed)),
    [Worker(Running, 1, Queued, Streaming), Worker(Failing, 0, Streaming, Failed), Worker(Loaded, 0, Failed, Failed)], [0], [0])

  /** Another fails on its own meanwhile, and a third finds the request failed. */
  lemma AnotherFails() returns (states: seq<State>, events: seq<Event>)
    ensures IsRun(states, events, 1) && states[|events|] == ANOTHER_FAILED
  {
    states, events := OneRuns();
    var s0 := Next(ONE_RUNNING, Deliver, 1);
    var s1 := Next(s0, Error(1), 1);
    var s2 := Next(s1, WriteError(1), 1);
    var s3 := Next(s2, CommitOutcome(1), 1);
    var between, steps := [s0, s1, s2, s3, Next(s3, Deliver, 1)], [Deliver, Error(1), WriteError(1), CommitOutcome(1), Deliver];
    MoreSteps(states, events, ONE_RUNNING, steps, between, 1);
    states, events := states + between, events + steps;
  }

  /** The first completes the request; the third is over the cap, has nothing to write, and leaves it completed. */
  lemma OverCapLeavesCompleted() returns (states: seq<State>, events: seq<Event>)
    ensures IsRun(states, events, 1) && events != [] && events[|events| - 1] == CommitAndReturn(2)
    ensures states[|events|].db.committed == Row(2, Completed)
  {
    states, events := AnotherFails();
    var s0 := Next(ANOTHER_FAILED, WriteOutcome(0, Completed), 1);
    var s1 := Next(s0, CommitOutcome(0), 1);
    var s2 := Next(s1, Count(2), 1);
    var s3 := Next(s2, WriteExceeded(2), 1);
    var between := [s0, s1, s2, s3, Next(s3, CommitAndReturn(2), 1)];
    var steps := [WriteOutcome(0, Completed), CommitOutcome(0), Count(2), WriteExceeded(2), CommitAndReturn(2)];
    MoreSteps(states, events, ANOTHER_FAILED, steps, between, 1);
    states, events := states + between, events + steps;
  }

  /** A first delivery that runs to the end, and is gone. */
  lemma CompletedRun(maxAttempts: nat) returns (states: seq<State>, events: seq<Event>)
    requires maxAttempts >= 1
    ensures IsRun(states, events, maxAttempts)
    ensures states[|events|] == State(Db(Row(1, Completed), None, Row(1, Completed)), [Worker(Gone, 1, Queued, Completed)], [0], [0])
  {
    states, events := [START], [];
    var steps := [Deliver, Count(0), WriteStreaming(0), CommitAndRun(0), WriteOutcome(0, Completed), CommitOutcome(0), Return(0)];
    var s := START;
    for i := 0 to |steps|
      invariant IsRun(states, events, maxAttempts) && states[|events|] == s
      invariant i == 0 ==> s == START
      invariant i == 1 ==> s == State(START.db, [Worker(Loaded, 0, Queued, Queued)], [], [])
      invariant i == 2 ==> s == State(Db(Row(0, Queued), Some(0), Row(1, Queued)), [Worker(Counting, 1, Queued, Queued)], [], [])
      invariant i == 3 ==> s == State(Db(Row(0, Queued), Some(0), Row(1, Streaming)), [Worker(Preparing, 1, Queued, Streaming)], [], [])
      invariant i == 4 ==> s == State(Db(Row(1, Streaming), None, Row(1, Streaming)), [Worker(Running, 1, Queued, Streaming)], [0], [0])
      invariant i == 5 ==> s == State(Db(Row(1, Streaming), Some(0), Row(1, Completed)), [Worker(Running, 1, Queued, Completed)], [0], [0])
      invariant i == 6 ==> s == State(Db(Row(1, Completed), None, Row(1, Completed)), [Worker(Running, 1, Queued, Completed)], [0], [0])
      invariant i == 7 ==> s == State(Db(Row(1, Completed), None, Row(1, Completed)), [Worker(Gone, 1, Queued, Completed)], [0], [0])
    {
      var s' := Next(s, steps[i], maxAttempts);
      OneMoreStep(states, events, s, steps[i], s', maxAttempts);
      states, events, s := states + [s'], events + [steps[i]], s';
    }
  }

  /** A later delivery of a completed request that errs right after reading the row, as when its first
      stage event cannot be stored, leaves the request failed. */
  lemma CompletedIsOverwritten(maxAttempts: nat) returns (states: seq<State>, events: seq<Event>, i: nat)
    requires maxAttempts >= 1
    ensures IsRun(states, events, maxAttempts) && i <= |events|
    ensures Calm(states[i]) && states[i].db.committed == Row(1, Completed)
    ensures states[|events|].db.committed == Row(1, Failed)
  {
    states, events := CompletedRun(maxAttempts);
    i := |events|;
    var gone, row := Worker(Gone, 1, Queued, Completed), Row(1, Completed);
    var s := states[i];
    var steps := [Deliver, Error(1), WriteError(1), CommitOutcome(1)];
    for n := 0 to |steps|
      invariant IsRun(states, events, maxAttempts) && states[|events|] == s
      invariant i <= |events| && states[i] == State(Db(row, None, row), [gone], [0], [0])
      invariant n == 0 ==> s == states[i]
      invariant n == 1 ==> s == State(Db(row, None, row), [gone, Worker(Loaded, 0, Completed, Completed)], [0], [0])
      invariant n == 2 ==> s == State(Db(row, None, row), [gone, Worker(Failing, 0, Completed, Completed)], [0], [0])
      invariant n == 3 ==> s == State(Db(row, Some(1), Row(1, Failed)), [gone, Worker(Failing, 0, Completed, Failed)], [0], [0])
      invariant n == 4 ==> s.db.committed == Row(1, Failed)
    {
      var s' := Next(s, steps[n], maxAttempts);
      OneMoreStep(states, events, s, steps[n], s', maxAttempts);
      states, events, s := states + [s'], events + [steps[n]], s';
    }
  }
}

/** The work queue of an event loop: any number of threads submit tasks under a mutex and wake the
    loop thread through a non-blocking pipe.  A run is an interleaving of their steps. */
module EventLoopWorker {
  type Task = nat

  /** Where a submitting thread is in submitWork. */
  datatype Stage = Ready | Locked | Pushed | Writing

  /** A submitting thread with the tasks it still has to submit; the first one is under way unless
      the thread is Ready. */
  datatype Submitter = Submitter(stage: Stage, todo: seq<Task>)

  /** Where the loop thread is: waiting for the pipe event, in the read loop of notify_cb (with or
      without a byte read), about to lock, moving the queue, or running the tasks it moved. */
  datatype Loop = Waiting | Reading(some: bool) | WantsLock | Moving | Executing

  datatype Owner = Free | Held(id: nat) | HeldByLoop

  datatype Entry = Entry(id: nat, task: Task)

  datatype State = State(
    submitters: seq<Submitter>,
    loop: Loop,
    owner: Owner,
    queue: seq<Entry>,
    items: seq<Entry>,
    bytes: nat,          // in the pipe
    capacity: nat,       // of the pipe
    submitted: seq<Entry>, // history: pushes in lock order
    executed: seq<Entry>)  // history: tasks run

  predicate Init(s: State) {
    && (forall i :: 0 <= i < |s.submitters| ==> s.submitters[i].stage.Ready?)
    && s.loop.Waiting? && s.owner.Free? && s.queue == [] && s.items == []
    && s.bytes == 0 && s.capacity > 0 && s.submitted == [] && s.executed == []
  }

  // ---- the steps

  predicate CanSubmit(s: State, i: nat) {
    && i < |s.submitters|
    && var c := s.submitters[i];
    && (c.stage.Pushed? || c.todo != [])
    && (c.stage.Ready? ==> s.owner.Free?)
  }

  /** One step of submitWork in thread i: lock, push, unlock, and a write that fails when the pipe
      is full. */
  function Submit(s: State, i: nat): State
    requires CanSubmit(s, i)
  {
    var c := s.submitters[i];
    match c.stage
    case Ready => s.(owner := Held(i), submitters := s.submitters[i := c.(stage := Locked)])
    case Locked =>
      var e := Entry(i, c.todo[0]);
      s.(queue := s.queue + [e], submitted := s.submitted + [e], submitters := s.submitters[i := c.(stage := Pushed)])
    case Pushed => s.(owner := Free, submitters := s.submitters[i := c.(stage := Writing)])
    case Writing =>
      s.(bytes := if s.bytes < s.capacity then s.bytes + 1 else s.bytes,
         submitters := s.submitters[i := Submitter(Ready, c.todo[1..])])
  }

  predicate CanLoop(s: State) {
    match s.loop
    case Waiting => s.bytes > 0
    case WantsLock => s.owner.Free?
    case _ => true
  }

  /** One step of the loop thread: the pipe event, notify_cb and processWork. */
  function Loops(s: State): State
    requires CanLoop(s)
  {
    match s.loop
    case Waiting => s.(loop := Reading(false))
    case Reading(_) =>
      if s.bytes > 0 then s.(bytes := s.bytes - 1, loop := Reading(true)) else s.(loop := WantsLock)
    case WantsLock => s.(owner := HeldByLoop, loop := Moving)
    case Moving =>
      if s.queue != [] then s.(items := s.items + [s.queue[0]], queue := s.queue[1..])
      else s.(owner := Free, loop := Executing)
    case Executing =>
      if s.items != [] then s.(executed := s.executed + [s.items[0]], items := s.items[1..])
      else s.(loop := Waiting)
  }

  predicate Step(s: State, t: State) {
    (CanLoop(s) && t == Loops(s)) || exists i :: 0 <= i < |s.submitters| && CanSubmit(s, i) && t == Submit(s, i)
  }

  /** No thread can take a step. */
  ghost predicate Stuck(s: State) {
    forall t :: !Step(s, t)
  }

  predicate Run(run: seq<State>) {
    && |run| > 0 && Init(run[0])
    && forall k :: 0 < k < |run| ==> Step(run[k - 1], run[k])
  }

  // ---- what every step keeps

  predicate Holds(s: State, i: nat)
    requires i < |s.submitters|
  {
    s.submitters[i].stage.Locked? || s.submitters[i].stage.Pushed?
  }

  predicate WillWrite(s: State, i: nat)
    requires i < |s.submitters|
  {
    s.submitters[i].stage.Pushed? || s.submitters[i].stage.Writing?
  }

  /** The mutex excludes. */
  predicate Excludes(s: State) {
    && (forall i :: 0 <= i < |s.submitters| ==> (Holds(s, i) <==> s.owner == Held(i)))
    && (s.loop.Moving? <==> s.owner.HeldByLoop?)
    && (s.owner.Held? ==> s.owner.id < |s.submitters|)
    && (forall i :: 0 <= i < |s.submitters| ==> s.submitters[i].stage.Ready? || s.submitters[i].todo != [])
  }

  /** No wakeup is lost: work that is queued will be seen. */
  predicate WillWake(s: State) {
    s.queue != [] ==>
      || s.bytes > 0
      || s.loop.Reading? || s.loop.WantsLock? || s.loop.Moving?
      || exists i :: 0 <= i < |s.submitters| && WillWrite(s, i)
  }

  /** Nothing is lost, duplicated or reordered. */
  predicate Conserves(s: State) {
    && s.executed + s.items + s.queue == s.submitted
    && (s.items != [] ==> s.loop.Moving? || s.loop.Executing?)
  }

  predicate Inv(s: State) {
    && Excludes(s) && WillWake(s) && Conserves(s)
    && s.bytes <= s.capacity && s.capacity > 0
    && (s.loop.Reading? && !s.loop.some ==> s.bytes > 0)
  }

  lemma SubmitterKeeps(s: State, i: nat)
    requires Inv(s) && CanSubmit(s, i)
    ensures Inv(Submit(s, i))
  {
    var t := Submit(s, i);
    if s.submitters[i].stage.Locked? {
      assert WillWrite(t, i);
      assert t.executed + t.items + t.queue == (s.executed + s.items + s.queue) + [Entry(i, s.submitters[i].todo[0])];
    } else if s.submitters[i].stage.Pushed? {
      assert Holds(s, i) && WillWrite(t, i);
    } else if s.queue != [] && !s.submitters[i].stage.Writing?
              && exists j :: 0 <= j < |s.submitters| && WillWrite(s, j)
    {
      var j :| 0 <= j < |s.submitters| && WillWrite(s, j);
      assert WillWrite(t, j);
    }
    assert forall j :: 0 <= j < |s.submitters| && j != i ==> (Holds(t, j) <==> Holds(s, j));
  }

  lemma LoopKeeps(s: State)
    requires Inv(s) && CanLoop(s)
    ensures Inv(Loops(s))
  {
    var t := Loops(s);
    LoopKeepsLog(s);
    assert forall j :: 0 <= j < |s.submitters| ==> Holds(t, j) == Holds(s, j) && WillWrite(t, j) == WillWrite(s, j);
    hide Conserves;
  }

  lemma LoopKeepsLog(s: State)
    requires Inv(s) && CanLoop(s)
    ensures Conserves(Loops(s))
  {
    hide WillWake, Excludes;
    if s.loop.Moving? && s.queue != [] {
      assert s.queue == [s.queue[0]] + s.queue[1..];
    } else if s.loop.Executing? && s.items != [] {
      assert s.items == [s.items[0]] + s.items[1..];
    }
  }

  /** Every state of every run keeps the invariant: the mutex excludes, executed, items and queue
      are the tasks in lock order, and queued work will be seen even when a write has failed. */
  lemma {:induction false} RunKeeps(run: seq<State>, k: nat)
    requires Run(run) && k < |run|
    ensures Inv(run[k])
  {
    if k > 0 {
      var s := run[k - 1];
      RunKeeps(run, k - 1);
      assert Step(s, run[k]);
      if CanLoop(s) && run[k] == Loops(s) {
        LoopKeeps(s);
      } else {
        var i :| 0 <= i < |s.submitters| && CanSubmit(s, i) && run[k] == Submit(s, i);
        SubmitterKeeps(s, i);
      }
    }
  }

  // ---- each thread's tasks in its own order

  /** The tasks of thread i in a log. */
  function Of(log: seq<Entry>, i: nat): seq<Task> {
    if log == [] then []
    else if log[|log| - 1].id == i then Of(log[..|log| - 1], i) + [log[|log| - 1].task]
    else Of(log[..|log| - 1], i)
  }

  /** The tasks thread i has still to push. */
  function Unpushed(s: State, i: nat): seq<Task>
    requires i < |s.submitters| && (WillWrite(s, i) ==> s.submitters[i].todo != [])
  {
    if WillWrite(s, i) then s.submitters[i].todo[1..] else s.submitters[i].todo
  }

  /** What thread i has pushed so far and what it still has to push are its tasks in order. */
  ghost predicate InOrder(s: State, tasks: seq<seq<Task>>) {
    && |tasks| == |s.submitters|
    && forall i :: 0 <= i < |tasks| ==>
         && (WillWrite(s, i) ==> s.submitters[i].todo != [])
         && Of(s.submitted, i) + Unpushed(s, i) == tasks[i]
  }

  function Tasks(s: State): seq<seq<Task>> {
    seq(|s.submitters|, i requires 0 <= i < |s.submitters| => s.submitters[i].todo)
  }

  lemma StartsInOrder(s: State)
    requires Init(s)
    ensures InOrder(s, Tasks(s))
  {
  }

  lemma SubmitInOrder(s: State, i: nat, tasks: seq<seq<Task>>)
    requires CanSubmit(s, i) && InOrder(s, tasks)
    ensures InOrder(Submit(s, i), tasks)
  {
    var t := Submit(s, i);
    var todo := s.submitters[i].todo;
    forall j | 0 <= j < |tasks|
      ensures WillWrite(t, j) ==> t.submitters[j].todo != []
      ensures Of(t.submitted, j) + Unpushed(t, j) == tasks[j]
    {
      assert Of(s.submitted, j) + Unpushed(s, j) == tasks[j];
      if s.submitters[i].stage.Locked? {
        assert t.submitted[..|s.submitted|] == s.submitted;
        if j == i { assert todo == [todo[0]] + todo[1..]; }
      }
    }
  }

  lemma LoopInOrder(s: State, tasks: seq<seq<Task>>)
    requires CanLoop(s) && InOrder(s, tasks)
    ensures InOrder(Loops(s), tasks)
  {
    forall i | 0 <= i < |s.submitters| ensures Unpushed(Loops(s), i) == Unpushed(s, i) {
      assert WillWrite(Loops(s), i) == WillWrite(s, i);
    }
  }

  lemma {:induction false} RunInOrder(run: seq<State>, k: nat)
    requires Run(run) && k < |run|
    ensures InOrder(run[k], Tasks(run[0]))
  {
    hide InOrder, Submit, Loops;
    if k == 0 { StartsInOrder(run[0]); }
    if k > 0 {
      var s := run[k - 1];
      RunInOrder(run, k - 1);
      assert Step(s, run[k]);
      if !(CanLoop(s) && run[k] == Loops(s)) {
        var i :| 0 <= i < |s.submitters| && CanSubmit(s, i) && run[k] == Submit(s, i);
        SubmitInOrder(s, i, Tasks(run[0]));
      } else {
        LoopInOrder(s, Tasks(run[0]));
      }
    }
  }

  // ---- no run goes on for ever, and none stops early

  /** Some thread can always step, unless every task has been submitted and run. */
  lemma StuckIsDone(s: State)
    requires Inv(s) && Stuck(s)
    ensures forall i :: 0 <= i < |s.submitters| ==> s.submitters[i] == Submitter(Ready, [])
    ensures s.loop.Waiting? && s.bytes == 0 && s.queue == [] && s.items == [] && s.executed == s.submitted
  {
    if CanLoop(s) {
      assert Step(s, Loops(s));
      assert false;
    } else {
      forall i | 0 <= i < |s.submitters| ensures s.submitters[i] == Submitter(Ready, []) {
        if CanSubmit(s, i) {
          assert Step(s, Submit(s, i));
        } else if s.owner.Held? {
          assert Holds(s, s.owner.id) && CanSubmit(s, s.owner.id);
          assert Step(s, Submit(s, s.owner.id));
        }
      }
    }
  }

  function Weight(c: Submitter): int {
    20 * |c.todo| - match c.stage case Ready => 0 case Locked => 1 case Pushed => 5 case Writing => 6
  }

  function Weights(cs: seq<Submitter>): int {
    if cs == [] then 0 else Weight(cs[0]) + Weights(cs[1..])
  }

  /** How many steps a run can still take, at most. */
  function Budget(s: State): int {
    Weights(s.submitters) + 2 * |s.queue| + |s.items| + 6 * s.bytes +
    match s.loop
    case Waiting => 1
    case Reading(some) => if some then 5 else 0
    case WantsLock => 4
    case Moving => 3
    case Executing => 2
  }

  lemma {:induction false} WeightsUpdate(cs: seq<Submitter>, i: nat, c: Submitter)
    requires i < |cs|
    ensures Weights(cs[i := c]) == Weights(cs) - Weight(cs[i]) + Weight(c)
  {
    if i == 0 {
      assert cs[i := c][1..] == cs[1..];
    } else {
      assert cs[i := c][1..] == cs[1..][i - 1 := c];
      WeightsUpdate(cs[1..], i - 1, c);
    }
  }

  lemma {:induction false} WeightsNatural(cs: seq<Submitter>)
    requires forall i :: 0 <= i < |cs| ==> cs[i].stage.Ready? || cs[i].todo != []
    ensures Weights(cs) >= 0
  {
    if cs != [] { WeightsNatural(cs[1..]); }
  }

  lemma SubmitSpends(s: State, i: nat)
    requires Inv(s) && CanSubmit(s, i)
    ensures Budget(Submit(s, i)) < Budget(s)
  {
    hide WillWake, Conserves, Weights;
    assert Holds(s, i) ==> s.submitters[i].todo != [];
    WeightsUpdate(s.submitters, i, Submit(s, i).submitters[i]);
  }

  lemma LoopSpends(s: State)
    requires Inv(s) && CanLoop(s)
    ensures Budget(Loops(s)) < Budget(s)
  {
    hide WillWake, Conserves, Excludes, Weights;
  }

  lemma StepSpends(s: State, t: State)
    requires Inv(s) && Step(s, t)
    ensures Budget(t) < Budget(s)
  {
    hide Submit, Loops, Budget;
    if CanLoop(s) && t == Loops(s) {
      LoopSpends(s);
    } else {
      var i :| 0 <= i < |s.submitters| && CanSubmit(s, i) && t == Submit(s, i);
      SubmitSpends(s, i);
    }
  }

  /** Every run is finite: it is no longer than the first state's budget allows. */
  lemma {:induction false} RunEnds(run: seq<State>, k: nat)
    requires Run(run) && k < |run|
    ensures 0 <= Budget(run[k]) <= Budget(run[0]) - k
  {
    RunKeeps(run, k);
    WeightsNatural(run[k].submitters);
    if k > 0 {
      RunEnds(run, k - 1);
      RunKeeps(run, k - 1);
      StepSpends(run[k - 1], run[k]);
    }
  }

  /** When nothing can step any more, the loop has run every thread's tasks exactly once, in the
      order that the thread submitted them and in the order in which the mutex was taken. */
  lemma EveryTaskRunsOnce(run: seq<State>)
    requires Run(run) && Stuck(run[|run| - 1])
    ensures var s := run[|run| - 1];
            && s.executed == s.submitted
            && forall i :: 0 <= i < |run[0].submitters| ==> Of(s.executed, i) == run[0].submitters[i].todo
  {
    var s := run[|run| - 1];
    RunKeeps(run, |run| - 1);
    RunInOrder(run, |run| - 1);
    StuckIsDone(s);
    forall i | 0 <= i < |run[0].submitters| ensures Of(s.executed, i) == run[0].submitters[i].todo {
      assert s.submitters[i] == Submitter(Ready, []);
      assert Of(s.submitted, i) + Unpushed(s, i) == Tasks(run[0])[i];
    }
  }
}

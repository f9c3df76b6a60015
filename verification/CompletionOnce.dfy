/**
  The completion closure of a download or an upload.  Success and failure observers put blocks on
  the callback queue that call the stored closure and then clear it.  The closures of the task run one
  at a time on its dispatch queue; those of its fetcher run beside them, and the assignments and fires
  of all of them interleave.
 */
module CompletionOnce {
  import opened Common
  import opened ObserverIndex

  /** getData with its size limit, write(toFile:completion:), and the uploads. */
  datatype Kind = GetData(maxSize: int) | WriteFile | Upload(readable: bool)

  /** What the completion is called with. */
  datatype Outcome = Delivered | TooLarge | FailedWith

  /** Closures on the dispatch queue. */
  datatype Op = OpStart | OpPause | OpResume | OpCancel

  /** One assignment, or one other effect, of a closure. */
  datatype Action = SetState(state: TaskState) | SetCompleted(completed: int) | SetTotal(total: int)
                  | FireFor(status: Status) | RemoveObservers
                  | MakeFetcher | SetFetcherCompletion | ClearFetcherCompletion | BeginFetch
                  | AskResumeData | QueueStart

  /** Blocks on the callback queue: an observer's handler, or the block that it queues. */
  datatype Block = Notify(status: Status) | Deliver(outcome: Outcome)

  /** A block being run: it has read the stored closure, or has called it and not yet cleared it. */
  datatype Phase = Loaded(outcome: Outcome) | Called

  /**
    current is what is left of the closure on the dispatch queue, reports what is left of those of the
    fetcher; invoked and ended record the calls of the completion and whether success or failure was fired.
   */
  datatype Task = Task(
    kind: Kind,
    state: TaskState,
    observers: set<Status>,
    completion: bool,
    fetcher: bool,
    fetching: bool,
    fetcherCompletion: bool,
    awaitingResumeData: bool,
    total: int,
    completed: int,
    dispatch: seq<Op>,
    current: seq<Action>,
    reports: seq<seq<Action>>,
    callbacks: seq<Block>,
    executing: seq<Phase>,
    invoked: seq<Outcome>,
    ended: bool)

  /** The observers that are put in place before the task is enqueued. */
  function InitialObservers(kind: Kind): set<Status> {
    if kind.GetData? then {Success, Failure, Progress} else {Success, Failure}
  }

  /** A task just set up with a completion. */
  function NewTask(kind: Kind): Task {
    Task(kind, StateUnknown, InitialObservers(kind), true, false, false, false, false, 0, 0, [OpStart], [], [], [], [],
         [], false)
  }

  predicate Overflows(s: Task) {
    s.kind.GetData? && (s.total > s.kind.maxSize || s.completed > s.kind.maxSize)
  }

  // ---------- the closures ----------

  predicate Ends(status: Status) {
    status == Success || status == Failure
  }

  /** Only a delivery touches the stored closure. */
  predicate SameCompletion(s: Task, t: Task) {
    t.executing == s.executing && t.completion == s.completion && t.invoked == s.invoked
  }

  function Fire(s: Task, status: Status): (t: Task)
    ensures SameCompletion(s, t)
  {
    s.(callbacks := if status in s.observers then s.callbacks + [Notify(status)] else s.callbacks,
       ended := s.ended || Ends(status))
  }

  function Perform(s: Task, a: Action): (t: Task)
    ensures SameCompletion(s, t)
    ensures t.kind == s.kind && t.current == s.current && t.reports == s.reports
    ensures t.observers == (if a == RemoveObservers then {} else s.observers)
    ensures a != QueueStart ==> t.dispatch == s.dispatch
    ensures a != ClearFetcherCompletion ==> t.fetcherCompletion == (s.fetcherCompletion || a == SetFetcherCompletion)
    ensures t.fetching == (s.fetching || a == BeginFetch)
    ensures a != AskResumeData ==> t.awaitingResumeData == s.awaitingResumeData
    ensures t.callbacks == if a.FireFor? then Fire(s, a.status).callbacks else s.callbacks
    ensures t.ended == (s.ended || (a.FireFor? && Ends(a.status)))
  {
    match a
    case SetState(state) => s.(state := state)
    case SetCompleted(completed) => s.(completed := completed)
    case SetTotal(total) => s.(total := total)
    case FireFor(status) => Fire(s, status)
    case RemoveObservers => s.(observers := {})
    case MakeFetcher => s.(fetcher := true)
    case SetFetcherCompletion => s.(fetcherCompletion := true)
    case ClearFetcherCompletion => s.(fetcherCompletion := false)
    case BeginFetch => s.(fetching := true)
    case AskResumeData => s.(awaitingResumeData := s.awaitingResumeData || s.fetcher)
    case QueueStart => s.(dispatch := s.dispatch + [OpStart])
  }

  /** Firing the last status, then dropping all observers and the fetcher's closure. */
  function Finish(status: Status): seq<Action> {
    [FireFor(status), RemoveObservers, ClearFetcherCompletion]
  }

  function StartActions(kind: Kind): seq<Action> {
    match kind
    case Upload(readable) =>
      if !readable then Finish(Failure)
      else [SetState(Queueing), MakeFetcher, SetState(Running), SetFetcherCompletion, BeginFetch]
    case _ => [SetState(Queueing), MakeFetcher, SetFetcherCompletion, SetState(Running), BeginFetch]
  }

  /** What a closure of the dispatch queue is about to do; only pause looks at the state first. */
  function OpActions(s: Task, op: Op): seq<Action> {
    match op
    case OpStart => StartActions(s.kind)
    case OpPause =>
      if s.kind.Upload? then [SetState(Paused), FireFor(Pause)]
      else if s.state == Paused || s.state == Pausing then []
      else [SetState(Pausing), AskResumeData]
    case OpResume =>
      [SetState(Resuming), FireFor(Resume), SetState(Running)] + if s.kind.Upload? then [] else [QueueStart]
    case OpCancel => [SetState(Cancelled), FireFor(Failure)]
  }

  function ProgressActions(total: int, completed: int): seq<Action> {
    [SetState(Progressing), SetCompleted(completed), SetTotal(total), FireFor(Progress), SetState(Running)]
  }

  /** The fetcher's completion closure, if there still is one. */
  function FetchedActions(s: Task, error: bool): seq<Action> {
    if !s.fetcherCompletion then []
    else
      [FireFor(Progress), SetState(if error then Failed else Succeeded)] + Finish(if error then Failure else Success)
  }

  /** Blocks of the callback queue leave the fetcher and the closures in progress alone. */
  predicate SameFetch(s: Task, t: Task) {
    && t.kind == s.kind && t.observers == s.observers && t.ended == s.ended && t.fetching == s.fetching
    && t.awaitingResumeData == s.awaitingResumeData && t.current == s.current && t.reports == s.reports
  }

  /** An observer's handler: success and failure queue the delivery, progress may cancel. */
  function OnNotify(s: Task, status: Status): (t: Task)
    ensures SameCompletion(s, t) && SameFetch(s, t) && s.dispatch <= t.dispatch
  {
    match status
    case Success => s.(callbacks := s.callbacks + [Deliver(if Overflows(s) then TooLarge else Delivered)])
    case Failure => s.(callbacks := s.callbacks + [Deliver(FailedWith)])
    case Progress => if Overflows(s) then s.(dispatch := s.dispatch + [OpCancel]) else s
    case _ => s
  }

  /** The start of a delivery: the stored closure is read, if there still is one. */
  function OnDeliver(s: Task, outcome: Outcome): Task {
    if s.completion then s.(executing := s.executing + [Loaded(outcome)]) else s
  }

  function Without(phases: seq<Phase>, i: nat): seq<Phase>
    requires i < |phases|
  {
    phases[..i] + phases[i + 1..]
  }

  // ---------- steps ----------

  datatype Step = UserPause | UserResume | UserCancel | UserRemoveObservers | UserRemoveFor(status: Status)
                | Dispatch | RunCurrent
                | ResumeData | ProgressReport(total: int, completed: int) | Fetched(error: bool) | RunReport(i: nat)
                | StartBlock | CallCompletion(i: nat) | ClearCompletion(i: nat)

  /** The dispatch queue is always serial; on a serial callback queue a block starts only when none is running. */
  predicate Enabled(s: Task, step: Step, serial: bool) {
    match step
    case Dispatch => s.dispatch != [] && s.current == []
    case RunCurrent => s.current != []
    case ResumeData => s.awaitingResumeData
    case ProgressReport(_, _) => s.fetching
    case Fetched(_) => s.fetching
    case RunReport(i) => i < |s.reports| && s.reports[i] != []
    case StartBlock => s.callbacks != [] && (serial ==> s.executing == [])
    case CallCompletion(i) => i < |s.executing| && s.executing[i].Loaded?
    case ClearCompletion(i) => i < |s.executing| && s.executing[i].Called?
    case _ => true
  }

  function RunBlock(s: Task, block: Block): Task {
    match block
    case Notify(status) => OnNotify(s, status)
    case Deliver(outcome) => OnDeliver(s, outcome)
  }

  function Do(s: Task, step: Step): Task
    requires Enabled(s, step, false)
  {
    match step
    case UserPause => s.(dispatch := s.dispatch + [OpPause])
    case UserResume => s.(dispatch := s.dispatch + [OpResume])
    case UserCancel => s.(dispatch := s.dispatch + [OpCancel])
    case UserRemoveObservers => s.(observers := {})
    case UserRemoveFor(status) => s.(observers := s.observers - {status})
    case Dispatch => s.(dispatch := s.dispatch[1..], current := OpActions(s, s.dispatch[0]))
    case RunCurrent => Perform(s.(current := s.current[1..]), s.current[0])
    case ResumeData => s.(awaitingResumeData := false, reports := s.reports + [[SetState(Paused), FireFor(Pause)]])
    case ProgressReport(total, completed) => s.(reports := s.reports + [ProgressActions(total, completed)])
    case Fetched(error) => s.(reports := s.reports + [FetchedActions(s, error)])
    case RunReport(i) => Perform(s.(reports := s.reports[i := s.reports[i][1..]]), s.reports[i][0])
    case StartBlock => RunBlock(s.(callbacks := s.callbacks[1..]), s.callbacks[0])
    case CallCompletion(i) =>
      s.(invoked := s.invoked + [s.executing[i].outcome], executing := s.executing[i := Called])
    case ClearCompletion(i) => s.(completion := false, executing := Without(s.executing, i))
  }

  /** The task after the steps, none if one of them is not enabled. */
  function After(kind: Kind, steps: seq<Step>, serial: bool): Option<Task>
    decreases |steps|
  {
    if steps == [] then Some(NewTask(kind))
    else
      var before, step := After(kind, steps[..|steps| - 1], serial), steps[|steps| - 1];
      if before.Some? && Enabled(before.value, step, serial) then Some(Do(before.value, step)) else None
  }

  lemma Begin(kind: Kind, serial: bool)
    ensures After(kind, [], serial) == Some(NewTask(kind))
  {
  }

  lemma Extend(kind: Kind, steps: seq<Step>, serial: bool, step: Step, s: Task) returns (more: seq<Step>, t: Task)
    requires After(kind, steps, serial) == Some(s) && Enabled(s, step, serial)
    ensures more == steps + [step] && t == Do(s, step) && After(kind, more, serial) == Some(t)
  {
    hide Do;
    more, t := steps + [step], Do(s, step);
    assert more[..|more| - 1] == steps && more[|more| - 1] == step;
  }

  // ---------- blocks that lead to the completion ----------

  predicate Leads(b: Block) {
    b.Deliver? || Ends(b.status)
  }

  function LeadCount(blocks: seq<Block>): nat {
    if blocks == [] then 0 else (if Leads(blocks[0]) then 1 else 0) + LeadCount(blocks[1..])
  }

  lemma {:induction false} LeadCountAppend(blocks: seq<Block>, b: Block)
    ensures LeadCount(blocks + [b]) == LeadCount(blocks) + if Leads(b) then 1 else 0
  {
    hide Leads;
    if blocks != [] {
      LeadCountAppend(blocks[1..], b);
      assert (blocks + [b])[1..] == blocks[1..] + [b];
    }
  }

  /** A fire adds a block that leads to the completion exactly when it is of success or failure and is observed. */
  lemma FireLeads(s: Task, status: Status)
    ensures LeadCount(Fire(s, status).callbacks) ==
            LeadCount(s.callbacks) + if Ends(status) && status in s.observers then 1 else 0
  {
    LeadCountAppend(s.callbacks, Notify(status));
  }

  /** A handler passes its lead on to the block that it queues; a delivery takes its own along. */
  lemma BlockLeads(s: Task)
    requires s.callbacks != []
    ensures var block, popped := s.callbacks[0], s.(callbacks := s.callbacks[1..]);
            && SameFetch(s, RunBlock(popped, block)) && s.dispatch <= RunBlock(popped, block).dispatch
            && (block.Notify? ==> SameCompletion(s, RunBlock(popped, block)))
            && LeadCount(RunBlock(popped, block).callbacks) == LeadCount(s.callbacks) - if block.Deliver? then 1 else 0
  {
    hide LeadCount, Overflows, OnNotify;
    var block, popped := s.callbacks[0], s.(callbacks := s.callbacks[1..]);
    CountFirst(s.callbacks);
    if block.Notify? {
      NotifyLeads(popped, block.status);
    }
  }

  lemma NotifyLeads(s: Task, status: Status)
    ensures LeadCount(OnNotify(s, status).callbacks) ==
            LeadCount(s.callbacks) + if Leads(Notify(status)) then 1 else 0
  {
    hide LeadCount, Overflows;
    LeadCountAppend(s.callbacks, Deliver(FailedWith));
    LeadCountAppend(s.callbacks, Deliver(if Overflows(s) then TooLarge else Delivered));
  }

  lemma CountFirst(blocks: seq<Block>)
    requires blocks != []
    ensures LeadCount(blocks) == (if Leads(blocks[0]) then 1 else 0) + LeadCount(blocks[1..])
  {
  }

  // ---------- at most once ----------

  /** One block at a time; the closure is gone, or being cleared, exactly when it has been called. */
  predicate OnceInv(s: Task) {
    && |s.executing| <= 1
    && (s.executing != [] ==> s.completion)
    && |s.invoked| == (if !s.completion || s.executing == [Called] then 1 else 0)
  }

  lemma StepKeepsOnce(s: Task, step: Step)
    requires OnceInv(s) && Enabled(s, step, true)
    ensures OnceInv(Do(s, step))
  {
    hide Perform, OnNotify, OpActions, ProgressActions, FetchedActions;
    match step
    case StartBlock =>
      assert s.executing == [];
      if s.callbacks[0].Deliver? && s.completion {
        assert Do(s, step).executing == [Loaded(s.callbacks[0].outcome)];
      }
    case CallCompletion(i) =>
      assert s.executing == [s.executing[0]];
      assert Do(s, step).executing == [Called];
    case ClearCompletion(i) =>
      assert s.executing == [Called];
      assert Do(s, step).executing == [];
    case _ =>
  }

  lemma {:induction false} SerialRuns(kind: Kind, steps: seq<Step>)
    requires After(kind, steps, true).Some?
    ensures OnceInv(After(kind, steps, true).value)
    decreases |steps|
  {
    hide Do;
    if steps != [] {
      SerialRuns(kind, steps[..|steps| - 1]);
      StepKeepsOnce(After(kind, steps[..|steps| - 1], true).value, steps[|steps| - 1]);
    }
  }

  /**
    An upload of something unreadable fires failure once, from its start, and then has no observers:
    at most one block, one delivery or one call has come of it, on any callback queue.
   */
  predicate UnreadableInv(s: Task) {
    && s.kind == Upload(false) && !s.fetching && !s.awaitingResumeData && s.reports == []
    && (forall a | a in s.current :: a != BeginFetch && a != AskResumeData)
    && LeadCount(s.callbacks) + |s.executing| <= 1
    && LeadCount(s.callbacks) + |s.invoked| + (if s.executing != [] && s.executing[0].Loaded? then 1 else 0) <= 1
    && (|| s.observers == {}
        || s.current == [RemoveObservers, ClearFetcherCompletion]
        || (LeadCount(s.callbacks) == 0 && s.executing == [] && s.invoked == [] &&
            (s.current == Finish(Failure) || (s.current == [] && s.dispatch != [] && s.dispatch[0] == OpStart))))
  }

  lemma UnreadableAction(s: Task)
    requires UnreadableInv(s) && s.current != []
    ensures UnreadableInv(Do(s, RunCurrent))
  {
    hide LeadCount, Perform;
    var popped, a := s.(current := s.current[1..]), s.current[0];
    assert a in s.current && Do(s, RunCurrent) == Perform(popped, a);
    if s.observers != {} && s.current == Finish(Failure) {
      FireLeads(popped, Failure);
      assert popped.current == [RemoveObservers, ClearFetcherCompletion];
    }
    var t := Perform(popped, a);
    assert forall x | x in t.current :: x in s.current;
  }

  lemma UnreadableBlock(s: Task)
    requires UnreadableInv(s) && s.callbacks != []
    ensures UnreadableInv(Do(s, StartBlock))
  {
    hide LeadCount, OnNotify;
    BlockLeads(s);
  }

  lemma UnreadableOp(s: Task)
    requires UnreadableInv(s) && s.current == [] && s.dispatch != []
    ensures UnreadableInv(Do(s, Dispatch))
  {
    hide LeadCount;
  }

  lemma StepKeepsUnreadable(s: Task, step: Step)
    requires UnreadableInv(s) && Enabled(s, step, false)
    ensures UnreadableInv(Do(s, step))
  {
    match step
    case StartBlock => UnreadableBlock(s);
    case RunCurrent => UnreadableAction(s);
    case Dispatch => UnreadableOp(s);
    case _ => hide LeadCount, Perform, OnNotify, OpActions, ProgressActions, FetchedActions;
  }

  lemma {:induction false} UnreadableRuns(steps: seq<Step>)
    requires After(Upload(false), steps, false).Some?
    ensures UnreadableInv(After(Upload(false), steps, false).value)
    decreases |steps|
  {
    hide Do, UnreadableInv;
    if steps == [] {
      assert UnreadableInv(NewTask(Upload(false))) by { UnreadableStart(); }
    } else {
      UnreadableRuns(steps[..|steps| - 1]);
      StepKeepsUnreadable(After(Upload(false), steps[..|steps| - 1], false).value, steps[|steps| - 1]);
    }
  }

  lemma UnreadableStart()
    ensures UnreadableInv(NewTask(Upload(false)))
  {
  }

  /** The completion has been called at most once by the run. */
  predicate OnceAfter(kind: Kind, steps: seq<Step>, serial: bool) {
    var s := After(kind, steps, serial);
    s.Some? ==> |s.value.invoked| <= 1
  }

  /**
    The completion is called at most once in every run exactly when the callback queue is serial or
    the task is an upload that cannot even start.
   */
  lemma CalledAtMostOnce(kind: Kind, serial: bool)
    ensures (forall steps :: OnceAfter(kind, steps, serial)) <==> serial || kind == Upload(false)
  {
    hide After, UnreadableInv, OnceInv;
    if serial {
      forall steps ensures OnceAfter(kind, steps, true) {
        if After(kind, steps, true).Some? {
          SerialRuns(kind, steps);
          OnceBound(After(kind, steps, true).value);
        }
      }
    } else if kind == Upload(false) {
      forall steps ensures OnceAfter(kind, steps, false) {
        if After(kind, steps, false).Some? {
          UnreadableRuns(steps);
          UnreadableBound(After(kind, steps, false).value);
        }
      }
    } else {
      var steps := CalledTwice(kind);
      assert !OnceAfter(kind, steps, false);
    }
  }

  lemma OnceBound(s: Task)
    requires OnceInv(s)
    ensures |s.invoked| <= 1
  {
  }

  lemma UnreadableBound(s: Task)
    requires UnreadableInv(s)
    ensures |s.invoked| <= 1
  {
  }

  // ---------- runs ----------

  predicate Silent(a: Action) {
    !a.FireFor? && a != RemoveObservers && a != QueueStart && a != ClearFetcherCompletion
  }

  /** Nobody but the task itself has been told anything. */
  predicate Unheard(s: Task, t: Task) {
    SameCompletion(s, t) && t.observers == s.observers && t.dispatch == s.dispatch && t.callbacks == s.callbacks
    && t.ended == s.ended
  }

  lemma LastEarly(kind: Kind, steps: seq<Step>, serial: bool)
    requires After(kind, steps, serial).Some? && steps != []
    ensures serial ==>
              var front, last := steps[..|steps| - 1], steps[|steps| - 1];
              RemovedEarly(kind, steps) == EarlyAfter(After(kind, front, true).value, last, RemovedEarly(kind, front))
  {
    hide EarlyAfter;
  }

  /** The rest of a silent closure on the dispatch queue. */
  lemma {:induction false} RunToEnd(kind: Kind, steps: seq<Step>, serial: bool, s: Task)
    returns (more: seq<Step>, t: Task)
    requires After(kind, steps, serial) == Some(s)
    requires forall a | a in s.current :: Silent(a)
    ensures After(kind, more, serial) == Some(t) && t.current == [] && Unheard(s, t) && t.reports == s.reports
    ensures s.fetching || BeginFetch in s.current ==> t.fetching
    ensures s.fetcherCompletion || SetFetcherCompletion in s.current ==> t.fetcherCompletion
    ensures serial ==> RemovedEarly(kind, more) == RemovedEarly(kind, steps)
    decreases |s.current|
  {
    hide After, Perform, RemovedEarly;
    more, t := steps, s;
    if s.current != [] {
      assert Silent(s.current[0]) && forall a | a in s.current :: a == s.current[0] || a in s.current[1..];
      more, t := Extend(kind, steps, serial, RunCurrent, s);
      assert more[..|more| - 1] == steps;
      assert serial ==> RemovedEarly(kind, more) == RemovedEarly(kind, steps) by { LastEarly(kind, more, serial); }
      more, t := RunToEnd(kind, more, serial, t);
    }
  }

  /** A task that has been started and is idle. */
  lemma Started(kind: Kind) returns (steps: seq<Step>, s: Task)
    requires kind != Upload(false)
    ensures After(kind, steps, false) == Some(s)
    ensures s.dispatch == [] && s.current == [] && s.callbacks == [] && s.executing == [] && s.invoked == []
    ensures s.completion && Failure in s.observers
  {
    hide After;
    Begin(kind, false);
    steps, s := Extend(kind, [], false, Dispatch, NewTask(kind));
    steps, s := RunToEnd(kind, steps, false, s);
  }

  lemma CancelOnce(kind: Kind, steps: seq<Step>, s: Task) returns (more: seq<Step>, t: Task)
    requires After(kind, steps, false) == Some(s)
    requires s.dispatch == [] && s.current == [] && Failure in s.observers
    ensures After(kind, more, false) == Some(t)
    ensures t.dispatch == [] && t.current == [] && t.observers == s.observers && t.completion == s.completion
    ensures t.callbacks == s.callbacks + [Notify(Failure)] && t.executing == s.executing && t.invoked == s.invoked
  {
    hide After;
    more, t := Extend(kind, steps, false, UserCancel, s);
    assert t.dispatch == [OpCancel];
    more, t := Extend(kind, more, false, Dispatch, t);
    more, t := Extend(kind, more, false, RunCurrent, t);
    more, t := Extend(kind, more, false, RunCurrent, t);
  }

  /** Two cancels whose deliveries overlap call the completion twice. */
  lemma CalledTwice(kind: Kind) returns (steps: seq<Step>)
    requires kind != Upload(false)
    ensures After(kind, steps, false).Some? && |After(kind, steps, false).value.invoked| == 2
  {
    hide After;
    var s: Task;
    steps, s := Started(kind);
    steps, s := CancelOnce(kind, steps, s);
    steps, s := CancelOnce(kind, steps, s);
    assert s.callbacks == [Notify(Failure), Notify(Failure)];
    steps, s := Extend(kind, steps, false, StartBlock, s);
    steps, s := Extend(kind, steps, false, StartBlock, s);
    assert s.callbacks == [Deliver(FailedWith), Deliver(FailedWith)];
    steps, s := Extend(kind, steps, false, StartBlock, s);
    steps, s := Extend(kind, steps, false, StartBlock, s);
    assert s.executing == [Loaded(FailedWith), Loaded(FailedWith)];
    steps, s := Extend(kind, steps, false, CallCompletion(0), s);
    steps, s := Extend(kind, steps, false, CallCompletion(1), s);
  }

  // ---------- exactly once, when told, and with what ----------

  /** The status, success or failure, that the action fires while it is observed. */
  function ToldBy(s: Task, a: Action): Option<Status> {
    if a.FireFor? && Ends(a.status) && a.status in s.observers then Some(a.status) else None
  }

  function ToldIn(s: Task, step: Step): Option<Status>
    requires Enabled(s, step, false)
  {
    match step
    case RunCurrent => ToldBy(s, s.current[0])
    case RunReport(i) => ToldBy(s, s.reports[i][0])
    case _ => None
  }

  /** Of success and failure, the one an observer was told of first in the run. */
  function FirstTold(kind: Kind, steps: seq<Step>): Option<Status>
    requires After(kind, steps, true).Some?
    decreases |steps|
  {
    if steps == [] then None
    else
      var front, last := steps[..|steps| - 1], steps[|steps| - 1];
      var before := FirstTold(kind, front);
      if before.Some? then before else ToldIn(After(kind, front, true).value, last)
  }

  predicate Told(kind: Kind, steps: seq<Step>)
    requires After(kind, steps, true).Some?
  {
    FirstTold(kind, steps).Some?
  }

  /** At a run of a handler of success: whether a count of the download is above its limit. */
  function OverIn(s: Task, step: Step): Option<bool>
    requires Enabled(s, step, false)
  {
    if step == StartBlock && s.callbacks[0] == Notify(Success) then
      Some(s.kind.GetData? && (s.total > s.kind.maxSize || s.completed > s.kind.maxSize))
    else None
  }

  /** The same at the first run of such a handler. */
  function FirstOver(kind: Kind, steps: seq<Step>): Option<bool>
    requires After(kind, steps, true).Some?
    decreases |steps|
  {
    if steps == [] then None
    else
      var front, last := steps[..|steps| - 1], steps[|steps| - 1];
      var before := FirstOver(kind, front);
      if before.Some? then before else OverIn(After(kind, front, true).value, last)
  }

  /** Nothing has led to the completion. */
  predicate Untouched(s: Task) {
    LeadCount(s.callbacks) == 0 && s.executing == [] && s.invoked == [] && s.completion
  }

  function FirstDelivery(blocks: seq<Block>): Option<Outcome> {
    if blocks == [] then None
    else if blocks[0].Deliver? then Some(blocks[0].outcome)
    else FirstDelivery(blocks[1..])
  }

  /** The first handler of success or failure. */
  function FirstNotice(blocks: seq<Block>): Option<Status> {
    if blocks == [] then None
    else if blocks[0].Notify? && Ends(blocks[0].status) then Some(blocks[0].status)
    else FirstNotice(blocks[1..])
  }

  lemma {:induction false} FirstsAppend(blocks: seq<Block>, b: Block)
    ensures FirstDelivery(blocks + [b]) ==
            if FirstDelivery(blocks).Some? then FirstDelivery(blocks)
            else if b.Deliver? then Some(b.outcome) else None
    ensures FirstNotice(blocks + [b]) ==
            if FirstNotice(blocks).Some? then FirstNotice(blocks)
            else if b.Notify? && Ends(b.status) then Some(b.status) else None
  {
    if blocks != [] {
      FirstsAppend(blocks[1..], b);
      assert (blocks + [b])[1..] == blocks[1..] + [b];
    }
  }

  lemma {:induction false} NoLeads(blocks: seq<Block>)
    requires LeadCount(blocks) == 0
    ensures FirstDelivery(blocks).None? && FirstNotice(blocks).None?
  {
    if blocks != [] {
      NoLeads(blocks[1..]);
    }
  }

  lemma FirstOf(blocks: seq<Block>)
    requires blocks != []
    ensures FirstDelivery(blocks) == if blocks[0].Deliver? then Some(blocks[0].outcome) else FirstDelivery(blocks[1..])
    ensures FirstNotice(blocks) ==
            if blocks[0].Notify? && Ends(blocks[0].status) then Some(blocks[0].status) else FirstNotice(blocks[1..])
  {
  }

  /** The outcome that goes with what was told first. */
  predicate Fits(outcome: Outcome, first: Status, over: Option<bool>) {
    if first == Failure then outcome == FailedWith
    else over.Some? && outcome == if over.value then TooLarge else Delivered
  }

  /** The completion was or will be called with what was told first, however much is told later. */
  predicate ToldInv(s: Task, first: Option<Status>, over: Option<bool>) {
    match first
    case None => Untouched(s) && over.None?
    case Some(status) =>
      && Ends(status)
      && if s.invoked != [] then Fits(s.invoked[0], status, over)
         else if s.executing != [] then s.executing[0].Loaded? && Fits(s.executing[0].outcome, status, over)
         else if FirstDelivery(s.callbacks).Some? then Fits(FirstDelivery(s.callbacks).value, status, over)
         else FirstNotice(s.callbacks) == first && (status == Success ==> over.None?)
  }

  lemma PerformKeepsTold(s: Task, a: Action, first: Option<Status>, over: Option<bool>)
    requires ToldInv(s, first, over)
    ensures ToldInv(Perform(s, a), if first.Some? then first else ToldBy(s, a), over)
  {
    hide LeadCount, Perform, FirstDelivery, FirstNotice;
    if a.FireFor? {
      FireLeads(s, a.status);
      FirstsAppend(s.callbacks, Notify(a.status));
      if first.None? {
        NoLeads(s.callbacks);
      }
    }
  }

  /** A handler of success or failure queues the delivery that fits, if none is queued before it. */
  lemma NoticeKeepsTold(s: Task, first: Option<Status>, over: Option<bool>)
    requires OnceInv(s) && ToldInv(s, first, over) && s.executing == []
    requires s.callbacks != [] && s.callbacks[0].Notify?
    ensures ToldInv(Do(s, StartBlock), first, if over.Some? then over else OverIn(s, StartBlock))
  {
    hide LeadCount, FirstDelivery, FirstNotice, OnDeliver, Perform, OpActions, FetchedActions;
    BlockLeads(s);
    FirstOf(s.callbacks);
    CountFirst(s.callbacks);
    var rest := s.callbacks[1..];
    FirstsAppend(rest, Deliver(FailedWith));
    FirstsAppend(rest, Deliver(TooLarge));
    FirstsAppend(rest, Deliver(Delivered));
  }

  lemma DeliveryKeepsTold(s: Task, first: Option<Status>, over: Option<bool>)
    requires OnceInv(s) && ToldInv(s, first, over) && s.executing == []
    requires s.callbacks != [] && s.callbacks[0].Deliver?
    ensures ToldInv(Do(s, StartBlock), first, over)
  {
    hide LeadCount, FirstDelivery, FirstNotice;
    FirstOf(s.callbacks);
    CountFirst(s.callbacks);
  }

  lemma QueueingKeepsTold(s: Task, step: Step, first: Option<Status>, over: Option<bool>)
    requires OnceInv(s) && ToldInv(s, first, over) && Enabled(s, step, true)
    requires !step.RunCurrent? && !step.RunReport? && !step.StartBlock?
    ensures ToldInv(Do(s, step), first, over)
  {
    hide LeadCount, FirstDelivery, FirstNotice, OpActions, ProgressActions, FetchedActions;
    if step.CallCompletion? || step.ClearCompletion? {
      assert first.Some?;
      assert s.executing == [s.executing[0]];
    }
  }

  lemma ActionKeepsTold(s: Task, first: Option<Status>, over: Option<bool>)
    requires ToldInv(s, first, over) && s.current != []
    ensures ToldInv(Do(s, RunCurrent), if first.Some? then first else ToldBy(s, s.current[0]), over)
  {
    hide Perform, LeadCount, FirstDelivery, FirstNotice;
    PerformKeepsTold(s.(current := s.current[1..]), s.current[0], first, over);
  }

  lemma ReportKeepsTold(s: Task, i: nat, first: Option<Status>, over: Option<bool>)
    requires ToldInv(s, first, over) && i < |s.reports| && s.reports[i] != []
    ensures ToldInv(Do(s, RunReport(i)), if first.Some? then first else ToldBy(s, s.reports[i][0]), over)
  {
    hide Perform, LeadCount, FirstDelivery, FirstNotice;
    PerformKeepsTold(s.(reports := s.reports[i := s.reports[i][1..]]), s.reports[i][0], first, over);
  }

  lemma StepKeepsTold(s: Task, step: Step, first: Option<Status>, over: Option<bool>)
    requires OnceInv(s) && ToldInv(s, first, over) && Enabled(s, step, true)
    ensures ToldInv(Do(s, step), if first.Some? then first else ToldIn(s, step),
                    if over.Some? then over else OverIn(s, step))
  {
    hide Do, OnceInv, ToldBy, ToldInv;
    match step
    case RunCurrent => ActionKeepsTold(s, first, over);
    case RunReport(i) => ReportKeepsTold(s, i, first, over);
    case StartBlock =>
      if s.callbacks[0].Notify? {
        NoticeKeepsTold(s, first, over);
      } else {
        DeliveryKeepsTold(s, first, over);
      }
    case _ => QueueingKeepsTold(s, step, first, over);
  }

  lemma {:induction false} RunsTold(kind: Kind, steps: seq<Step>)
    requires After(kind, steps, true).Some?
    ensures OnceInv(After(kind, steps, true).value)
    ensures ToldInv(After(kind, steps, true).value, FirstTold(kind, steps), FirstOver(kind, steps))
    decreases |steps|
  {
    hide Do, ToldInv, OnceInv, ToldIn, OverIn;
    SerialRuns(kind, steps);
    if steps == [] {
      assert ToldInv(NewTask(kind), None, None) by { NewTaskUntold(kind); }
    } else {
      var front, last := steps[..|steps| - 1], steps[|steps| - 1];
      RunsTold(kind, front);
      StepKeepsTold(After(kind, front, true).value, last, FirstTold(kind, front), FirstOver(kind, front));
    }
  }

  lemma NewTaskUntold(kind: Kind)
    ensures ToldInv(NewTask(kind), None, None)
  {
  }

  predicate Drained(s: Task) {
    s.callbacks == [] && s.executing == []
  }

  /**
    Whenever the callback queue has drained, the completion has been called once if success or failure
    was ever fired with an observer of it in place, and not at all otherwise.  What it was called with is
    decided by which of the two was told first, and for success by the counts when its handler first ran.
   */
  lemma CalledExactlyOnce(kind: Kind, steps: seq<Step>)
    requires After(kind, steps, true).Some? && Drained(After(kind, steps, true).value)
    ensures FirstTold(kind, steps) == Some(Success) ==> FirstOver(kind, steps).Some?
    ensures After(kind, steps, true).value.invoked ==
            if FirstTold(kind, steps).None? then []
            else if FirstTold(kind, steps) == Some(Success) then
              [if FirstOver(kind, steps).value then TooLarge else Delivered]
            else [FailedWith]
  {
    hide After, FirstTold, FirstOver;
    RunsTold(kind, steps);
    var s := After(kind, steps, true).value;
    assert FirstDelivery([]).None? && FirstNotice([]).None?;
    if s.invoked != [] {
      assert s.invoked == [s.invoked[0]];
    }
  }

  // ---------- what the caller removed ----------

  const LAST_STATUSES := {Success, Failure}

  /** Of success and failure, those whose observers the caller has removed before either was fired. */
  function EarlyAfter(s: Task, step: Step, early: set<Status>): set<Status> {
    if s.ended then early
    else if step.UserRemoveObservers? then LAST_STATUSES
    else if step.UserRemoveFor? then early + {step.status} * LAST_STATUSES
    else early
  }

  function RemovedEarly(kind: Kind, steps: seq<Step>): set<Status>
    requires After(kind, steps, true).Some?
    decreases |steps|
  {
    if steps == [] then {}
    else
      var front, last := steps[..|steps| - 1], steps[|steps| - 1];
      EarlyAfter(After(kind, front, true).value, last, RemovedEarly(kind, front))
  }

  /** The closure removes the observers only right after it has fired success or failure. */
  predicate EndsFirst(actions: seq<Action>) {
    forall i :: 0 <= i < |actions| && actions[i] == RemoveObservers ==>
      i > 0 && actions[i - 1].FireFor? && Ends(actions[i - 1].status)
  }

  /** Until the end no closure is about to remove the observers. */
  predicate Guarded(s: Task) {
    s.ended || (EndsFirst(s.current) && forall i :: 0 <= i < |s.reports| ==> EndsFirst(s.reports[i]))
  }

  lemma OpEndsFirst(s: Task, op: Op)
    ensures EndsFirst(OpActions(s, op))
  {
    match op
    case OpStart => StartEndsFirst(s.kind);
    case _ =>
  }

  lemma StartEndsFirst(kind: Kind)
    ensures EndsFirst(StartActions(kind))
  {
  }

  lemma ReportEndsFirst(s: Task, total: int, completed: int, error: bool)
    ensures EndsFirst([SetState(Paused), FireFor(Pause)])
    ensures EndsFirst(ProgressActions(total, completed)) && EndsFirst(FetchedActions(s, error))
  {
  }

  lemma FirstAction(actions: seq<Action>)
    requires EndsFirst(actions) && actions != []
    ensures actions[0] != RemoveObservers
    ensures EndsFirst(actions[1..]) || (actions[0].FireFor? && Ends(actions[0].status))
  {
  }

  lemma ActionKeepsGuarded(s: Task)
    requires Guarded(s) && s.current != []
    ensures Guarded(Do(s, RunCurrent)) && (s.current[0] == RemoveObservers ==> s.ended)
  {
    hide EndsFirst, Perform;
    if !s.ended {
      FirstAction(s.current);
    }
  }

  lemma ReportKeepsGuarded(s: Task, i: nat)
    requires Guarded(s) && i < |s.reports| && s.reports[i] != []
    ensures Guarded(Do(s, RunReport(i))) && (s.reports[i][0] == RemoveObservers ==> s.ended)
  {
    hide EndsFirst, Perform;
    if !s.ended {
      FirstAction(s.reports[i]);
    }
  }

  lemma StepKeepsGuarded(s: Task, step: Step)
    requires Guarded(s) && Enabled(s, step, true)
    ensures Guarded(Do(s, step))
  {
    hide EndsFirst, OpActions, ProgressActions, FetchedActions, OnNotify, Perform;
    match step
    case Dispatch => OpEndsFirst(s, s.dispatch[0]);
    case ResumeData => ReportEndsFirst(s, 0, 0, false);
    case ProgressReport(total, completed) => ReportEndsFirst(s, total, completed, false);
    case Fetched(error) => ReportEndsFirst(s, 0, 0, error);
    case RunCurrent => ActionKeepsGuarded(s);
    case RunReport(i) => ReportKeepsGuarded(s, i);
    case _ =>
  }

  /** Until the end just the observers removed early are missing: with none missing the end is told, with both not. */
  predicate EarlyInv(s: Task, early: set<Status>, told: bool) {
    && early <= LAST_STATUSES
    && (!s.ended ==> !told && (Success in s.observers <==> Success !in early))
    && (!s.ended ==> (Failure in s.observers <==> Failure !in early))
    && (s.ended && Success !in early && Failure !in early ==> told)
    && (Success in early && Failure in early ==> Success !in s.observers && Failure !in s.observers && !told)
  }

  lemma PerformKeepsEarly(s: Task, a: Action, early: set<Status>, told: bool)
    requires EarlyInv(s, early, told) && (a == RemoveObservers ==> s.ended)
    ensures EarlyInv(Perform(s, a), early, told || ToldBy(s, a).Some?)
  {
    hide Perform;
  }

  lemma QueueingKeepsEarly(s: Task, step: Step, early: set<Status>, told: bool)
    requires EarlyInv(s, early, told) && Enabled(s, step, true)
    requires !step.RunCurrent? && !step.RunReport? && !step.StartBlock?
    ensures EarlyInv(Do(s, step), EarlyAfter(s, step, early), told)
  {
    hide OpActions, ProgressActions, FetchedActions;
  }

  lemma BlockKeepsEarly(s: Task, early: set<Status>, told: bool)
    requires EarlyInv(s, early, told) && Enabled(s, StartBlock, true)
    ensures EarlyInv(Do(s, StartBlock), EarlyAfter(s, StartBlock, early), told)
  {
    hide LeadCount, OnNotify;
    BlockLeads(s);
  }

  lemma ActionKeepsEarly(s: Task, early: set<Status>, told: bool)
    requires Guarded(s) && EarlyInv(s, early, told) && s.current != []
    ensures EarlyInv(Do(s, RunCurrent), early, told || ToldBy(s, s.current[0]).Some?)
  {
    hide Guarded, Perform;
    ActionKeepsGuarded(s);
    PerformKeepsEarly(s.(current := s.current[1..]), s.current[0], early, told);
  }

  lemma ReportKeepsEarly(s: Task, i: nat, early: set<Status>, told: bool)
    requires Guarded(s) && EarlyInv(s, early, told) && i < |s.reports| && s.reports[i] != []
    ensures EarlyInv(Do(s, RunReport(i)), early, told || ToldBy(s, s.reports[i][0]).Some?)
  {
    hide Guarded, Perform;
    ReportKeepsGuarded(s, i);
    PerformKeepsEarly(s.(reports := s.reports[i := s.reports[i][1..]]), s.reports[i][0], early, told);
  }

  lemma StepKeepsEarly(s: Task, step: Step, early: set<Status>, told: bool)
    requires Guarded(s) && EarlyInv(s, early, told) && Enabled(s, step, true)
    ensures EarlyInv(Do(s, step), EarlyAfter(s, step, early), told || ToldIn(s, step).Some?)
  {
    hide Do, Guarded, EarlyInv, ToldBy;
    match step
    case RunCurrent => ActionKeepsEarly(s, early, told);
    case RunReport(i) => ReportKeepsEarly(s, i, early, told);
    case StartBlock => BlockKeepsEarly(s, early, told);
    case _ => QueueingKeepsEarly(s, step, early, told);
  }

  lemma {:induction false} RunsEarly(kind: Kind, steps: seq<Step>)
    requires After(kind, steps, true).Some?
    ensures Guarded(After(kind, steps, true).value)
    ensures EarlyInv(After(kind, steps, true).value, RemovedEarly(kind, steps), Told(kind, steps))
    decreases |steps|
  {
    hide Do, EarlyInv, Guarded, ToldIn;
    if steps == [] {
      NewTaskEarly(kind);
    } else {
      var front, last := steps[..|steps| - 1], steps[|steps| - 1];
      RunsEarly(kind, front);
      StepKeepsGuarded(After(kind, front, true).value, last);
      StepKeepsEarly(After(kind, front, true).value, last, RemovedEarly(kind, front), Told(kind, front));
    }
  }

  lemma NewTaskEarly(kind: Kind)
    ensures Guarded(NewTask(kind)) && EarlyInv(NewTask(kind), {}, false)
  {
  }

  /**
    Left alone until success or failure is fired, an ended task has told its observers; with both kinds
    of them removed before, it never does.  With one kind removed it depends on which is fired first.
   */
  lemma EarlyRemovalDecides(kind: Kind, steps: seq<Step>)
    requires After(kind, steps, true).Some?
    ensures RemovedEarly(kind, steps) == {} ==> (Told(kind, steps) <==> After(kind, steps, true).value.ended)
    ensures RemovedEarly(kind, steps) == LAST_STATUSES ==> !Told(kind, steps)
  {
    hide After, FirstTold, RemovedEarly, Guarded;
    RunsEarly(kind, steps);
  }

  // ---------- the callback queue drains ----------

  /** Steps of the callback queue alone. */
  predicate CallbackStep(step: Step) {
    step.StartBlock? || step.CallCompletion? || step.ClearCompletion?
  }

  /** How many steps the blocks can still take. */
  function Weight(blocks: seq<Block>): nat {
    if blocks == [] then 0 else (if blocks[0].Notify? then 4 else 3) + Weight(blocks[1..])
  }

  lemma {:induction false} WeightAppend(blocks: seq<Block>, b: Block)
    ensures Weight(blocks + [b]) == Weight(blocks) + if b.Notify? then 4 else 3
  {
    if blocks != [] {
      WeightAppend(blocks[1..], b);
      assert (blocks + [b])[1..] == blocks[1..] + [b];
    }
  }

  function Left(s: Task): nat {
    Weight(s.callbacks) + if s.executing == [] then 0 else if s.executing[0].Loaded? then 2 else 1
  }

  /** A handler queues at most one block, lighter than the one that ran it. */
  lemma NotifyLeft(s: Task, status: Status)
    ensures Weight(OnNotify(s, status).callbacks) <= Weight(s.callbacks) + 3
  {
    hide Weight, Overflows;
    WeightAppend(s.callbacks, Deliver(FailedWith));
    WeightAppend(s.callbacks, Deliver(if Overflows(s) then TooLarge else Delivered));
  }

  lemma BlockLeft(s: Task)
    requires s.executing == [] && s.callbacks != []
    ensures var t := RunBlock(s.(callbacks := s.callbacks[1..]), s.callbacks[0]);
            Left(t) < Left(s)
  {
    hide OnNotify;
    if s.callbacks[0].Notify? {
      NotifyLeft(s.(callbacks := s.callbacks[1..]), s.callbacks[0].status);
    }
  }

  /** As long as the queue has not drained it can take a step, and gets closer. */
  lemma NextCallback(s: Task) returns (step: Step)
    requires OnceInv(s) && !Drained(s)
    ensures CallbackStep(step) && Enabled(s, step, true)
    ensures Left(Do(s, step)) < Left(s)
  {
    hide RunBlock, Weight, Perform, OpActions, FetchedActions;
    if s.executing == [] {
      step := StartBlock;
      BlockLeft(s);
    } else if s.executing[0].Loaded? {
      step := CallCompletion(0);
    } else {
      step := ClearCompletion(0);
      assert Do(s, step).executing == [];
    }
  }

  lemma {:induction false} Drain(kind: Kind, steps: seq<Step>, s: Task) returns (more: seq<Step>)
    requires After(kind, steps, true) == Some(s)
    ensures forall x | x in more :: CallbackStep(x)
    ensures After(kind, steps + more, true).Some? && Drained(After(kind, steps + more, true).value)
    ensures FirstTold(kind, steps + more) == FirstTold(kind, steps)
    decreases Left(s)
  {
    hide After, OnceInv, Drained, Do, Enabled, Left;
    if Drained(s) {
      more := [];
      assert steps + more == steps;
    } else {
      SerialRuns(kind, steps);
      var step := NextCallback(s);
      var longer, t := Extend(kind, steps, true, step, s);
      assert longer[..|longer| - 1] == steps;
      var rest := Drain(kind, longer, t);
      more := [step] + rest;
      assert steps + more == longer + rest;
    }
  }

  /**
    From any point of any run the callback queue alone can drain; the completion has then been called
    once if an observer was told of success or failure, and not at all otherwise.
   */
  lemma ToldIsCompleted(kind: Kind, steps: seq<Step>) returns (more: seq<Step>)
    requires After(kind, steps, true).Some?
    ensures forall x | x in more :: CallbackStep(x)
    ensures After(kind, steps + more, true).Some? && Drained(After(kind, steps + more, true).value)
    ensures |After(kind, steps + more, true).value.invoked| == if Told(kind, steps) then 1 else 0
    ensures FirstTold(kind, steps) == Some(Failure) ==> After(kind, steps + more, true).value.invoked == [FailedWith]
    ensures FirstTold(kind, steps) == Some(Success) ==> After(kind, steps + more, true).value.invoked != [FailedWith]
  {
    hide After, FirstTold, Drained;
    more := Drain(kind, steps, After(kind, steps, true).value);
    CalledExactlyOnce(kind, steps + more);
  }

  /** Every kind of task has a run in which all observers are removed and the completion is lost. */
  lemma RemovedObserversLoseIt(kind: Kind) returns (steps: seq<Step>)
    ensures After(kind, steps, true).Some?
    ensures var s := After(kind, steps, true).value; s.ended && Drained(s) && s.invoked == []
  {
    hide After;
    Begin(kind, true);
    var s: Task;
    steps, s := Extend(kind, [], true, UserRemoveObservers, NewTask(kind));
    steps, s := Extend(kind, steps, true, Dispatch, s);
    if kind == Upload(false) {
      steps, s := Extend(kind, steps, true, RunCurrent, s);
    } else {
      steps, s := RunToEnd(kind, steps, true, s);
      steps, s := Extend(kind, steps, true, UserCancel, s);
      assert s.dispatch == [OpCancel];
      steps, s := Extend(kind, steps, true, Dispatch, s);
      steps, s := Extend(kind, steps, true, RunCurrent, s);
      steps, s := Extend(kind, steps, true, RunCurrent, s);
    }
  }

  lemma ExtendEarly(kind: Kind, steps: seq<Step>, step: Step, s: Task) returns (more: seq<Step>, t: Task)
    requires After(kind, steps, true) == Some(s) && Enabled(s, step, true)
    ensures t == Do(s, step) && After(kind, more, true) == Some(t)
    ensures RemovedEarly(kind, more) == EarlyAfter(s, step, RemovedEarly(kind, steps))
  {
    hide After, EarlyAfter, Do, RemovedEarly;
    more, t := Extend(kind, steps, true, step, s);
    assert more[..|more| - 1] == steps;
    LastEarly(kind, more, true);
  }

  /** The observers of success removed, and the start begun. */
  lemma BegunUntold(kind: Kind) returns (steps: seq<Step>, s: Task)
    ensures After(kind, steps, true) == Some(s) && RemovedEarly(kind, steps) == {Success}
    ensures s == NewTask(kind).(observers := InitialObservers(kind) - {Success}, dispatch := [],
                                current := StartActions(kind))
  {
    hide After, RemovedEarly;
    Begin(kind, true);
    assert RemovedEarly(kind, []) == {} by { NoneRemoved(kind); }
    steps, s := ExtendEarly(kind, [], UserRemoveFor(Success), NewTask(kind));
    assert RemovedEarly(kind, steps) == {Success};
    steps, s := ExtendEarly(kind, steps, Dispatch, s);
  }

  /** Started, with only the observers of failure, and perhaps of progress, in place. */
  lemma StartedUntold(kind: Kind) returns (steps: seq<Step>, s: Task)
    requires kind != Upload(false)
    ensures After(kind, steps, true) == Some(s) && RemovedEarly(kind, steps) == {Success}
    ensures s.fetching && s.fetcherCompletion && s.reports == [] && !s.ended && Success !in s.observers
    ensures s.callbacks == [] && s.executing == [] && s.invoked == []
  {
    hide After, RemovedEarly;
    steps, s := BegunUntold(kind);
    assert BeginFetch == s.current[4] && (SetFetcherCompletion == s.current[2] || SetFetcherCompletion == s.current[3]);
    steps, s := RunToEnd(kind, steps, true, s);
  }

  lemma NoneRemoved(kind: Kind)
    ensures After(kind, [], true).Some? && RemovedEarly(kind, []) == {}
  {
  }

  /** Removing only the observers of success loses it as well, when the fetch succeeds. */
  lemma RemovedSuccessLosesIt(kind: Kind) returns (steps: seq<Step>)
    requires kind != Upload(false)
    ensures After(kind, steps, true).Some? && RemovedEarly(kind, steps) == {Success}
    ensures var s := After(kind, steps, true).value; s.ended && Drained(s) && s.invoked == []
  {
    hide After, RemovedEarly, Do, Perform, EarlyAfter;
    var s: Task;
    steps, s := StartedUntold(kind);
    steps, s := FetchedWell(kind, steps, s);
    var rest := [RemoveObservers, ClearFetcherCompletion];
    var more := [SetState(Succeeded)] + ([FireFor(Success)] + rest);
    assert [FireFor(Progress)] + more == s.reports[0];
    steps, s := RunFirst(kind, steps, s, FireFor(Progress), more);
    steps, s := RunFirst(kind, steps, s, SetState(Succeeded), [FireFor(Success)] + rest);
    steps, s := RunFirst(kind, steps, s, FireFor(Success), rest);
    if s.callbacks != [] {
      steps, s := ProgressBlock(kind, steps, s);
    }
  }

  lemma FetchedWell(kind: Kind, steps: seq<Step>, s: Task) returns (more: seq<Step>, t: Task)
    requires After(kind, steps, true) == Some(s) && s.fetching && s.fetcherCompletion && s.reports == [] && !s.ended
    ensures After(kind, more, true) == Some(t) && RemovedEarly(kind, more) == RemovedEarly(kind, steps)
    ensures t == s.(reports := [[FireFor(Progress), SetState(Succeeded), FireFor(Success), RemoveObservers,
                                 ClearFetcherCompletion]])
  {
    hide After, RemovedEarly;
    more, t := ExtendEarly(kind, steps, Fetched(false), s);
    var actions := FetchedActions(s, false);
    assert actions == [FireFor(Progress), SetState(Succeeded), FireFor(Success), RemoveObservers,
                       ClearFetcherCompletion];
    assert [] + [actions] == [actions];
  }

  /** The next action of the one report there is, while nothing has ended. */
  lemma RunFirst(kind: Kind, steps: seq<Step>, s: Task, a: Action, rest: seq<Action>)
    returns (more: seq<Step>, t: Task)
    requires After(kind, steps, true) == Some(s) && s.reports == [[a] + rest] && !s.ended
    ensures After(kind, more, true) == Some(t) && RemovedEarly(kind, more) == RemovedEarly(kind, steps)
    ensures t == Perform(s.(reports := [rest]), a)
  {
    hide After, RemovedEarly, Perform;
    more, t := ExtendEarly(kind, steps, RunReport(0), s);
    assert s.reports[0][1..] == rest && s.reports[0 := rest] == [rest];
  }

  lemma ProgressBlock(kind: Kind, steps: seq<Step>, s: Task) returns (more: seq<Step>, t: Task)
    requires After(kind, steps, true) == Some(s) && s.executing == [] && s.callbacks == [Notify(Progress)] && s.ended
    ensures After(kind, more, true) == Some(t) && RemovedEarly(kind, more) == RemovedEarly(kind, steps)
    ensures t.ended && Drained(t) && t.invoked == s.invoked
  {
    hide After, RemovedEarly, Overflows;
    more, t := ExtendEarly(kind, steps, StartBlock, s);
  }

  // ---------- closures run alone ----------

  function PerformAll(s: Task, actions: seq<Action>): Task
    decreases |actions|
  {
    if actions == [] then s else PerformAll(Perform(s, actions[0]), actions[1..])
  }

  function Alone(s: Task, op: Op): Task {
    PerformAll(s, OpActions(s, op))
  }

  lemma PerformFirst(s: Task, a: Action, rest: seq<Action>)
    ensures PerformAll(s, [a] + rest) == PerformAll(Perform(s, a), rest)
    ensures PerformAll(s, []) == s
  {
    hide Perform;
    assert ([a] + rest)[1..] == rest;
  }

  /** The callback queue after a status is fired. */
  function Noticed(s: Task, status: Status): seq<Block> {
    s.callbacks + if status in s.observers then [Notify(status)] else []
  }

  lemma PerformFire(s: Task, status: Status)
    ensures Perform(s, FireFor(status)) == s.(callbacks := Noticed(s, status), ended := s.ended || Ends(status))
  {
    assert s.callbacks + [] == s.callbacks;
  }

  /** What a cancel comes to. */
  lemma CancelAlone(s: Task)
    ensures Alone(s, OpCancel) == s.(state := Cancelled, callbacks := Noticed(s, Failure), ended := true)
  {
    hide PerformAll;
    PerformTwo(s, SetState(Cancelled), FireFor(Failure));
    PerformFire(s.(state := Cancelled), Failure);
  }

  /** What a start comes to. */
  lemma StartAlone(s: Task)
    ensures Alone(s, OpStart) ==
            if s.kind == Upload(false) then
              s.(callbacks := Noticed(s, Failure), observers := {}, fetcherCompletion := false, ended := true)
            else s.(state := Running, fetcher := true, fetcherCompletion := true, fetching := true)
  {
    hide PerformAll, Perform;
    if s.kind == Upload(false) {
      var rest := [RemoveObservers, ClearFetcherCompletion];
      assert Finish(Failure) == [FireFor(Failure)] + rest;
      FinishAlone(s, Failure);
    } else {
      var a := StartActions(s.kind);
      assert a == [a[0]] + ([a[1]] + ([a[2]] + [a[3], a[4]]));
      SetUp(s, a);
    }
  }

  lemma SetUp(s: Task, a: seq<Action>)
    requires |a| == 5 && a == [a[0]] + ([a[1]] + ([a[2]] + [a[3], a[4]]))
    requires a[0] == SetState(Queueing) && a[1] == MakeFetcher && a[4] == BeginFetch
    requires (a[2] == SetFetcherCompletion && a[3] == SetState(Running)) ||
             (a[2] == SetState(Running) && a[3] == SetFetcherCompletion)
    ensures PerformAll(s, a) == s.(state := Running, fetcher := true, fetcherCompletion := true, fetching := true)
  {
    hide PerformAll;
    PerformFirst(s, a[0], [a[1]] + ([a[2]] + [a[3], a[4]]));
    var s1 := s.(state := Queueing);
    PerformFirst(s1, a[1], [a[2]] + [a[3], a[4]]);
    var s2 := s1.(fetcher := true);
    PerformFirst(s2, a[2], [a[3], a[4]]);
    PerformTwo(Perform(s2, a[2]), a[3], a[4]);
  }

  lemma FinishAlone(s: Task, status: Status)
    requires Ends(status)
    ensures PerformAll(s, Finish(status)) ==
            s.(callbacks := Noticed(s, status), observers := {}, fetcherCompletion := false, ended := true)
  {
    hide PerformAll;
    var rest := [RemoveObservers, ClearFetcherCompletion];
    assert Finish(status) == [FireFor(status)] + rest;
    PerformFirst(s, FireFor(status), rest);
    PerformFire(s, status);
    PerformTwo(s.(callbacks := Noticed(s, status), ended := true), RemoveObservers, ClearFetcherCompletion);
  }

  /** What a pause comes to. */
  lemma PauseAlone(s: Task)
    ensures Alone(s, OpPause) ==
            if s.kind.Upload? then s.(state := Paused, callbacks := Noticed(s, Pause))
            else if s.state == Paused || s.state == Pausing then s
            else s.(state := Pausing, awaitingResumeData := s.awaitingResumeData || s.fetcher)
  {
    hide PerformAll;
    if s.kind.Upload? {
      PerformTwo(s, SetState(Paused), FireFor(Pause));
      PerformFire(s.(state := Paused), Pause);
    } else if s.state == Paused || s.state == Pausing {
      PerformFirst(s, AskResumeData, []);
    } else {
      PerformTwo(s, SetState(Pausing), AskResumeData);
    }
  }

  /** What a resume comes to. */
  lemma ResumeAlone(s: Task)
    ensures Alone(s, OpResume) ==
            s.(state := Running, callbacks := Noticed(s, Resume),
               dispatch := s.dispatch + if s.kind.Upload? then [] else [OpStart])
  {
    hide PerformAll;
    var rest := if s.kind.Upload? then [] else [QueueStart];
    assert OpActions(s, OpResume) == [SetState(Resuming)] + ([FireFor(Resume)] + ([SetState(Running)] + rest));
    PerformFirst(s, SetState(Resuming), [FireFor(Resume)] + ([SetState(Running)] + rest));
    var s1 := s.(state := Resuming);
    PerformFirst(s1, FireFor(Resume), [SetState(Running)] + rest);
    PerformFire(s1, Resume);
    var s2 := s1.(callbacks := Noticed(s, Resume));
    PerformFirst(s2, SetState(Running), rest);
    if s.kind.Upload? {
      PerformFirst(s2.(state := Running), QueueStart, []);
      assert s.dispatch + [] == s.dispatch;
    } else {
      PerformTwo(s2.(state := Running), QueueStart, QueueStart);
    }
  }

  /** What a report of progress comes to. */
  lemma ProgressAlone(s: Task, total: int, completed: int)
    ensures PerformAll(s, ProgressActions(total, completed)) ==
            s.(state := Running, total := total, completed := completed, callbacks := Noticed(s, Progress))
  {
    hide PerformAll;
    var last := [FireFor(Progress), SetState(Running)];
    assert ProgressActions(total, completed) ==
           [SetState(Progressing)] + ([SetCompleted(completed)] + ([SetTotal(total)] + last));
    PerformFirst(s, SetState(Progressing), [SetCompleted(completed)] + ([SetTotal(total)] + last));
    var s1 := s.(state := Progressing);
    PerformFirst(s1, SetCompleted(completed), [SetTotal(total)] + last);
    var s2 := s1.(completed := completed);
    PerformFirst(s2, SetTotal(total), last);
    var s3 := s2.(total := total);
    PerformTwo(s3, FireFor(Progress), SetState(Running));
    PerformFire(s3, Progress);
  }

  /** What the end of a fetch comes to, with or without an error. */
  lemma FetchedAlone(s: Task, error: bool)
    ensures PerformAll(s, FetchedActions(s, error)) ==
            if !s.fetcherCompletion then s
            else
              s.(state := if error then Failed else Succeeded,
                 callbacks := Noticed(s, Progress) +
                              (if error && Failure in s.observers then [Notify(Failure)]
                               else if !error && Success in s.observers then [Notify(Success)]
                               else []),
                 observers := {}, fetcherCompletion := false, ended := true)
  {
    hide PerformAll;
    if !s.fetcherCompletion {
      PerformFirst(s, FireFor(Progress), []);
    } else {
      var state, status := if error then Failed else Succeeded, if error then Failure else Success;
      assert FetchedActions(s, error) == [FireFor(Progress)] + ([SetState(state)] + Finish(status));
      PerformFirst(s, FireFor(Progress), [SetState(state)] + Finish(status));
      PerformFire(s, Progress);
      var s1 := s.(callbacks := Noticed(s, Progress));
      PerformFirst(s1, SetState(state), Finish(status));
      FinishAlone(s1.(state := state), status);
    }
  }

  /** A handler of progress cancels a download that has grown too large, and nothing else does. */
  lemma OversizeIsCancelled(s: Task)
    requires s.callbacks != [] && s.callbacks[0] == Notify(Progress)
    ensures Do(s, StartBlock) ==
            s.(callbacks := s.callbacks[1..],
               dispatch := s.dispatch + if Overflows(s) then [OpCancel] else [])
    ensures Overflows(s) <==> s.kind.GetData? && (s.total > s.kind.maxSize || s.completed > s.kind.maxSize)
    ensures s.kind.GetData? ==> Progress in NewTask(s.kind).observers
  {
    assert s.dispatch + [] == s.dispatch;
  }

  /** Pausing a download that is paused or pausing has no effect, as its documentation says. */
  lemma PauseIsIdempotent(s: Task)
    requires !s.kind.Upload?
    ensures Alone(Alone(s, OpPause), OpPause) == Alone(s, OpPause)
  {
    hide Alone;
    PauseAlone(s);
    PauseAlone(Alone(s, OpPause));
  }

  /** Resuming changes nothing only for a running upload that nobody observes; a download is always started again. */
  lemma ResumeWithoutEffect(s: Task)
    ensures Alone(s, OpResume) == s <==> s.kind.Upload? && s.state == Running && Resume !in s.observers
  {
    hide Alone;
    ResumeAlone(s);
    assert |Alone(s, OpResume).dispatch| == |s.dispatch| + if s.kind.Upload? then 0 else 1;
    assert |Alone(s, OpResume).callbacks| == |s.callbacks| + if Resume in s.observers then 1 else 0;
    assert s.dispatch + [] == s.dispatch && s.callbacks + [] == s.callbacks;
  }

  lemma PerformTwo(s: Task, a: Action, b: Action)
    ensures PerformAll(s, [a]) == Perform(s, a)
    ensures PerformAll(s, [a, b]) == Perform(Perform(s, a), b)
  {
    hide Perform;
    assert [a][1..] == [] && [a, b][1..] == [b] && [b][1..] == [];
    var t := Perform(s, a);
    assert PerformAll(s, [a]) == PerformAll(t, []) && PerformAll(s, [a, b]) == PerformAll(t, [b]);
    assert PerformAll(t, [b]) == PerformAll(Perform(t, b), []);
  }

  lemma {:induction false} PerformMore(s: Task, a: seq<Action>, b: seq<Action>)
    ensures PerformAll(s, a + b) == PerformAll(PerformAll(s, a), b)
    decreases |a|
  {
    hide Perform;
    if a == [] {
      assert a + b == b;
    } else {
      assert (a + b)[1..] == a[1..] + b;
      PerformMore(Perform(s, a[0]), a[1..], b);
    }
  }
}

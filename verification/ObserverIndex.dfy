/**
  The observers of a StorageObservableTask, indexed twice: handlers by status and handle, and the
  status of every handle.  First one call at a time, then with the calls of many threads interleaved.
 */
module ObserverIndex {
  import opened Common

  datatype Status = Unknown | Resume | Progress | Pause | Success | Failure

  datatype TaskState = StateUnknown | Queueing | Resuming | Running | Progressing | Pausing | Completing | Failing
                     | Paused | Cancelled | Succeeded | Failed

  datatype Handle = Handle(uuid: nat)
  datatype Handler = Handler(id: nat)

  /** handlerDictionaries and handleToStatusMap. */
  datatype Index = Index(dicts: map<Status, map<Handle, Handler>>, statuses: map<Handle, Status>)

  const KNOWN_STATUSES: set<Status> := {Resume, Pause, Progress, Success, Failure}

  const EMPTY_INDEX := Index(map status | status in KNOWN_STATUSES :: map[], map[])

  function HandlersOf(ix: Index, status: Status): map<Handle, Handler> {
    if status in ix.dicts then ix.dicts[status] else map[]
  }

  // ---------- the writes ----------

  /** The first write of observe: nothing is stored for a status without a dictionary. */
  function StoreHandler(ix: Index, status: Status, handle: Handle, handler: Handler): Index {
    if status in ix.dicts then ix.(dicts := ix.dicts[status := ix.dicts[status][handle := handler]]) else ix
  }

  /** The second write of observe. */
  function StoreStatus(ix: Index, status: Status, handle: Handle): Index {
    ix.(statuses := ix.statuses[handle := status])
  }

  /** The locked part of removeObserver, for the status seen before. */
  function Remove(ix: Index, status: Status, handle: Handle): Index {
    Index(if status in ix.dicts then ix.dicts[status := ix.dicts[status] - {handle}] else ix.dicts,
          ix.statuses - {handle})
  }

  /** The locked part of removeAllObservers(for:), for the handles seen before. */
  function RemoveStatus(ix: Index, status: Status, seen: set<Handle>): Index {
    Index(if status in ix.dicts then ix.dicts[status := map[]] else ix.dicts, ix.statuses - seen)
  }

  function RemoveAll(ix: Index): Index {
    Index(map status | status in ix.dicts :: map[], map[])
  }

  // ---------- calls, one at a time ----------

  function Observe(ix: Index, status: Status, handle: Handle, handler: Handler): Index {
    StoreStatus(StoreHandler(ix, status, handle, handler), status, handle)
  }

  function RemoveObserver(ix: Index, handle: Handle): Index {
    if handle in ix.statuses then Remove(ix, ix.statuses[handle], handle) else ix
  }

  function RemoveObserversFor(ix: Index, status: Status): Index {
    if status in ix.dicts then RemoveStatus(ix, status, ix.dicts[status].Keys) else ix
  }

  /** A handle that no observer has. */
  predicate Fresh(ix: Index, handle: Handle) {
    handle !in ix.statuses && forall status | status in ix.dicts :: handle !in ix.dicts[status]
  }

  /** A handle has a status exactly when it has a handler under that status. */
  ghost predicate Consistent(ix: Index) {
    && ix.dicts.Keys == KNOWN_STATUSES
    && forall handle: Handle, status :: Agrees(ix, handle, status)
  }

  predicate Agrees(ix: Index, handle: Handle, status: Status) {
    (handle in ix.statuses && ix.statuses[handle] == status) <==> handle in HandlersOf(ix, status)
  }

  /** Observing keeps the two maps consistent exactly when the status is one that has a dictionary. */
  lemma ObserveConsistent(ix: Index, status: Status, handle: Handle, handler: Handler)
    requires Consistent(ix) && Fresh(ix, handle)
    ensures Consistent(Observe(ix, status, handle, handler)) <==> status != Unknown
  {
    var after := Observe(ix, status, handle, handler);
    if status == Unknown {
      assert !Agrees(after, handle, Unknown);
    } else {
      forall h: Handle, s ensures Agrees(after, h, s) {
        assert Agrees(ix, h, s) && Agrees(ix, h, status);
      }
    }
  }

  lemma RemovalsConsistent(ix: Index, handle: Handle, status: Status)
    requires Consistent(ix)
    ensures Consistent(RemoveObserver(ix, handle))
    ensures Consistent(RemoveObserversFor(ix, status))
    ensures Consistent(RemoveAll(ix))
  {
    forall h: Handle, s
      ensures Agrees(RemoveObserver(ix, handle), h, s)
      ensures Agrees(RemoveObserversFor(ix, status), h, s)
      ensures Agrees(RemoveAll(ix), h, s)
    {
      assert Agrees(ix, h, s) && Agrees(ix, h, status);
    }
  }

  // ---------- the simple form: one map of registrations ----------

  datatype Registration = Registration(status: Status, handler: Handler)

  type Registry = map<Handle, Registration>

  function Registered(ix: Index): Registry {
    map handle | handle in ix.statuses && handle in HandlersOf(ix, ix.statuses[handle]) ::
      Registration(ix.statuses[handle], HandlersOf(ix, ix.statuses[handle])[handle])
  }

  /** The two maps together behave as one map from handles to registrations. */
  lemma CallsOnRegistry(ix: Index, status: Status, handle: Handle, handler: Handler)
    requires Consistent(ix)
    ensures status != Unknown && Fresh(ix, handle) ==>
              && Consistent(Observe(ix, status, handle, handler))
              && Registered(Observe(ix, status, handle, handler)) ==
                   Registered(ix)[handle := Registration(status, handler)]
    ensures Consistent(RemoveObserver(ix, handle))
    ensures Registered(RemoveObserver(ix, handle)) == Registered(ix) - {handle}
    ensures Consistent(RemoveObserversFor(ix, status))
    ensures Registered(RemoveObserversFor(ix, status)) ==
            map h | h in Registered(ix) && Registered(ix)[h].status != status :: Registered(ix)[h]
    ensures Consistent(RemoveAll(ix)) && Registered(RemoveAll(ix)) == map[]
  {
    if status != Unknown && Fresh(ix, handle) {
      ObserveConsistent(ix, status, handle, handler);
      RegisteredAfterObserve(ix, status, handle, handler);
    }
    RemovalsConsistent(ix, handle, status);
    RegisteredAfterRemove(ix, handle);
    RegisteredAfterRemoveFor(ix, status);
  }

  datatype Call = ObserveCall(status: Status, handle: Handle, handler: Handler) | RemoveCall(handle: Handle)
                | RemoveForCall(status: Status) | RemoveAllCall

  function OnIndex(ix: Index, call: Call): Index {
    match call
    case ObserveCall(status, handle, handler) => Observe(ix, status, handle, handler)
    case RemoveCall(handle) => RemoveObserver(ix, handle)
    case RemoveForCall(status) => RemoveObserversFor(ix, status)
    case RemoveAllCall => RemoveAll(ix)
  }

  function OnRegistry(r: Registry, call: Call): Registry {
    match call
    case ObserveCall(status, handle, handler) => r[handle := Registration(status, handler)]
    case RemoveCall(handle) => r - {handle}
    case RemoveForCall(status) => map h | h in r && r[h].status != status :: r[h]
    case RemoveAllCall => map[]
  }

  function IndexAfter(calls: seq<Call>): Index {
    if calls == [] then EMPTY_INDEX else OnIndex(IndexAfter(calls[..|calls| - 1]), calls[|calls| - 1])
  }

  function RegistryAfter(calls: seq<Call>): Registry {
    if calls == [] then map[] else OnRegistry(RegistryAfter(calls[..|calls| - 1]), calls[|calls| - 1])
  }

  /** Each observe names a status with a dictionary and gets a handle that no observer has. */
  predicate Proper(calls: seq<Call>) {
    forall i | 0 <= i < |calls| && calls[i].ObserveCall? ::
      calls[i].status != Unknown && Fresh(IndexAfter(calls[..i]), calls[i].handle)
  }

  /** Over any sequence of calls the index is consistent and refines one map of registrations. */
  lemma {:induction false} IndexRefinesRegistry(calls: seq<Call>)
    requires Proper(calls)
    ensures Consistent(IndexAfter(calls)) && Registered(IndexAfter(calls)) == RegistryAfter(calls)
    decreases |calls|
  {
    hide Observe, RemoveObserver, RemoveObserversFor, RemoveAll, Fresh, Registered, Consistent;
    if calls == [] {
      assert Consistent(EMPTY_INDEX) && Registered(EMPTY_INDEX) == map[] by { EmptyConsistent(); }
    } else {
      var front, last := calls[..|calls| - 1], calls[|calls| - 1];
      assert forall i | 0 <= i < |front| :: front[i] == calls[i] && front[..i] == calls[..i];
      IndexRefinesRegistry(front);
      var ix := IndexAfter(front);
      match last
      case ObserveCall(status, handle, handler) => CallsOnRegistry(ix, status, handle, handler);
      case RemoveCall(handle) => CallsOnRegistry(ix, Unknown, handle, Handler(0));
      case RemoveForCall(status) => CallsOnRegistry(ix, status, Handle(0), Handler(0));
      case RemoveAllCall => CallsOnRegistry(ix, Unknown, Handle(0), Handler(0));
    }
  }

  lemma EmptyConsistent()
    ensures Consistent(EMPTY_INDEX) && Registered(EMPTY_INDEX) == map[]
  {
  }

  lemma RegisteredAt(ix: Index, h: Handle)
    ensures h in Registered(ix) <==> h in ix.statuses && h in HandlersOf(ix, ix.statuses[h])
    ensures h in Registered(ix) ==>
              Registered(ix)[h] == Registration(ix.statuses[h], HandlersOf(ix, ix.statuses[h])[h])
  {
  }

  lemma RegisteredAfterObserve(ix: Index, status: Status, handle: Handle, handler: Handler)
    requires Consistent(ix) && Fresh(ix, handle) && status != Unknown
    ensures Registered(Observe(ix, status, handle, handler)) == Registered(ix)[handle := Registration(status, handler)]
  {
    hide Registered, Agrees;
    var after := Observe(ix, status, handle, handler);
    var expected := Registered(ix)[handle := Registration(status, handler)];
    forall h: Handle
      ensures h in Registered(after) <==> h in expected
      ensures h in Registered(after) ==> Registered(after)[h] == expected[h]
    {
      RegisteredAt(ix, h);
      RegisteredAt(after, h);
    }
  }

  lemma RegisteredAfterRemove(ix: Index, handle: Handle)
    requires Consistent(ix)
    ensures Registered(RemoveObserver(ix, handle)) == Registered(ix) - {handle}
  {
    hide Registered, Consistent;
    var after, expected := RemoveObserver(ix, handle), Registered(ix) - {handle};
    forall h: Handle
      ensures h in Registered(after) <==> h in expected
      ensures h in Registered(after) ==> Registered(after)[h] == expected[h]
    {
      RegisteredAt(ix, h);
      RegisteredAt(after, h);
    }
  }

  lemma RegisteredAfterRemoveFor(ix: Index, status: Status)
    requires Consistent(ix)
    ensures Registered(RemoveObserversFor(ix, status)) ==
            map h | h in Registered(ix) && Registered(ix)[h].status != status :: Registered(ix)[h]
  {
    hide Registered;
    var after := RemoveObserversFor(ix, status);
    var expected := map h | h in Registered(ix) && Registered(ix)[h].status != status :: Registered(ix)[h];
    forall h: Handle
      ensures h in Registered(after) <==> h in expected
      ensures h in Registered(after) ==> Registered(after)[h] == expected[h]
    {
      RegisteredAt(ix, h);
      RegisteredAt(after, h);
      assert Agrees(ix, h, status);
    }
  }

  // ---------- the object ----------

  class ObservableTask {
    var handlerDictionaries: map<Status, map<Handle, Handler>>
    var handleToStatusMap: map<Handle, Status>
    var state: TaskState
    /** The handles whose handlers were put on the callback queue, in order. */
    var fired: seq<Handle>

    constructor ()
      ensures Current() == EMPTY_INDEX && fired == [] && state == StateUnknown
    {
      handlerDictionaries :=
        map[Resume := map[], Pause := map[], Progress := map[], Success := map[], Failure := map[]];
      handleToStatusMap := map[];
      state := StateUnknown;
      fired := [];
    }

    function Current(): Index
      reads this
    {
      Index(handlerDictionaries, handleToStatusMap)
    }

    method UpdateHandlerDictionary(status: Status, handler: Handler, uuid: Handle)
      modifies this`handlerDictionaries
      ensures Current() == StoreHandler(old(Current()), status, uuid, handler)
    {
      if status in handlerDictionaries {
        handlerDictionaries := handlerDictionaries[status := handlerDictionaries[status][uuid := handler]];
      }
    }

    /** Puts every handler given on the callback queue once, in no particular order. */
    method FireHandlers(handlers: map<Handle, Handler>)
      modifies this`fired
      ensures FiredOnce(old(fired), fired, handlers.Keys)
    {
      var keys := handlers.Keys;
      ghost var added: seq<Handle> := [];
      while keys != {}
        invariant fired == old(fired) + added
        invariant multiset(added) + multiset(keys) == multiset(handlers.Keys)
        decreases |keys|
      {
        var key :| key in keys;
        TakeOne(keys, key);
        fired := fired + [key];
        added := added + [key];
        keys := keys - {key};
      }
      assert fired[|old(fired)|..] == added;
    }

    method Fire(status: Status)
      modifies this`fired
      ensures FiredOnce(old(fired), fired, HandlersOf(Current(), status).Keys)
    {
      if status in handlerDictionaries {
        FireHandlers(handlerDictionaries[status]);
      } else {
        NothingFired(fired);
      }
    }

    /**
      observe, with the fresh handle it makes.  All handlers of the status, the new one among them,
      are fired at once when the task is already in a matching state.
     */
    method ObserveStatus(status: Status, handler: Handler, uuid: Handle) returns (handle: Handle)
      requires Fresh(Current(), uuid)
      modifies this
      ensures handle == uuid && state == old(state)
      ensures Current() == Observe(old(Current()), status, uuid, handler)
      ensures var matches := || (status == Pause && (state == Pausing || state == Paused))
                             || (status == Resume && (state == Resuming || state == Running))
                             || (status == Progress && (state == Running || state == Progressing))
                             || (status == Success && state == Succeeded)
                             || (status == Failure && (state == Failed || state == Failing));
              && old(fired) <= fired
              && multiset(fired[|old(fired)|..]) ==
                   multiset(if matches && status in handlerDictionaries then handlerDictionaries[status].Keys else {})
    {
      UpdateHandlerDictionary(status, handler, uuid);
      NothingFired(fired);
      if status in handlerDictionaries {
        if Matches(status, state) {
          FireHandlers(handlerDictionaries[status]);
        }
      }
      handleToStatusMap := handleToStatusMap[uuid := status];
      handle := uuid;
    }

    method RemoveByHandle(handle: Handle)
      modifies this`handlerDictionaries, this`handleToStatusMap
      ensures Current() == RemoveObserver(old(Current()), handle)
    {
      if handle in handleToStatusMap {
        var status := handleToStatusMap[handle];
        if status in handlerDictionaries {
          handlerDictionaries := handlerDictionaries[status := handlerDictionaries[status] - {handle}];
        }
        handleToStatusMap := handleToStatusMap - {handle};
      }
    }

    method RemoveForStatus(status: Status)
      modifies this`handlerDictionaries, this`handleToStatusMap
      ensures Current() == RemoveObserversFor(old(Current()), status)
    {
      if status in handlerDictionaries {
        var keys := handlerDictionaries[status].Keys;
        ghost var gone: set<Handle> := {};
        while keys != {}
          invariant keys + gone == old(handlerDictionaries)[status].Keys
          invariant handlerDictionaries == old(handlerDictionaries)
          invariant handleToStatusMap == old(handleToStatusMap) - gone
          decreases |keys|
        {
          var key :| key in keys;
          handleToStatusMap := handleToStatusMap - {key};
          keys, gone := keys - {key}, gone + {key};
        }
        handlerDictionaries := handlerDictionaries[status := map[]];
      }
    }

    method RemoveEvery()
      modifies this`handlerDictionaries, this`handleToStatusMap
      ensures Current() == RemoveAll(old(Current()))
    {
      var left := handlerDictionaries.Keys;
      while left != {}
        invariant left <= old(handlerDictionaries).Keys
        invariant handlerDictionaries.Keys == old(handlerDictionaries).Keys
        invariant forall s | s in handlerDictionaries && s !in left :: handlerDictionaries[s] == map[]
        decreases |left|
      {
        var status :| status in left;
        handlerDictionaries := handlerDictionaries[status := map[]];
        left := left - {status};
      }
      handleToStatusMap := map[];
      AllEmptied(old(Current()), Current());
    }
  }

  lemma AllEmptied(before: Index, after: Index)
    requires after.dicts.Keys == before.dicts.Keys && after.statuses == map[]
    requires forall status | status in after.dicts :: after.dicts[status] == map[]
    ensures after == RemoveAll(before)
  {
    assert after.dicts == RemoveAll(before).dicts;
  }

  lemma TakeOne(keys: set<Handle>, key: Handle)
    requires key in keys
    ensures multiset(keys) == multiset{key} + multiset(keys - {key})
  {
    assert keys == {key} + (keys - {key});
  }

  /** The queue grew by each of the handles once. */
  predicate FiredOnce(before: seq<Handle>, after: seq<Handle>, handles: set<Handle>) {
    before <= after && multiset(after[|before|..]) == multiset(handles)
  }

  lemma NothingFired(s: seq<Handle>)
    ensures FiredOnce(s, s, {})
  {
  }

  /** The task states in which a new observer of a status fires at once. */
  predicate Matches(status: Status, state: TaskState) {
    match status
    case Pause => state == Pausing || state == Paused
    case Resume => state == Resuming || state == Running
    case Progress => state == Running || state == Progressing
    case Success => state == Succeeded
    case Failure => state == Failed || state == Failing
    case Unknown => false
  }

  // ---------- calls of many threads ----------

  /** What a thread in the middle of a call still has to do, with what it saw before it took the lock. */
  datatype Pending = Storing(status: Status, handle: Handle)
                   | Removing(status: Status, handle: Handle)
                   | RemovingFor(status: Status, seen: set<Handle>)

  /** issued remembers the status of every handle ever made. */
  datatype System = System(ix: Index, pending: map<nat, Pending>, issued: map<Handle, Status>)

  datatype Step = ObserveBegin(t: nat, status: Status, handle: Handle, handler: Handler)
                | RemoveBegin(t: nat, handle: Handle)
                | RemoveForBegin(t: nat, status: Status)
                | Finish(t: nat)
                | RemoveAllNow

  predicate Enabled(s: System, step: Step) {
    match step
    case ObserveBegin(t, _, handle, _) => t !in s.pending && handle !in s.issued
    case RemoveBegin(t, handle) => t !in s.pending && handle in s.ix.statuses
    case RemoveForBegin(t, status) => t !in s.pending && status in s.ix.dicts
    case Finish(t) => t in s.pending
    case RemoveAllNow => true
  }

  function Complete(ix: Index, p: Pending): Index {
    match p
    case Storing(status, handle) => StoreStatus(ix, status, handle)
    case Removing(status, handle) => Remove(ix, status, handle)
    case RemovingFor(status, seen) => RemoveStatus(ix, status, seen)
  }

  function Do(s: System, step: Step): System
    requires Enabled(s, step)
  {
    match step
    case ObserveBegin(t, status, handle, handler) =>
      System(StoreHandler(s.ix, status, handle, handler), s.pending[t := Storing(status, handle)],
             s.issued[handle := status])
    case RemoveBegin(t, handle) => s.(pending := s.pending[t := Removing(s.ix.statuses[handle], handle)])
    case RemoveForBegin(t, status) => s.(pending := s.pending[t := RemovingFor(status, s.ix.dicts[status].Keys)])
    case Finish(t) => s.(ix := Complete(s.ix, s.pending[t]), pending := s.pending - {t})
    case RemoveAllNow => s.(ix := RemoveAll(s.ix))
  }

  const START := System(EMPTY_INDEX, map[], map[])

  /** The state after the steps, as far as they are enabled. */
  function Run(s: System, steps: seq<Step>): Option<System>
    decreases |steps|
  {
    if steps == [] then Some(s)
    else
      var before, step := Run(s, steps[..|steps| - 1]), steps[|steps| - 1];
      if before.Some? && Enabled(before.value, step) then Some(Do(before.value, step)) else None
  }

  predicate IssuedAs(s: System, handle: Handle, status: Status) {
    handle in s.issued && s.issued[handle] == status
  }

  predicate PendingOk(s: System, p: Pending) {
    match p
    case Storing(status, handle) => IssuedAs(s, handle, status)
    case Removing(status, handle) => IssuedAs(s, handle, status)
    case RemovingFor(status, seen) => forall h | h in seen :: IssuedAs(s, h, status)
  }

  /** An observe of this handle has stored its handler and not yet its status. */
  predicate InFlight(s: System, handle: Handle, status: Status) {
    exists t | t in s.pending :: s.pending[t] == Storing(status, handle)
  }

  /** A live handler has its own status on record, or its observe is in flight. */
  predicate Accounted(s: System, handle: Handle, status: Status) {
    (handle in s.ix.statuses && s.ix.statuses[handle] == status) || InFlight(s, handle, status)
  }

  predicate DictsIssued(s: System) {
    && s.ix.dicts.Keys == KNOWN_STATUSES
    && forall status, h | status in s.ix.dicts && h in s.ix.dicts[status] :: IssuedAs(s, h, status)
  }

  predicate StatusesIssued(s: System) {
    forall h | h in s.ix.statuses :: IssuedAs(s, h, s.ix.statuses[h])
  }

  predicate PendingIssued(s: System) {
    forall t | t in s.pending :: PendingOk(s, s.pending[t])
  }

  predicate AllAccounted(s: System) {
    forall status, h | status in s.ix.dicts && h in s.ix.dicts[status] :: Accounted(s, h, status)
  }

  predicate Inv(s: System) {
    DictsIssued(s) && StatusesIssued(s) && PendingIssued(s) && AllAccounted(s)
  }

  lemma StepKeepsInv(s: System, step: Step)
    requires Inv(s) && Enabled(s, step)
    ensures Inv(Do(s, step))
  {
    hide Do, DictsIssued, StatusesIssued, PendingIssued, AllAccounted;
    StepDictsIssued(s, step);
    StepStatusesIssued(s, step);
    StepPendingIssued(s, step);
    StepAccounted(s, step);
  }

  /** No handle changes the status it was issued for. */
  lemma IssuedStays(s: System, step: Step, h: Handle, status: Status)
    requires Enabled(s, step)
    ensures IssuedAs(s, h, status) ==> IssuedAs(Do(s, step), h, status)
  {
  }

  lemma StepDictsIssued(s: System, step: Step)
    requires DictsIssued(s) && Enabled(s, step)
    ensures DictsIssued(Do(s, step))
  {
    hide IssuedAs;
    var s' := Do(s, step);
    forall status, h | status in s'.ix.dicts && h in s'.ix.dicts[status] ensures IssuedAs(s', h, status) {
      IssuedStays(s, step, h, status);
      if step.ObserveBegin? && step.handle == h {
        BegunIsIssued(s, step, status);
      }
    }
  }

  lemma BegunIsIssued(s: System, step: Step, status: Status)
    requires DictsIssued(s) && Enabled(s, step) && step.ObserveBegin?
    requires step.handle in HandlersOf(Do(s, step).ix, status)
    ensures IssuedAs(Do(s, step), step.handle, status)
  {
  }

  lemma StepStatusesIssued(s: System, step: Step)
    requires StatusesIssued(s) && PendingIssued(s) && Enabled(s, step)
    ensures StatusesIssued(Do(s, step))
  {
    hide IssuedAs;
    var s' := Do(s, step);
    forall h | h in s'.ix.statuses ensures IssuedAs(s', h, s'.ix.statuses[h]) {
      IssuedStays(s, step, h, s'.ix.statuses[h]);
      assert step.Finish? ==> PendingOk(s, s.pending[step.t]);
    }
  }

  lemma StepPendingIssued(s: System, step: Step)
    requires DictsIssued(s) && StatusesIssued(s) && PendingIssued(s) && Enabled(s, step)
    ensures PendingIssued(Do(s, step))
  {
    var s' := Do(s, step);
    forall t | t in s'.pending ensures PendingOk(s', s'.pending[t]) {
      if t in s.pending && s.pending[t] == s'.pending[t] {
        PendingStaysOk(s, step, s.pending[t]);
      }
    }
  }

  lemma PendingStaysOk(s: System, step: Step, p: Pending)
    requires Enabled(s, step) && PendingOk(s, p)
    ensures PendingOk(Do(s, step), p)
  {
    hide Do, IssuedAs;
    forall h: Handle, status ensures IssuedAs(s, h, status) ==> IssuedAs(Do(s, step), h, status) {
      IssuedStays(s, step, h, status);
    }
  }

  lemma StepAccounted(s: System, step: Step)
    requires Inv(s) && Enabled(s, step)
    ensures AllAccounted(Do(s, step))
  {
    hide Accounted, StatusesIssued, IssuedAs, PendingOk;
    var s' := Do(s, step);
    forall status, h | status in s'.ix.dicts && h in s'.ix.dicts[status] ensures Accounted(s', h, status) {
      if step.ObserveBegin? && step.handle == h {
        BegunIsAccounted(s, step, status);
      } else {
        assert h in HandlersOf(s.ix, status);
        StaysAccounted(s, step, status, h);
      }
    }
  }

  lemma BegunIsAccounted(s: System, step: Step, status: Status)
    requires DictsIssued(s) && Enabled(s, step) && step.ObserveBegin?
    requires step.handle in HandlersOf(Do(s, step).ix, status)
    ensures Accounted(Do(s, step), step.handle, status)
  {
    assert Do(s, step).pending[step.t] == Storing(status, step.handle);
  }

  lemma StaysAccounted(s: System, step: Step, status: Status, h: Handle)
    requires Enabled(s, step) && IssuedAs(s, h, status) && Accounted(s, h, status)
    requires step.Finish? ==> PendingOk(s, s.pending[step.t])
    requires h in HandlersOf(Do(s, step).ix, status)
    ensures Accounted(Do(s, step), h, status)
  {
    var s' := Do(s, step);
    if InFlight(s, h, status) {
      var t :| t in s.pending && s.pending[t] == Storing(status, h);
      if step != Finish(t) {
        assert t in s'.pending && s'.pending[t] == Storing(status, h);
      }
    }
  }

  /** In every run of any number of threads no live handler is lost from the index. */
  lemma {:induction false} LiveHandlersAccounted(steps: seq<Step>)
    ensures Run(START, steps).Some? ==> Inv(Run(START, steps).value)
    decreases |steps|
  {
    if steps != [] {
      LiveHandlersAccounted(steps[..|steps| - 1]);
      if Run(START, steps).Some? {
        StepKeepsInv(Run(START, steps[..|steps| - 1]).value, steps[|steps| - 1]);
      }
    }
  }

  /** With no observe in flight, removing by handle can therefore reach every live handler. */
  lemma QuiescentHandlersRemovable(steps: seq<Step>, status: Status, h: Handle)
    requires Run(START, steps).Some?
    requires forall t | t in Run(START, steps).value.pending :: !Run(START, steps).value.pending[t].Storing?
    requires h in HandlersOf(Run(START, steps).value.ix, status)
    ensures var ix := Run(START, steps).value.ix;
            && h in ix.statuses && ix.statuses[h] == status
            && h !in HandlersOf(RemoveObserver(ix, h), status)
  {
    LiveHandlersAccounted(steps);
    assert Accounted(Run(START, steps).value, h, status);
  }

  // ---------- the other direction ----------

  /** A handle with a status still has its handler there. */
  predicate NoOrphan(s: System) {
    forall h | h in s.ix.statuses :: h in HandlersOf(s.ix, s.ix.statuses[h])
  }

  /** An observe in flight still has its handler. */
  predicate NoLostObserve(s: System) {
    forall t | t in s.pending && s.pending[t].Storing? ::
      s.pending[t].handle in HandlersOf(s.ix, s.pending[t].status)
  }

  /** A thread that removes a handle is not at odds with the observe that made it. */
  predicate RemovalsAfterObserves(s: System) {
    forall t, u | t in s.pending && u in s.pending && s.pending[t].Storing? && s.pending[u].Removing? ::
      s.pending[t].handle != s.pending[u].handle
  }

  predicate StoringOnce(s: System) {
    && (forall t | t in s.pending && s.pending[t].Storing? :: s.pending[t].handle !in s.ix.statuses)
    && (forall t, u | t in s.pending && u in s.pending && t != u && s.pending[t].Storing? && s.pending[u].Storing? ::
          s.pending[t].handle != s.pending[u].handle)
  }

  /** What every run keeps, disturbed or not. */
  predicate Sound(s: System) {
    Inv(s) && RemovalsAfterObserves(s) && StoringOnce(s)
  }

  lemma StepKeepsSound(s: System, step: Step)
    requires Sound(s) && Enabled(s, step)
    ensures Sound(Do(s, step))
  {
    StepKeepsInv(s, step);
    StepStoringOnce(s, step);
    StepRemovals(s, step);
  }

  lemma StepStoringOnce(s: System, step: Step)
    requires StatusesIssued(s) && PendingIssued(s) && StoringOnce(s) && Enabled(s, step)
    ensures StoringOnce(Do(s, step))
  {
    assert forall t | t in s.pending :: PendingOk(s, s.pending[t]);
    assert forall h | h in s.ix.statuses :: IssuedAs(s, h, s.ix.statuses[h]);
  }

  lemma StepRemovals(s: System, step: Step)
    requires PendingIssued(s) && RemovalsAfterObserves(s) && StoringOnce(s) && Enabled(s, step)
    ensures RemovalsAfterObserves(Do(s, step))
  {
    assert forall t | t in s.pending :: PendingOk(s, s.pending[t]);
  }

  /** The two maps agree in both directions, observes in flight aside. */
  predicate Agreeing(s: System) {
    NoOrphan(s) && NoLostObserve(s)
  }

  /** An observer names a known status; a bulk removal has seen all that it removes, and hits no observe in flight. */
  predicate Undisturbed(s: System, step: Step)
    requires Enabled(s, step)
  {
    match step
    case ObserveBegin(_, status, _, _) => status != Unknown
    case Finish(t) =>
      s.pending[t].RemovingFor? ==>
        && HandlersOf(s.ix, s.pending[t].status).Keys <= s.pending[t].seen
        && forall u | u in s.pending && s.pending[u].Storing? :: s.pending[u].status != s.pending[t].status
    case RemoveAllNow => forall u | u in s.pending :: !s.pending[u].Storing?
    case _ => true
  }

  /** A step keeps the two maps in agreement exactly when it is undisturbed. */
  lemma AgreementIffUndisturbed(s: System, step: Step)
    requires Sound(s) && Agreeing(s) && Enabled(s, step)
    ensures Agreeing(Do(s, step)) <==> Undisturbed(s, step)
  {
    if Undisturbed(s, step) {
      StepNoOrphan(s, step);
      StepNoLostObserve(s, step);
    } else {
      DisturbedBreaks(s, step);
    }
  }

  lemma InFlightHasHandler(s: System, t: nat)
    requires NoLostObserve(s) && t in s.pending && s.pending[t].Storing?
    ensures s.pending[t].handle in HandlersOf(s.ix, s.pending[t].status)
  {
  }

  lemma StatusHasHandler(s: System, h: Handle)
    requires NoOrphan(s) && StatusesIssued(s) && h in s.ix.statuses
    ensures h in HandlersOf(s.ix, s.ix.statuses[h]) && IssuedAs(s, h, s.ix.statuses[h])
  {
  }

  lemma NotBeingRemoved(s: System, t: nat, u: nat)
    requires RemovalsAfterObserves(s)
    requires t in s.pending && u in s.pending && s.pending[t].Storing? && s.pending[u].Removing?
    ensures s.pending[t].handle != s.pending[u].handle
  {
  }

  lemma KeepsHandler(s: System, step: Step, h: Handle)
    requires Sound(s) && Agreeing(s) && Enabled(s, step) && Undisturbed(s, step)
    requires h in Do(s, step).ix.statuses
    ensures h in HandlersOf(Do(s, step).ix, Do(s, step).ix.statuses[h])
  {
    hide RemovalsAfterObserves, StoringOnce, AllAccounted, NoOrphan, NoLostObserve, DictsIssued, StatusesIssued;
    if step.Finish? && s.pending[step.t] == Storing(Do(s, step).ix.statuses[h], h) {
      InFlightHasHandler(s, step.t);
    } else {
      assert step.Finish? ==> PendingOk(s, s.pending[step.t]);
      StatusHasHandler(s, h);
    }
  }

  lemma StepNoOrphan(s: System, step: Step)
    requires Sound(s) && Agreeing(s) && Enabled(s, step) && Undisturbed(s, step)
    ensures NoOrphan(Do(s, step))
  {
    hide Do, Undisturbed, Sound, Agreeing;
    forall h | h in Do(s, step).ix.statuses ensures h in HandlersOf(Do(s, step).ix, Do(s, step).ix.statuses[h]) {
      KeepsHandler(s, step, h);
    }
  }

  lemma KeepsObserve(s: System, step: Step, t: nat)
    requires Sound(s) && Agreeing(s) && Enabled(s, step) && Undisturbed(s, step)
    requires t in Do(s, step).pending && Do(s, step).pending[t].Storing?
    ensures var p := Do(s, step).pending[t]; p.handle in HandlersOf(Do(s, step).ix, p.status)
  {
    hide NoOrphan, StoringOnce, NoLostObserve, StatusesIssued, AllAccounted, RemovalsAfterObserves;
    if t in s.pending && s.pending[t] == Do(s, step).pending[t] {
      InFlightHasHandler(s, t);
      if step.Finish? && s.pending[step.t].Removing? {
        NotBeingRemoved(s, t, step.t);
      }
    }
  }

  lemma StepNoLostObserve(s: System, step: Step)
    requires Sound(s) && Agreeing(s) && Enabled(s, step) && Undisturbed(s, step)
    ensures NoLostObserve(Do(s, step))
  {
    hide Do, Undisturbed, Sound, Agreeing;
    forall t | t in Do(s, step).pending && Do(s, step).pending[t].Storing?
      ensures Do(s, step).pending[t].handle in HandlersOf(Do(s, step).ix, Do(s, step).pending[t].status)
    {
      KeepsObserve(s, step, t);
    }
  }

  lemma DisturbedBreaks(s: System, step: Step)
    requires Sound(s) && Agreeing(s) && Enabled(s, step) && !Undisturbed(s, step)
    ensures !Agreeing(Do(s, step))
  {
    hide RemovalsAfterObserves, StoringOnce;
    var s' := Do(s, step);
    match step
    case ObserveBegin(t, _, _, _) => assert s'.pending[t].Storing?;
    case RemoveAllNow =>
      var u :| u in s.pending && s.pending[u].Storing?;
      assert s'.pending[u] == s.pending[u];
    case Finish(t) =>
      var status, seen := s.pending[t].status, s.pending[t].seen;
      if u :| u in s.pending && s.pending[u].Storing? && s.pending[u].status == status {
        assert s'.pending[u] == s.pending[u];
      } else {
        var h :| h in HandlersOf(s.ix, status) && h !in seen;
        assert Accounted(s, h, status);
        assert h in s'.ix.statuses && s'.ix.statuses[h] == status;
      }
    case _ =>
  }

  predicate Calm(steps: seq<Step>)
    requires Run(START, steps).Some?
    decreases |steps|
  {
    steps != [] ==>
      && Calm(steps[..|steps| - 1])
      && Undisturbed(Run(START, steps[..|steps| - 1]).value, steps[|steps| - 1])
  }

  /** The two maps have agreed after every step of the run. */
  predicate AgreedThroughout(steps: seq<Step>)
    requires Run(START, steps).Some?
    decreases |steps|
  {
    Agreeing(Run(START, steps).value) && (steps != [] ==> AgreedThroughout(steps[..|steps| - 1]))
  }

  lemma {:induction false} RunsSound(steps: seq<Step>)
    requires Run(START, steps).Some?
    ensures Sound(Run(START, steps).value)
    decreases |steps|
  {
    hide Do, Sound;
    if steps == [] {
      assert Sound(START) by { StartSound(); }
    } else {
      RunsSound(steps[..|steps| - 1]);
      StepKeepsSound(Run(START, steps[..|steps| - 1]).value, steps[|steps| - 1]);
    }
  }

  lemma StartSound()
    ensures Sound(START) && Agreeing(START)
  {
  }

  /** The maps agree all along a run exactly when no step of it is disturbed. */
  lemma {:induction false} CalmIffAgreed(steps: seq<Step>)
    requires Run(START, steps).Some?
    ensures AgreedThroughout(steps) <==> Calm(steps)
    decreases |steps|
  {
    hide Do, Sound, Agreeing, Undisturbed;
    if steps == [] {
      assert Agreeing(START) by { StartSound(); }
    } else {
      var front := steps[..|steps| - 1];
      CalmIffAgreed(front);
      RunsSound(front);
      if Agreeing(Run(START, front).value) {
        AgreementIffUndisturbed(Run(START, front).value, steps[|steps| - 1]);
      }
    }
  }

  predicate NoObserveInFlight(s: System) {
    forall t | t in s.pending :: !s.pending[t].Storing?
  }

  /** With no observe in flight, the index a run leads to is consistent exactly when the maps agree. */
  lemma ConsistentIffAgreeing(steps: seq<Step>)
    requires Run(START, steps).Some? && NoObserveInFlight(Run(START, steps).value)
    ensures Consistent(Run(START, steps).value.ix) <==> Agreeing(Run(START, steps).value)
    ensures Calm(steps) ==> Consistent(Run(START, steps).value.ix)
  {
    hide Run, Calm, StoringOnce, RemovalsAfterObserves;
    var s := Run(START, steps).value;
    RunsSound(steps);
    AgreeingConsistent(s);
    if Calm(steps) {
      CalmIffAgreed(steps);
    }
    if Consistent(s.ix) {
      forall h | h in s.ix.statuses ensures h in HandlersOf(s.ix, s.ix.statuses[h]) {
        assert Agrees(s.ix, h, s.ix.statuses[h]);
      }
    }
  }

  lemma AgreeingConsistent(s: System)
    requires Inv(s) && NoObserveInFlight(s)
    ensures NoOrphan(s) ==> Consistent(s.ix)
  {
    if NoOrphan(s) {
      forall h: Handle, status ensures Agrees(s.ix, h, status) {
        if h in HandlersOf(s.ix, status) {
          assert Accounted(s, h, status);
        }
      }
    }
  }

  /** Disturbed, the index can keep a status for a handler that is gone. */
  lemma DisturbedRun(handler: Handler) returns (steps: seq<Step>)
    ensures Run(START, steps).Some?
    ensures Run(START, steps).value.pending == map[]
    ensures !Consistent(Run(START, steps).value.ix)
  {
    var s1 := ObserveBegin(0, Pause, Handle(7), handler);
    var s2 := RemoveAllNow;
    var s3 := Finish(0);
    steps := [s1, s2, s3];
    assert steps[..2] == [s1, s2] && [s1, s2][..1] == [s1] && [s1][..0] == [];
    assert Run(START, []) == Some(START);
    var a := Do(START, s1);
    assert Run(START, [s1]) == Some(a);
    var b := Do(a, s2);
    assert Run(START, [s1, s2]) == Some(b);
    var c := Do(b, s3);
    assert Run(START, steps) == Some(c);
    assert !Agrees(c.ix, Handle(7), Pause);
    assert c.pending == map[];
  }
}

/**
  The table of string types: a fixed part, and a hash table that grows under a lock.  An add checks
  for an existing entry before it takes the write lock, and again inside.
 */
module StringTable {
  import opened Common

  datatype Entry = Entry(nid: int, minsize: int, maxsize: int, mask: nat, flags: nat)

  // ---------- tables as sequences of entries ----------

  function Find(entries: seq<Entry>, nid: int): (r: Option<Entry>)
    ensures r.Some? ==> r.value in entries && r.value.nid == nid
    ensures r.None? ==> forall e | e in entries :: e.nid != nid
  {
    if entries == [] then None
    else if entries[0].nid == nid then Some(entries[0])
    else Find(entries[1..], nid)
  }

  /** lh_insert: an equal entry is replaced, otherwise the entry is added. */
  function Insert(entries: seq<Entry>, e: Entry): seq<Entry> {
    if entries == [] then [e]
    else if entries[0].nid == e.nid then [e] + entries[1..]
    else [entries[0]] + Insert(entries[1..], e)
  }

  lemma {:induction false} InsertNew(entries: seq<Entry>, e: Entry)
    requires Find(entries, e.nid).None?
    ensures Insert(entries, e) == entries + [e]
  {
    if entries != [] {
      InsertNew(entries[1..], e);
    }
  }

  lemma {:induction false} FindAppend(a: seq<Entry>, b: seq<Entry>, nid: int)
    ensures Find(a + b, nid) == if Find(a, nid).Some? then Find(a, nid) else Find(b, nid)
  {
    if a == [] {
      assert a + b == b;
    } else {
      FindAppend(a[1..], b, nid);
      assert (a + b)[1..] == a[1..] + b;
    }
  }

  function Contents(table: Option<seq<Entry>>): seq<Entry> {
    if table.Some? then table.value else []
  }

  function Lookup(standard: seq<Entry>, entries: seq<Entry>, nid: int): Option<Entry> {
    if Find(standard, nid).Some? then Find(standard, nid) else Find(entries, nid)
  }

  /** The locked section of an add: the table after it and what it returns. */
  function LockedAdd(table: Option<seq<Entry>>, e: Entry): (Option<seq<Entry>>, bool) {
    if table.None? then (Some(Insert([], e)), true)
    else if Find(table.value, e.nid).Some? then (table, false)
    else (Some(Insert(table.value, e)), true)
  }

  // ---------- the code, one call at a time ----------

  class Tables {
    const standard: seq<Entry>
    var table: Option<seq<Entry>>

    constructor (standard: seq<Entry>)
      ensures this.standard == standard && table == None
    {
      this.standard := standard;
      table := None;
    }

    /** asn1_string_table_get */
    method Get(nid: int) returns (tbl: Option<Entry>)
      ensures tbl == Lookup(standard, Contents(table), nid)
      ensures Find(standard, nid).Some? ==> tbl == Find(standard, nid)
      ensures Find(standard, nid).None? ==> tbl == Find(Contents(table), nid)
    {
      tbl := Find(standard, nid);
      if tbl.Some? {
        return;
      }
      if table.Some? {
        tbl := Find(table.value, nid);
      }
    }

    /** The section of ASN1_STRING_TABLE_add under the write lock. */
    method AddLocked(e: Entry) returns (ok: bool)
      modifies this
      ensures (table, ok) == LockedAdd(old(table), e)
      ensures ok ==> Contents(table) == Contents(old(table)) + [e]
    {
      InsertNew([], e);
      if table.None? {
        table := Some([]);
      } else {
        if Find(table.value, e.nid).Some? {
          return false;
        }
      }
      InsertNew(table.value, e);
      var oldTbl := Find(table.value, e.nid);
      table := Some(Insert(table.value, e));
      assert oldTbl.None?;
      ok := true;
    }

    /** ASN1_STRING_TABLE_add with no other thread at work: it succeeds exactly for a fresh nid. */
    method Add(nid: int, minsize: int, maxsize: int, mask: nat, flags: nat) returns (ok: bool)
      modifies this
      ensures ok <==> forall e | e in standard || e in Contents(old(table)) :: e.nid != nid
      ensures Contents(table) == Contents(old(table)) + if ok then [Entry(nid, minsize, maxsize, mask, flags)] else []
    {
      var tbl := Get(nid);
      if tbl.Some? {
        return false;
      }
      ok := AddLocked(Entry(nid, minsize, maxsize, mask, flags));
    }
  }

  // ---------- the protocol with any number of threads ----------

  /** Where a thread is: in the locked read of a get, in that of an add's pre-check, or before the write lock. */
  datatype Pc = Idle | Reading(nid: int) | Prechecking(e: Entry) | Writing(e: Entry)

  /** A call that has returned, with its result. */
  datatype Event = GotFrom(nid: int, result: Option<Entry>) | Added(e: Entry, ok: bool)

  /** The log lists the calls in the order in which they took effect. */
  datatype State = State(standard: seq<Entry>, table: Option<seq<Entry>>, threads: map<nat, Pc>, log: seq<Event>)

  datatype Step = CallGet(t: nat, nid: int) | ReadLocked(t: nat) | CallAdd(t: nat, e: Entry)
                | PrecheckLocked(t: nat) | WriteLocked(t: nat)

  function PcOf(s: State, t: nat): Pc {
    if t in s.threads then s.threads[t] else Idle
  }

  predicate Enabled(s: State, step: Step) {
    match step
    case CallGet(t, _) => PcOf(s, t).Idle?
    case ReadLocked(t) => PcOf(s, t).Reading?
    case CallAdd(t, _) => PcOf(s, t).Idle?
    case PrecheckLocked(t) => PcOf(s, t).Prechecking?
    case WriteLocked(t) => PcOf(s, t).Writing?
  }

  function At(s: State, t: nat, pc: Pc): State {
    s.(threads := s.threads[t := pc])
  }

  function Log(s: State, event: Event): State {
    s.(log := s.log + [event])
  }

  function Do(s: State, step: Step): State
    requires Enabled(s, step)
  {
    match step
    case CallGet(t, nid) =>
      var tbl := Find(s.standard, nid);
      if tbl.Some? then Log(s, GotFrom(nid, tbl)) else At(s, t, Reading(nid))
    case ReadLocked(t) =>
      var nid := PcOf(s, t).nid;
      Log(At(s, t, Idle), GotFrom(nid, if s.table.Some? then Find(s.table.value, nid) else None))
    case CallAdd(t, e) =>
      if Find(s.standard, e.nid).Some? then Log(s, Added(e, false)) else At(s, t, Prechecking(e))
    case PrecheckLocked(t) =>
      var e := PcOf(s, t).e;
      if s.table.Some? && Find(s.table.value, e.nid).Some? then Log(At(s, t, Idle), Added(e, false))
      else At(s, t, Writing(e))
    case WriteLocked(t) =>
      var e := PcOf(s, t).e;
      var (table, ok) := LockedAdd(s.table, e);
      Log(At(s, t, Idle).(table := table), Added(e, ok))
  }

  predicate Initial(s: State) {
    s.table.None? && s.threads == map[] && s.log == []
  }

  /** The states of a run, each but the first made by one step. */
  ghost predicate IsRun(states: seq<State>) {
    && states != []
    && Initial(states[0])
    && forall i :: 0 <= i < |states| - 1 ==> Follows(states[i], states[i + 1])
  }

  ghost predicate Follows(s: State, s': State) {
    exists step :: Enabled(s, step) && Do(s, step) == s'
  }

  // ---------- every run is a serial one ----------

  /** The entries that the successful adds of a log make, in order. */
  function Successes(log: seq<Event>): seq<Entry> {
    if log == [] then []
    else
      var last := log[|log| - 1];
      Successes(log[..|log| - 1]) + if last.Added? && last.ok then [last.e] else []
  }

  /** What a call executed alone, on the entries given, would return. */
  predicate SerialResult(standard: seq<Entry>, entries: seq<Entry>, event: Event) {
    match event
    case GotFrom(nid, result) => result == Lookup(standard, entries, nid)
    case Added(e, ok) => ok <==> Lookup(standard, entries, e.nid).None?
  }

  /** Each call returned what it would have in the serial execution of the log. */
  predicate Serial(standard: seq<Entry>, log: seq<Event>) {
    log == [] ||
    (&& Serial(standard, log[..|log| - 1])
     && SerialResult(standard, Successes(log[..|log| - 1]), log[|log| - 1]))
  }

  /** No thread past its look at the fixed table works on a nid of that table. */
  predicate PcOk(standard: seq<Entry>, pc: Pc) {
    match pc
    case Idle => true
    case Reading(nid) => Find(standard, nid).None?
    case Prechecking(e) => Find(standard, e.nid).None?
    case Writing(e) => Find(standard, e.nid).None?
  }

  predicate Inv(s: State) {
    && Serial(s.standard, s.log)
    && Contents(s.table) == Successes(s.log)
    && forall t | t in s.threads :: PcOk(s.standard, s.threads[t])
  }

  lemma LogOne(s: State, event: Event)
    requires Serial(s.standard, s.log) && SerialResult(s.standard, Successes(s.log), event)
    ensures Serial(s.standard, s.log + [event])
    ensures Successes(s.log + [event]) == Successes(s.log) + if event.Added? && event.ok then [event.e] else []
  {
    assert (s.log + [event])[..|s.log|] == s.log;
  }

  lemma StepKeepsInv(s: State, step: Step)
    requires Inv(s) && Enabled(s, step)
    ensures Inv(Do(s, step))
    ensures Do(s, step).standard == s.standard && s.log <= Do(s, step).log
  {
    hide Serial, Successes, Find, Insert, SerialResult;
    match step
    case CallGet(t, nid) =>
      if Find(s.standard, nid).Some? {
        assert SerialResult(s.standard, Successes(s.log), GotFrom(nid, Find(s.standard, nid))) by {
          GetIsSerial(s, nid);
        }
        LogOne(s, GotFrom(nid, Find(s.standard, nid)));
      }
    case ReadLocked(t) =>
      var nid := PcOf(s, t).nid;
      GetIsSerial(s, nid);
      LogOne(s, GotFrom(nid, if s.table.Some? then Find(s.table.value, nid) else None));
    case CallAdd(t, e) =>
      if Find(s.standard, e.nid).Some? {
        FailedAddIsSerial(s, e);
        LogOne(s, Added(e, false));
      }
    case PrecheckLocked(t) =>
      var e := PcOf(s, t).e;
      if s.table.Some? && Find(s.table.value, e.nid).Some? {
        FailedAddIsSerial(s, e);
        LogOne(s, Added(e, false));
      }
    case WriteLocked(t) =>
      var e := PcOf(s, t).e;
      WriteIsSerial(s, e);
      LogOne(s, Added(e, LockedAdd(s.table, e).1));
  }

  lemma GetIsSerial(s: State, nid: int)
    requires Inv(s)
    ensures var r := if Find(s.standard, nid).Some? then Find(s.standard, nid)
                     else if s.table.Some? then Find(s.table.value, nid) else None;
            SerialResult(s.standard, Successes(s.log), GotFrom(nid, r))
  {
  }

  lemma FailedAddIsSerial(s: State, e: Entry)
    requires Inv(s)
    requires Find(s.standard, e.nid).Some? || (s.table.Some? && Find(s.table.value, e.nid).Some?)
    ensures SerialResult(s.standard, Successes(s.log), Added(e, false))
  {
  }

  lemma WriteIsSerial(s: State, e: Entry)
    requires Inv(s) && Find(s.standard, e.nid).None?
    ensures var (table, ok) := LockedAdd(s.table, e);
            && SerialResult(s.standard, Successes(s.log), Added(e, ok))
            && Contents(table) == Contents(s.table) + if ok then [e] else []
  {
    InsertNew([], e);
    if s.table.Some? && Find(s.table.value, e.nid).None? {
      InsertNew(s.table.value, e);
    }
  }

  lemma FollowsKeepsInv(s: State, s': State)
    requires Inv(s) && Follows(s, s')
    ensures Inv(s') && s'.standard == s.standard && s.log <= s'.log
  {
    hide Inv, Do, Enabled;
    var step :| Enabled(s, step) && Do(s, step) == s';
    StepKeepsInv(s, step);
  }

  /** In every run the calls return what a serial execution in the order of the log returns. */
  lemma {:induction false} RunsAreSerial(states: seq<State>, i: nat)
    requires IsRun(states) && i < |states|
    ensures Inv(states[i])
    ensures states[i].standard == states[0].standard
  {
    hide Follows, Serial;
    if i == 0 {
      assert Inv(states[0]) by { InitialInv(states[0]); }
    } else {
      RunsAreSerial(states, i - 1);
      assert Follows(states[i - 1], states[i - 1 + 1]);
      FollowsKeepsInv(states[i - 1], states[i]);
    }
  }

  lemma InitialInv(s: State)
    requires Initial(s)
    ensures Inv(s)
  {
  }

  lemma {:induction false} LogGrows(states: seq<State>, i: nat, j: nat)
    requires IsRun(states) && i <= j < |states|
    ensures states[i].log <= states[j].log
    decreases j - i
  {
    hide Follows, Inv, Initial;
    if i < j {
      LogGrows(states, i, j - 1);
      RunsAreSerial(states, j - 1);
      assert Follows(states[j - 1], states[j - 1 + 1]);
      FollowsKeepsInv(states[j - 1], states[j]);
    }
  }

  // ---------- what follows from it ----------

  lemma {:induction false} SuccessesGrow(log: seq<Event>, more: seq<Event>)
    requires log <= more
    ensures Successes(log) <= Successes(more)
    decreases |more|
  {
    if |log| < |more| {
      SuccessesGrow(log, more[..|more| - 1]);
    } else {
      assert log == more;
    }
  }

  /** Entries are only added: at the end, each older table is a prefix of each newer one. */
  lemma EntriesStay(states: seq<State>, i: nat, j: nat)
    requires IsRun(states) && i <= j < |states|
    ensures Contents(states[i].table) <= Contents(states[j].table)
  {
    RunsAreSerial(states, i);
    RunsAreSerial(states, j);
    LogGrows(states, i, j);
    SuccessesGrow(states[i].log, states[j].log);
  }

  lemma {:induction false} SerialAt(standard: seq<Entry>, log: seq<Event>, k: nat)
    requires Serial(standard, log) && k < |log|
    ensures SerialResult(standard, Successes(log[..k]), log[k])
    decreases |log|
  {
    var front := log[..|log| - 1];
    if k < |front| {
      SerialAt(standard, front, k);
      assert front[..k] == log[..k];
    }
  }

  /** An entry once returned is found ever after. */
  lemma FoundForever(states: seq<State>, j: nat, k: nat)
    requires IsRun(states) && j < |states| && k < |states[j].log|
    requires states[j].log[k].GotFrom? && states[j].log[k].result.Some?
    ensures var event := states[j].log[k];
            Lookup(states[j].standard, Contents(states[j].table), event.nid) == event.result
  {
    var s := states[j];
    RunsAreSerial(states, j);
    SerialAt(s.standard, s.log, k);
    SuccessesGrow(s.log[..k], s.log);
    var before, now := Successes(s.log[..k]), Successes(s.log);
    assert now == before + now[|before|..];
    FindAppend(before, now[|before|..], s.log[k].nid);
  }

  lemma {:induction false} SuccessInTable(log: seq<Event>, k: nat)
    requires k < |log| && log[k].Added? && log[k].ok
    ensures log[k].e in Successes(log)
    decreases |log|
  {
    if k < |log| - 1 {
      SuccessInTable(log[..|log| - 1], k);
    }
  }

  /** Of all the adds for one nid at most one succeeds. */
  lemma OneAddSucceeds(states: seq<State>, i: nat, j: nat, k: nat)
    requires IsRun(states) && i < |states| && j < k < |states[i].log|
    requires states[i].log[j].Added? && states[i].log[k].Added? && states[i].log[j].e.nid == states[i].log[k].e.nid
    ensures !(states[i].log[j].ok && states[i].log[k].ok)
  {
    var log := states[i].log;
    if log[j].ok && log[k].ok {
      RunsAreSerial(states, i);
      SerialAt(states[i].standard, log, k);
      SuccessInTable(log[..k], j);
    }
  }

  /** The entries added have distinct nids, none of them a nid of the fixed table. */
  lemma {:induction false} EntriesDistinct(standard: seq<Entry>, log: seq<Event>)
    requires Serial(standard, log)
    ensures var es := Successes(log);
            Distinct(es) && forall e | e in es :: Find(standard, e.nid).None?
    decreases |log|
  {
    if log != [] {
      EntriesDistinct(standard, log[..|log| - 1]);
      var before, last := Successes(log[..|log| - 1]), log[|log| - 1];
      if last.Added? && last.ok {
        assert Find(before, last.e.nid).None?;
        forall i, j | 0 <= i < j < |before + [last.e]|
          ensures (before + [last.e])[i].nid != (before + [last.e])[j].nid
        {
          if j == |before| {
            assert before[i] in before;
          }
        }
      }
    }
  }

  predicate Distinct(es: seq<Entry>) {
    forall i, j :: 0 <= i < j < |es| ==> es[i].nid != es[j].nid
  }

  /** At no time does the table hold two entries for a nid, or one that the fixed table has. */
  lemma NoShadowing(states: seq<State>, i: nat)
    requires IsRun(states) && i < |states|
    ensures var es := Contents(states[i].table);
            Distinct(es) && forall e | e in es :: Find(states[i].standard, e.nid).None?
  {
    RunsAreSerial(states, i);
    EntriesDistinct(states[i].standard, states[i].log);
  }

  /** A failed add is not a silent one: its nid has an entry from then on. */
  lemma FailedAddMeansPresent(states: seq<State>, j: nat, k: nat)
    requires IsRun(states) && j < |states| && k < |states[j].log|
    requires states[j].log[k].Added? && !states[j].log[k].ok
    ensures Lookup(states[j].standard, Contents(states[j].table), states[j].log[k].e.nid).Some?
  {
    var s := states[j];
    RunsAreSerial(states, j);
    SerialAt(s.standard, s.log, k);
    SuccessesGrow(s.log[..k], s.log);
    var before, now := Successes(s.log[..k]), Successes(s.log);
    assert now == before + now[|before|..];
    FindAppend(before, now[|before|..], s.log[k].e.nid);
  }
}

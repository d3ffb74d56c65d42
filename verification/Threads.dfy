/** src/multiroom.c called by any number of threads. Any thread may run between any two steps of
    another, and the two unlocked reads are steps of their own. */
module Threads {
  import opened Descriptors
  import opened CStrings
  import opened Options
  import opened RoomTable
  import opened RoomMemory
  import opened RoomRuns
  import opened Interleaving
  import RoomLaws

  /** Where a thread is. */
  datatype Place =
    | Idle
    | Checking(data: seq<nat>)                              // sync, before the unlocked test
    | Refused                                               // sync, after it failed
    | Waiting(call: Call)
    | Inside(call: Call, phase: Phase)
    | Counting(names: seq<string>, commit: nat)             // list, before the unlocked read
    | Returned(call: Call, status: int, commit: nat)
    | Listed(names: seq<string>, count: int, commit: nat, seen: nat)

  datatype Commit = Commit(thread: nat, section: Section, status: int)

  /** `entry` is the memory when the mutex was last acquired, `acquired` its holders in order, and
      `history` the completed sections in order. */
  datatype System = System(
    memory: Memory,
    holder: Option<nat>,
    threads: seq<Place>,
    entry: Memory,
    acquired: seq<nat>,
    history: seq<Commit>)

  function Move(s: System, u: nat, p: Place): System
    requires u < |s.threads|
  {
    s.(threads := s.threads[u := p])
  }

  /** Where releasing the mutex leaves a thread: a list has yet to read the count. */
  function Outside(call: Call, status: int, names: seq<string>, commit: nat): Place {
    if call.ListCall? then Counting(names, commit) else Returned(call, status, commit)
  }

  /** Thread `u` gets the mutex and enters a function. */
  function Acquire(s: System, u: nat, call: Call): System
    requires u < |s.threads|
  {
    Move(s, u, Inside(call, Entered)).(holder := Some(u), entry := s.memory, acquired := s.acquired + [u])
  }

  /** Thread `u` makes its next step. */
  ghost predicate Next(s: System, u: nat, c: Choice, s': System) {
    && u < |s.threads|
    && match s.threads[u]
       case Idle =>
         WellFormed(c.call) && s' == Move(s, u, if c.call.SyncCall? then Checking(c.call.data) else Waiting(c.call))
       case Checking(data) => s' == Move(s, u, if s.memory.running then Waiting(SyncCall(data)) else Refused)
       case Waiting(call) => s.holder.None? && s' == Acquire(s, u, call)
       case Inside(call, phase) => NextInside(s, u, call, phase, c, s')
       case Counting(names, commit) => s' == Move(s, u, Listed(names, s.memory.count, commit, |s.history|))
       case _ => s' == Move(s, u, Idle)
  }

  /** A step of a thread inside a section. The stop nested in a cleanup locks the mutex like any
      other; the mutex is not recursive. What would follow, the stop's section and the rest of the
      cleanup, is not described beyond its first step, since no execution gets there. */
  ghost predicate NextInside(s: System, u: nat, call: Call, phase: Phase, c: Choice, s': System)
    requires u < |s.threads|
  {
    match phase
    case Relocking => s.holder.None? && s' == Acquire(s, u, StopCall)
    case Leaving(status, names, commit) =>
      s' == Move(s, u, Outside(call, status, names, commit)).(holder := None)
    case _ =>
      && Able(s.memory, call, phase) && Granted(s.memory, call, phase, c)
      && s' == After(s, u, call, Micro(s.memory, call, phase, c, |s.history|))
  }

  function After(s: System, u: nat, call: Call, e: Effect): System
    requires u < |s.threads|
  {
    Move(s, u, Inside(call, e.phase)).(
      memory := e.memory,
      history := if e.commit.None? then s.history
                 else s.history + [Commit(u, e.commit.value.0, e.commit.value.1)])
  }

  // ---------------------------------------------------------------- the history as a run

  function Sections(h: seq<Commit>): (run: seq<Section>)
    ensures |run| == |h|
  {
    seq(|h|, n requires 0 <= n < |h| => h[n].section)
  }

  function Holders(h: seq<Commit>): seq<nat> {
    seq(|h|, n requires 0 <= n < |h| => h[n].thread)
  }

  /** The table after the first `n` completed sections, run one after the other. */
  function At(t0: Table, h: seq<Commit>, n: nat): Table
    requires n <= |h|
  {
    Replay(t0, Sections(h[..n]))
  }

  lemma AtAppend(t0: Table, h: seq<Commit>, c: Commit)
    ensures forall n :: 0 <= n <= |h| ==> At(t0, h + [c], n) == At(t0, h, n)
    ensures At(t0, h + [c], |h| + 1) == Step(At(t0, h, |h|), c.section).0
  {
    forall n | 0 <= n <= |h| ensures At(t0, h + [c], n) == At(t0, h, n) {
      assert (h + [c])[..n] == h[..n];
    }
    var run := Sections(h) + [c.section];
    assert (h + [c])[..|h| + 1] == h + [c] && h[..|h|] == h;
    assert Sections(h + [c]) == run;
    assert run[..|run| - 1] == Sections(h);
  }

  /** Every section was possible when it ran, and returned what the list operation returns. */
  ghost predicate HistoryOk(t0: Table, h: seq<Commit>) {
    forall n {:trigger h[n]} :: 0 <= n < |h| ==>
      Possible(At(t0, h, n), h[n].section) && h[n].status == Step(At(t0, h, n), h[n].section).1
  }

  lemma HistoryAppend(t0: Table, h: seq<Commit>, c: Commit)
    requires HistoryOk(t0, h)
    requires Possible(At(t0, h, |h|), c.section) && c.status == Step(At(t0, h, |h|), c.section).1
    ensures HistoryOk(t0, h + [c])
  {
    hide At, Step;
    AtAppend(t0, h, c);
    forall n | 0 <= n < |h + [c]|
      ensures Possible(At(t0, h + [c], n), (h + [c])[n].section)
      ensures (h + [c])[n].status == Step(At(t0, h + [c], n), (h + [c])[n].section).1
    {
      if n < |h| {
        assert (h + [c])[n] == h[n];
      }
    }
  }

  lemma HistoryIsRun(t0: Table, h: seq<Commit>)
    requires HistoryOk(t0, h)
    ensures IsRun(t0, Sections(h)) && At(t0, h, |h|) == Replay(t0, Sections(h))
  {
    forall n | 0 <= n < |h| ensures Possible(Replay(t0, Sections(h)[..n]), Sections(h)[n]) {
      assert h[n].section == Sections(h)[n];
      assert Sections(h)[..n] == Sections(h[..n]);
    }
    assert h[..|h|] == h;
  }

  // ---------------------------------------------------------------- the invariant

  /** Commit number `n` is this thread's, for this call. */
  predicate Recorded(h: seq<Commit>, u: nat, call: Call, n: nat) {
    n < |h| && h[n].thread == u && Performs(call, h[n].section)
  }

  /** What each thread remembers of its section is true of the history. */
  predicate PlaceOk(t0: Table, h: seq<Commit>, u: nat, p: Place) {
    match p
    case Checking(data) => data != []
    case Waiting(call) => WellFormed(call)
    case Inside(call, phase) =>
      && (Tidying(phase) ==> Recorded(h, u, call, phase.commit) && h[phase.commit].status == 0 && !call.ListCall?)
      && (phase.Leaving? ==>
            Recorded(h, u, call, phase.commit) && h[phase.commit].status == phase.status
            && (call.ListCall? ==> phase.names == Names(At(t0, h, phase.commit).rooms)))
    case Counting(names, commit) => Recorded(h, u, ListCall, commit) && names == Names(At(t0, h, commit).rooms)
    case Returned(call, status, commit) => Recorded(h, u, call, commit) && h[commit].status == status
    case Listed(names, count, commit, seen) =>
      && Recorded(h, u, ListCall, commit) && names == Names(At(t0, h, commit).rooms)
      && commit < seen <= |h| && count == |At(t0, h, seen).rooms|
    case _ => true
  }

  /** The holder's place, and the table the memory stands for. */
  ghost predicate MutexOk(t0: Table, s: System) {
    var now := At(t0, s.history, |s.history|);
    if s.holder.None? then
      && (forall u :: 0 <= u < |s.threads| ==> !s.threads[u].Inside?)
      && Valid(s.memory) && TableOf(s.memory) == now
      && s.acquired == Holders(s.history)
    else
      var u := s.holder.value;
      && u < |s.threads| && s.threads[u].Inside?
      && (forall v :: 0 <= v < |s.threads| && v != u ==> !s.threads[v].Inside?)
      && Midway(s.entry, s.threads[u].call, s.threads[u].phase, s.memory)
      && if Committed(s.threads[u].phase) then
           Shaped(s.memory) && TableOf(s.memory) == now && s.acquired == Holders(s.history)
         else
           TableOf(s.entry) == now && s.acquired == Holders(s.history) + [u]
  }

  ghost predicate Inv(t0: Table, s: System) {
    && HistoryOk(t0, s.history)
    && MutexOk(t0, s)
    && s.memory.count == |At(t0, s.history, |s.history|).rooms|
    && s.memory.running == At(t0, s.history, |s.history|).running
    && (forall u :: 0 <= u < |s.threads| ==> PlaceOk(t0, s.history, u, s.threads[u]))
  }

  ghost predicate Initial(t0: Table, s: System) {
    && IsInitial(t0) && Valid(s.memory) && TableOf(s.memory) == t0
    && s.holder.None? && s.acquired == [] && s.history == []
    && forall u :: 0 <= u < |s.threads| ==> s.threads[u].Idle?
  }

  lemma InitialInv(t0: Table, s: System)
    requires Initial(t0, s)
    ensures Inv(t0, s)
  {
  }

  /** A commit changes nothing that other threads remember. */
  lemma PlaceAppend(t0: Table, h: seq<Commit>, c: Commit, u: nat, p: Place)
    requires PlaceOk(t0, h, u, p)
    ensures PlaceOk(t0, h + [c], u, p)
  {
    hide At;
    AtAppend(t0, h, c);
  }

  /** Steps outside the mutex move one thread and nothing else. */
  lemma MoveKeeps(t0: Table, s: System, u: nat, p: Place)
    requires Inv(t0, s) && u < |s.threads| && !s.threads[u].Inside? && !p.Inside?
    requires PlaceOk(t0, s.history, u, p)
    ensures Inv(t0, Move(s, u, p))
  {
    hide At, Midway, HistoryOk, PlaceOk, Holders;
  }

  /** The nested stop of a cleanup never gets the mutex: its own thread holds it. */
  lemma NestedStopNeverLocks(t0: Table, s: System, u: nat, c: Choice, s': System)
    requires Inv(t0, s) && u < |s.threads| && s.threads[u].Inside? && s.threads[u].phase.Relocking?
    ensures s.holder == Some(u) && !Next(s, u, c, s')
  {
    hide At, HistoryOk, Holders, Midway;
  }

  lemma AcquireKeeps(t0: Table, s: System, u: nat, c: Choice, s': System)
    requires Inv(t0, s) && Next(s, u, c, s') && s.threads[u].Waiting?
    ensures Inv(t0, s')
  {
    hide At, HistoryOk, Holders;
  }

  lemma ReleaseKeeps(t0: Table, s: System, u: nat, c: Choice, s': System)
    requires Inv(t0, s) && Next(s, u, c, s') && s.threads[u].Inside? && s.threads[u].phase.Leaving?
    ensures Inv(t0, s')
  {
    hide At, HistoryOk, Holders;
  }

  /** A step under the mutex that completes nothing. */
  lemma SilentKeeps(t0: Table, s: System, u: nat, c: Choice, s': System)
    requires Inv(t0, s) && Next(s, u, c, s') && s.threads[u].Inside? && !s.threads[u].phase.Leaving?
    requires s'.history == s.history
    ensures Inv(t0, s')
  {
    hide At, HistoryOk, Holders, Micro, Midway;
    var call, phase := s.threads[u].call, s.threads[u].phase;
    if Working(phase) {
      MicroProceeds(s.entry, s.memory, call, phase, c, |s.history|);
    }
  }

  /** A step under the mutex that completes its section. */
  lemma CommitKeeps(t0: Table, s: System, u: nat, c: Choice, s': System)
    requires Inv(t0, s) && Next(s, u, c, s') && s.threads[u].Inside? && !s.threads[u].phase.Leaving?
    requires s'.history != s.history
    ensures Inv(t0, s')
  {
    hide At, HistoryOk, Micro, Midway, Step;
    var call, phase := s.threads[u].call, s.threads[u].phase;
    if Working(phase) {
      var h := s.history;
      MicroProceeds(s.entry, s.memory, call, phase, c, |h|);
      var commit := s'.history[|h|];
      assert s'.history == h + [commit];
      AtAppend(t0, h, commit);
      HistoryAppend(t0, h, commit);
      assert Holders(h + [commit]) == Holders(h) + [u];
      forall v | 0 <= v < |s.threads| && v != u ensures PlaceOk(t0, s'.history, v, s'.threads[v]) {
        PlaceAppend(t0, h, commit, v, s.threads[v]);
      }
    }
  }

  lemma NextKeeps(t0: Table, s: System, u: nat, c: Choice, s': System)
    requires Inv(t0, s) && Next(s, u, c, s')
    ensures Inv(t0, s')
  {
    hide At, HistoryOk, Midway, Micro, MutexOk;
    match s.threads[u]
    case Waiting(_) => AcquireKeeps(t0, s, u, c, s');
    case Inside(_, phase) =>
      if phase.Leaving? {
        ReleaseKeeps(t0, s, u, c, s');
      } else if s'.history == s.history {
        SilentKeeps(t0, s, u, c, s');
      } else {
        CommitKeeps(t0, s, u, c, s');
      }
    case _ => MoveKeeps(t0, s, u, s'.threads[u]);
  }

  // ---------------------------------------------------------------- every execution

  ghost predicate Steps(s: System, s': System) {
    exists u: nat, c: Choice :: Next(s, u, c, s')
  }

  ghost predicate StepsAt(trace: seq<System>, i: nat)
    requires i + 1 < |trace|
  {
    Steps(trace[i], trace[i + 1])
  }

  /** The states of a finite execution: after each step of some thread, the next state. */
  ghost predicate Execution(t0: Table, trace: seq<System>) {
    && trace != [] && Initial(t0, trace[0])
    && forall i :: 0 <= i < |trace| - 1 ==> StepsAt(trace, i)
  }

  lemma StepsKeeps(t0: Table, s: System, s': System)
    requires Inv(t0, s) && Steps(s, s')
    ensures Inv(t0, s')
  {
    hide Inv, Next;
    var u: nat, c: Choice :| Next(s, u, c, s');
    NextKeeps(t0, s, u, c, s');
  }

  lemma {:induction false} ExecutionInv(t0: Table, trace: seq<System>, i: nat)
    requires Execution(t0, trace) && i < |trace|
    ensures Inv(t0, trace[i])
    decreases i
  {
    hide Initial, Inv, Next, Steps;
    if i == 0 {
      InitialInv(t0, trace[0]);
    } else {
      ExecutionInv(t0, trace, i - 1);
      assert StepsAt(trace, i - 1);
      StepsKeeps(t0, trace[i - 1], trace[i]);
    }
  }

  /** Executions start with any number of threads, all idle, in the memory that one initialisation
      makes of zeroed storage. */
  lemma ExecutionsStart(enabled: bool, n: nat) returns (t0: Table, s: System)
    ensures s.memory == ClearSlots(SetCount(ZeroedStorage(enabled), 0), MAX_ROOMS)
    ensures t0 == Table([], enabled, false, BOOT)
    ensures |s.threads| == n && Execution(t0, [s])
  {
    var m := ClearSlots(SetCount(ZeroedStorage(enabled), 0), MAX_ROOMS);
    InitRefines(ZeroedStorage(enabled));
    t0 := TableOf(m);
    s := System(m, None, seq(n, _ => Idle), m, [], []);
  }

  /** The history of every state of an execution is a run of the table. */
  lemma ExecutionRun(t0: Table, trace: seq<System>, i: nat)
    requires Execution(t0, trace) && i < |trace|
    ensures Inv(t0, trace[i]) && IsInitial(t0) && IsRun(t0, Sections(trace[i].history))
    ensures At(t0, trace[i].history, |trace[i].history|) == Replay(t0, Sections(trace[i].history))
  {
    hide At, MutexOk, PlaceOk, HistoryOk;
    ExecutionInv(t0, trace, i);
    HistoryIsRun(t0, trace[i].history);
  }

  /** Sections take effect one after the other in the order the mutex was acquired: whenever it is
      free, the memory is a valid representation of the table their list operations produce in
      that order, and every status in the history is the one its operation returns there. */
  lemma Linearization(t0: Table, trace: seq<System>, i: nat)
    requires Execution(t0, trace) && i < |trace|
    ensures var s := trace[i];
            && IsRun(t0, Sections(s.history))
            && (forall n :: 0 <= n < |s.history| ==>
                  s.history[n].status == Step(At(t0, s.history, n), s.history[n].section).1)
            && (s.holder.None? ==>
                  Valid(s.memory) && TableOf(s.memory) == Replay(t0, Sections(s.history))
                  && s.acquired == Holders(s.history))
            && (s.holder.Some? ==>
                  s.acquired == Holders(s.history) || s.acquired == Holders(s.history) + [s.holder.value])
  {
    hide At, Execution, Step;
    ExecutionRun(t0, trace, i);
  }

  // ---------------------------------------------------------------- when a call takes effect

  /** The thread waits with this call, is in its section, or has finished it. */
  predicate ForCall(p: Place, call: Call) {
    match p
    case Waiting(its) => its == call
    case Inside(its, _) => its == call
    case Returned(its, _, _) => its == call
    case Counting(_, _) => call.ListCall?
    case Listed(_, _, _, _) => call.ListCall?
    case _ => false
  }

  predicate Finished(p: Place) {
    p.Returned? || p.Counting? || p.Listed?
  }

  /** The number of the section the thread has completed for its call, if it has. */
  function CommitOf(p: Place): Option<nat> {
    match p
    case Inside(_, Uncleared(commit)) => Some(commit)
    case Inside(_, Clearing(_, commit)) => Some(commit)
    case Inside(_, Leaving(_, _, commit)) => Some(commit)
    case Returned(_, _, commit) => Some(commit)
    case Counting(_, commit) => Some(commit)
    case Listed(_, _, commit, _) => Some(commit)
    case _ => None
  }

  /** Of the sections completed since there were `n`, the one this call completed is the only one of
      its thread. */
  ghost predicate UnderWay(h: seq<Commit>, u: nat, p: Place, call: Call, n: nat) {
    && ForCall(p, call)
    && n <= |h|
    && (forall m {:trigger h[m]} :: n <= m < |h| ==> (h[m].thread == u <==> CommitOf(p) == Some(m)))
    && (CommitOf(p).Some? ==> n <= CommitOf(p).value < |h|)
  }

  /** What a step of thread `v` does to what threads have completed. */
  ghost predicate Advances(s: System, v: nat, s': System) {
    && v < |s.threads| == |s'.threads| && s'.threads == s.threads[v := s'.threads[v]]
    && (forall call :: ForCall(s.threads[v], call) && !s'.threads[v].Idle? ==> ForCall(s'.threads[v], call))
    && if s'.history == s.history then
         !s'.threads[v].Idle? ==> CommitOf(s'.threads[v]) == CommitOf(s.threads[v])
       else
         && |s'.history| == |s.history| + 1 && s.history <= s'.history
         && s'.history[|s.history|].thread == v
         && CommitOf(s.threads[v]) == None && CommitOf(s'.threads[v]) == Some(|s.history|)
  }

  lemma NextAdvances(t0: Table, s: System, v: nat, c: Choice, s': System)
    requires Inv(t0, s) && Next(s, v, c, s')
    ensures Advances(s, v, s')
  {
    hide At, HistoryOk, Micro, Midway, Holders, Step, Possible, PlaceOk;
    if s.threads[v].Inside? {
      var call, phase := s.threads[v].call, s.threads[v].phase;
      if Working(phase) {
        MicroProceeds(s.entry, s.memory, call, phase, c, |s.history|);
      } else if phase.Relocking? {
        NestedStopNeverLocks(t0, s, v, c, s');
      }
    }
  }

  lemma StepsAdvances(t0: Table, s: System, s': System) returns (v: nat)
    requires Inv(t0, s) && Steps(s, s')
    ensures Advances(s, v, s')
  {
    hide Inv, Next, Advances;
    var w: nat, c: Choice :| Next(s, w, c, s');
    NextAdvances(t0, s, w, c, s');
    v := w;
  }

  lemma AdvancesHistory(s: System, v: nat, s': System)
    requires Advances(s, v, s')
    ensures s.history <= s'.history
  {
  }

  lemma UnderWayStep(s: System, v: nat, s': System, u: nat, call: Call, n: nat)
    requires Advances(s, v, s') && u < |s.threads| && UnderWay(s.history, u, s.threads[u], call, n)
    requires !s'.threads[u].Idle?
    ensures UnderWay(s'.history, u, s'.threads[u], call, n)
  {
    hide ForCall, CommitOf;
    var h, h' := s.history, s'.history;
    forall m | n <= m < |h'| ensures h'[m].thread == u <==> CommitOf(s'.threads[u]) == Some(m) {
      if m < |h| {
        assert h'[m] == h[m];
      }
    }
  }

  /** Thread `u` asks for the mutex for a call in state `i` and has finished that call in state `j`:
      in between it does not get back to making another. */
  ghost predicate Span(trace: seq<System>, u: nat, call: Call, i: nat, j: nat) {
    && i <= j < |trace|
    && (forall k :: i <= k <= j ==> u < |trace[k].threads| && !trace[k].threads[u].Idle?)
    && trace[i].threads[u] == Waiting(call)
    && Finished(trace[j].threads[u])
  }

  lemma ExecutionAdvances(t0: Table, trace: seq<System>, j: nat) returns (v: nat)
    requires Execution(t0, trace) && j + 1 < |trace|
    ensures Advances(trace[j], v, trace[j + 1]) && trace[j].history <= trace[j + 1].history
  {
    hide Initial, Inv, Steps, Advances;
    ExecutionInv(t0, trace, j);
    assert StepsAt(trace, j);
    v := StepsAdvances(t0, trace[j], trace[j + 1]);
    AdvancesHistory(trace[j], v, trace[j + 1]);
  }

  lemma {:induction false} SpanUnderWay(t0: Table, trace: seq<System>, u: nat, call: Call, i: nat, j: nat)
    requires Execution(t0, trace) && i <= j < |trace|
    requires forall k :: i <= k <= j ==> u < |trace[k].threads| && !trace[k].threads[u].Idle?
    requires trace[i].threads[u] == Waiting(call)
    ensures trace[i].history <= trace[j].history
    ensures UnderWay(trace[j].history, u, trace[j].threads[u], call, |trace[i].history|)
    decreases j
  {
    if i < j {
      hide UnderWay, Advances, Execution;
      SpanUnderWay(t0, trace, u, call, i, j - 1);
      var v := ExecutionAdvances(t0, trace, j - 1);
      UnderWayStep(trace[j - 1], v, trace[j], u, call, |trace[i].history|);
    }
  }

  /** Each call takes effect at one moment between asking for the mutex and returning: in that time
      exactly one section of its thread completes, it is the call's, and the call returns what its
      list operation returns there. A list copies the names of the table at that moment; the count
      it returns, read after unlocking, is that of a table at or after it, and the number of names
      copied when no other section completed in between. */
  lemma CallTakesEffectOnce(t0: Table, trace: seq<System>, u: nat, call: Call, i: nat, j: nat)
    requires Execution(t0, trace) && Span(trace, u, call, i, j)
    ensures var h := trace[j].history; var p := trace[j].threads[u];
            && ForCall(p, call)
            && trace[i].history <= h && |trace[i].history| <= p.commit < |h|
            && (forall m :: |trace[i].history| <= m < |h| ==> (h[m].thread == u <==> m == p.commit))
            && Performs(call, h[p.commit].section)
            && (p.Returned? ==> p.status == Step(At(t0, h, p.commit), h[p.commit].section).1)
            && (!p.Returned? ==> p.names == Names(At(t0, h, p.commit).rooms))
            && (p.Listed? ==> p.commit < p.seen <= |h| && p.count == |At(t0, h, p.seen).rooms|
                              && (p.seen == p.commit + 1 ==> p.count == |p.names|))
  {
    hide At, Step, MutexOk;
    SpanUnderWay(t0, trace, u, call, i, j);
    ExecutionInv(t0, trace, j);
    var h := trace[j].history;
    var p := trace[j].threads[u];
    if p.Listed? && p.seen == p.commit + 1 {
      AtNext(t0, h, p.commit);
      assert h[p.commit].section == List;
      ListChangesNothing(At(t0, h, p.commit));
    }
  }

  // ---------------------------------------------------------------- what a section did

  lemma AtIsGood(t0: Table, trace: seq<System>, j: nat, n: nat)
    requires Execution(t0, trace) && j < |trace| && n <= |trace[j].history|
    ensures Good(At(t0, trace[j].history, n))
  {
    hide Execution, Good, Replay, IsRun;
    var h := trace[j].history;
    ExecutionRun(t0, trace, j);
    RunPrefix(t0, Sections(h), n);
    assert Sections(h)[..n] == Sections(h[..n]);
    RunKeeps(t0, Sections(h[..n]));
  }

  /** In every execution each completed section did what its law says of the rooms, the flags, the
      logs and the value returned. */
  lemma HistoryObeysLaws(t0: Table, trace: seq<System>, j: nat, n: nat)
    requires Execution(t0, trace) && j < |trace| && n < |trace[j].history|
    ensures var h := trace[j].history;
            RoomLaws.Law(At(t0, h, n), h[n].section, At(t0, h, n + 1), h[n].status)
  {
    hide Execution, At, MutexOk, PlaceOk, Good, Step, RoomLaws.Law;
    var h := trace[j].history;
    AtIsGood(t0, trace, j, n);
    ExecutionInv(t0, trace, j);
    AtNext(t0, h, n);
    RoomLaws.SectionIsLaw(At(t0, h, n), h[n].section, At(t0, h, n + 1), h[n].status);
  }

  /** A cleanup that has returned closed every room socket that was live when it took effect, in
      table order, and left no room with one. */
  lemma CleanupLeavesNoSocket(t0: Table, trace: seq<System>, u: nat, i: nat, j: nat)
    requires Execution(t0, trace) && Span(trace, u, CleanupCall, i, j)
    ensures var h, n := trace[j].history, trace[j].threads[u].commit;
            && n < |h| && h[n].status == 0
            && var before, after := At(t0, h, n), At(t0, h, n + 1);
               && |after.rooms| == |before.rooms|
               && (forall k :: 0 <= k < |after.rooms| ==>
                     after.rooms[k] == Room(before.rooms[k].name, -1, before.rooms[k].addr))
               && after.kernel.closes == before.kernel.closes + Live(Socks(before.rooms))
  {
    hide Execution, At, Step, Live, Logged;
    CallTakesEffectOnce(t0, trace, u, CleanupCall, i, j);
    HistoryObeysLaws(t0, trace, j, trace[j].threads[u].commit);
    var h, n := trace[j].history, trace[j].threads[u].commit;
    assert h[n].section == Cleanup;
    LoggedCloses(At(t0, h, n).kernel, Live(Socks(At(t0, h, n).rooms)), At(t0, h, n + 1).kernel);
  }

  lemma LoggedCloses(k: Kernel, closed: seq<int>, k': Kernel)
    requires Logged(k, [], closed, [], [], k')
    ensures k'.closes == k.closes + closed
  {
  }

  // ---------------------------------------------------------------- the unlocked test of a sync

  /** The test sees the table of the sections completed so far: the sync goes on to the mutex if that
      one is running, and is refused otherwise. */
  lemma TestSeesTable(t0: Table, s: System, u: nat, c: Choice, s': System)
    requires Inv(t0, s) && Next(s, u, c, s') && s.threads[u].Checking?
    ensures s'.history == s.history
    ensures var data := s.threads[u].data;
            s'.threads[u] == if At(t0, s.history, |s.history|).running then Waiting(SyncCall(data)) else Refused
  {
    hide At, HistoryOk, MutexOk, PlaceOk;
  }

  lemma PassedTest(t0: Table, trace: seq<System>, u: nat, i: nat)
    requires Execution(t0, trace) && i + 1 < |trace| && u < |trace[i].threads| && trace[i].threads[u].Checking?
    requires u < |trace[i + 1].threads| && trace[i + 1].threads[u].Waiting?
    ensures trace[i + 1].history == trace[i].history
    ensures At(t0, trace[i].history, |trace[i].history|).running
  {
    hide At, Inv, Initial;
    ExecutionInv(t0, trace, i);
    assert StepsAt(trace, i);
    var s, s' := trace[i], trace[i + 1];
    var v: nat, c: Choice :| Next(s, v, c, s');
    if v == u {
      TestSeesTable(t0, s, u, c, s');
    } else {
      NextAdvances(t0, s, v, c, s');
    }
  }

  /** A sync that passed the test was let through by a running table. When it takes effect the table
      is not running any more exactly when a stop of the running table took effect in between and no
      start has since; and then it sends only to rooms added after that stop. */
  lemma SyncAfterTest(t0: Table, trace: seq<System>, u: nat, data: seq<nat>, i: nat, j: nat)
    requires Execution(t0, trace) && i + 1 < |trace| && u < |trace[i].threads| && trace[i].threads[u].Checking?
    requires Span(trace, u, SyncCall(data), i + 1, j)
    ensures var h, n, at := trace[j].history, |trace[i].history|, trace[j].threads[u].commit;
            && n <= at < |h| && h[at].section == Sync(data) && At(t0, h, n).running
            && (!At(t0, h, at).running <==> exists k :: n <= k && DownSince(t0, Sections(h[..at]), k))
            && forall k :: DownSince(t0, Sections(h[..at]), k) ==> SendsOnlyToLater(t0, Sections(h[..at]), k, data)
  {
    hide Execution, Step, Next, Inv, DownSince, SendsOnlyToLater;
    PassedTest(t0, trace, u, i);
    CallTakesEffectOnce(t0, trace, u, SyncCall(data), i + 1, j);
    var h, n, at := trace[j].history, |trace[i].history|, trace[j].threads[u].commit;
    ExecutionRun(t0, trace, j);
    hide Replay, IsRun;
    var run := Sections(h[..at]);
    assert run == Sections(h)[..at] && run[..n] == Sections(h[..n]) && h[..n] == trace[i].history[..n];
    StoppedIff(t0, run, n);
    RunPrefix(t0, Sections(h), at);
    forall k: nat | DownSince(t0, run, k) ensures SendsOnlyToLater(t0, run, k, data) {
      SendsToLater(t0, run, k, data);
    }
  }

  /** Whatever a sync of this data would send at the end of the run goes to a room added after `k`. */
  ghost predicate SendsOnlyToLater(t0: Table, run: seq<Section>, k: nat, data: seq<nat>)
    requires t0.rooms == []
  {
    forall d :: d in Datagrams(Replay(t0, run).rooms, data) ==> GoesToLater(t0, run, k, d)
  }

  lemma SendsToLater(t0: Table, run: seq<Section>, k: nat, data: seq<nat>)
    requires IsInitial(t0) && IsRun(t0, run) && DownSince(t0, run, k)
    ensures SendsOnlyToLater(t0, run, k, data)
  {
    hide Replay, IsRun, GoesToLater;
    SyncAfterStopSendsToLater(t0, run, k, data);
  }

  lemma {:induction false} HistoryGrows(t0: Table, trace: seq<System>, i: nat, j: nat)
    requires Execution(t0, trace) && i <= j < |trace|
    ensures trace[i].history <= trace[j].history
    decreases j
  {
    if i < j {
      hide Execution, Advances;
      HistoryGrows(t0, trace, i, j - 1);
      var _ := ExecutionAdvances(t0, trace, j - 1);
    }
  }

  /** The order in which calls take effect respects real time: a call that has finished before
      another asks for the mutex takes effect first. */
  lemma RealTimeOrder(t0: Table, trace: seq<System>, u: nat, call: Call, i: nat, j: nat,
                      v: nat, later: Call, k: nat, l: nat)
    requires Execution(t0, trace) && Span(trace, u, call, i, j) && Span(trace, v, later, k, l) && j <= k
    ensures trace[j].threads[u].commit < trace[l].threads[v].commit
  {
    hide Execution, At, Step, Performs, ForCall;
    CallTakesEffectOnce(t0, trace, u, call, i, j);
    CallTakesEffectOnce(t0, trace, v, later, k, l);
    HistoryGrows(t0, trace, j, k);
  }

  /** No two calls of different threads take effect at the same section. */
  lemma CallsTakeEffectApart(t0: Table, trace: seq<System>, u: nat, call: Call, i: nat, j: nat,
                             v: nat, other: Call, k: nat, l: nat)
    requires Execution(t0, trace) && Span(trace, u, call, i, j) && Span(trace, v, other, k, l) && u != v
    ensures trace[j].threads[u].commit != trace[l].threads[v].commit
  {
    hide Execution, At, Step, Performs, ForCall;
    CallTakesEffectOnce(t0, trace, u, call, i, j);
    CallTakesEffectOnce(t0, trace, v, other, k, l);
    if j <= l {
      HistoryGrows(t0, trace, j, l);
    } else {
      HistoryGrows(t0, trace, l, j);
    }
  }

  lemma AtNext(t0: Table, h: seq<Commit>, n: nat)
    requires n < |h|
    ensures At(t0, h, n + 1) == Step(At(t0, h, n), h[n].section).0
  {
    hide At, Step;
    var shorter := h[..n];
    assert h[..n + 1] == shorter + [h[n]];
    AtAppend(t0, shorter, h[n]);
    AtTake(t0, h, n, n);
    AtTake(t0, h, n + 1, n + 1);
  }

  lemma AtTake(t0: Table, h: seq<Commit>, m: nat, n: nat)
    requires n <= m <= |h|
    ensures At(t0, h[..m], n) == At(t0, h, n)
  {
    assert h[..m][..n] == h[..n];
  }

  lemma ListChangesNothing(t: Table)
    ensures Step(t, List) == (t, |t.rooms|)
  {
  }

  // ---------------------------------------------------------------- what is sent, and on what

  lemma LiveTake(socks: seq<int>, n: nat)
    requires n <= |socks| && Distinct(Live(socks))
    ensures Distinct(Live(socks[..n])) && Elements(Live(socks[..n])) <= Elements(Live(socks))
  {
    LiveConcat(socks[..n], socks[n..]);
    assert socks == socks[..n] + socks[n..];
    var x, y := Live(socks[..n]), Live(socks[n..]);
    forall i, j | 0 <= i < j < |x| ensures x[i] != x[j] {
      assert (x + y)[i] == x[i] && (x + y)[j] == x[j];
    }
    forall e | e in x ensures e in x + y {}
  }

  lemma {:induction false} DatagramsTake(rooms: seq<Room>, data: seq<nat>, n: nat)
    requires n <= |rooms|
    ensures Datagrams(rooms[..n], data) <= Datagrams(rooms, data)
    decreases |rooms|
  {
    if n < |rooms| {
      var front := rooms[..|rooms| - 1];
      DatagramsTake(front, data, n);
      assert front[..n] == rooms[..n];
    } else {
      assert rooms[..n] == rooms;
    }
  }

  /** Part way through a sync, exactly the rooms before `next` have been served. */
  lemma SendingSoFar(entry: Memory, data: seq<nat>, next: nat)
    requires Valid(entry) && Good(TableOf(entry)) && next <= entry.count
    ensures SendSlots(entry, data, next).kernel
      == entry.kernel.(sends := entry.kernel.sends + Datagrams(Rooms(entry)[..next], data))
  {
    var rooms := Rooms(entry);
    SendEffect(entry, data, next);
    SyncSends(TableOf(entry), data);
    DatagramsTake(rooms, data, next);
    var part, all := Datagrams(rooms[..next], data), Datagrams(rooms, data);
    forall i | 0 <= i < |part| ensures part[i].fd in entry.kernel.open {
      assert part[i] == all[i];
    }
    SendAllEffect(entry.kernel, part);
  }

  lemma DroppingSoFar(entry: Memory, next: nat)
    requires Valid(entry) && Good(TableOf(entry)) && next <= MAX_ROOMS
    ensures Balanced(DropSockets(entry, next).kernel)
  {
    DropEffect(entry, next);
    LiveVacant(entry.socks, entry.count);
    assert Socks(Rooms(entry)) == entry.socks[..entry.count];
    LiveTake(entry.socks, next);
    CloseAllEffect(entry.kernel, Live(entry.socks[..next]));
  }

  /** At no step of a section has anything been closed twice or used after closing. */
  lemma MidwayBalanced(entry: Memory, call: Call, phase: Phase, m: Memory)
    requires Midway(entry, call, phase, m) && !Committed(phase) && Good(TableOf(entry))
    ensures Balanced(m.kernel)
  {
    match phase
    case Socketed(sock) => OpenBalanced(entry.kernel, sock);
    case Opened(sock) => OpenBalanced(entry.kernel, sock);
    case Shifting(index, next) =>
      ShiftEffect(CloseEntry(entry, index), index, next);
      LiveMember(Socks(Rooms(entry)), index);
      if entry.socks[index] >= 0 {
        CloseBalanced(entry.kernel, entry.socks[index]);
      }
    case Dropping(next) => DroppingSoFar(entry, next);
    case Sending(next) => SendingSoFar(entry, call.data, next);
    case _ =>
  }

  lemma {:induction false} DropKeepsSends(m: Memory, n: nat)
    requires n <= |m.socks|
    ensures DropSockets(m, n).kernel.sends == m.kernel.sends
  {
    if n > 0 {
      DropKeepsSends(m, n - 1);
    }
  }

  /** Before its commit a section sends only in the loop of a sync. */
  lemma MidwaySends(entry: Memory, call: Call, phase: Phase, m: Memory)
    requires Midway(entry, call, phase, m) && !Committed(phase) && !phase.Sending?
    ensures m.kernel.sends == entry.kernel.sends
  {
    match phase
    case Shifting(index, next) => ShiftEffect(CloseEntry(entry, index), index, next);
    case Dropping(next) => DropKeepsSends(entry, next);
    case _ =>
  }

  /** What a sync under way has sent: one datagram to each live room before its loop index. */
  ghost function SentByHolder(t0: Table, s: System): seq<Datagram> {
    if s.holder.None? || s.holder.value >= |s.threads| then []
    else
      var p, rooms := s.threads[s.holder.value], At(t0, s.history, |s.history|).rooms;
      if p.Inside? && p.call.SyncCall? && p.phase.Sending? && p.phase.next <= |rooms| then
        Datagrams(rooms[..p.phase.next], p.call.data)
      else []
  }

  lemma HolderSends(t0: Table, s: System)
    requires Inv(t0, s) && Good(At(t0, s.history, |s.history|))
    ensures s.memory.kernel.faults == 0
    ensures s.memory.kernel.sends == At(t0, s.history, |s.history|).kernel.sends + SentByHolder(t0, s)
  {
    hide At, HistoryOk, PlaceOk, Holders, Datagrams, Live, Valid;
    if s.holder.Some? {
      var p := s.threads[s.holder.value];
      if !Committed(p.phase) {
        MidwayBalanced(s.entry, p.call, p.phase, s.memory);
        if p.phase.Sending? {
          SendingSoFar(s.entry, p.call.data, p.phase.next);
        } else {
          MidwaySends(s.entry, p.call, p.phase, s.memory);
        }
      }
    }
  }

  /** Only the holder is in the loop of a sync, and its index is within the table. */
  lemma OnlyHolderSends(t0: Table, s: System, u: nat)
    requires Inv(t0, s) && u < |s.threads| && s.threads[u].Inside? && s.threads[u].phase.Sending?
    ensures s.holder == Some(u) && s.threads[u].call.SyncCall?
    ensures s.threads[u].phase.next <= |At(t0, s.history, |s.history|).rooms|
  {
    hide At, HistoryOk, PlaceOk, Holders, Valid;
  }

  /** In every state of every execution: nothing has been sent on, or closed, without being open,
      and the log of sends is one datagram per live room of each completed sync, as the table was
      when that sync held the mutex, followed by the rooms already served by a sync under way, whose
      loop index is within the table. Whatever a stop does between a sync's unlocked test and its
      section changes only which rooms are live. */
  lemma SyncSendsOncePerLiveRoom(t0: Table, trace: seq<System>, i: nat)
    requires Execution(t0, trace) && i < |trace|
    ensures var s := trace[i];
            && s.memory.kernel.faults == 0
            && s.memory.kernel.sends == AllDatagrams(t0, Sections(s.history)) + SentByHolder(t0, s)
            && forall u :: 0 <= u < |s.threads| && s.threads[u].Inside? && s.threads[u].phase.Sending? ==>
                 s.holder == Some(u) && s.threads[u].call.SyncCall?
                 && s.threads[u].phase.next <= |At(t0, s.history, |s.history|).rooms|
  {
    hide Execution, Inv, Good, At, SentByHolder, AllDatagrams;
    var s := trace[i];
    ExecutionRun(t0, trace, i);
    RunKeeps(t0, Sections(s.history));
    RunSends(t0, Sections(s.history));
    HolderSends(t0, s);
    forall u | 0 <= u < |s.threads| && s.threads[u].Inside? && s.threads[u].phase.Sending?
      ensures s.holder == Some(u) && s.threads[u].call.SyncCall?
      ensures s.threads[u].phase.next <= |At(t0, s.history, |s.history|).rooms|
    {
      OnlyHolderSends(t0, s, u);
    }
  }
}

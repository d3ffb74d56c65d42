/** Progress in the executions of Threads.dfy: a thread that holds the mutex releases it after at most
    eleven steps of its own, with one exception, a cleanup that found the table running. */
module Progress {
  import opened Descriptors
  import opened CStrings
  import opened Options
  import opened RoomTable
  import opened RoomMemory
  import opened RoomRuns
  import opened Interleaving
  import opened Threads

  function Last(trace: seq<System>): System
    requires trace != []
  {
    trace[|trace| - 1]
  }

  // ---------------------------------------------------------------- who can move

  /** The thread is a cleanup whose nested stop locks the mutex. */
  predicate Hangs(s: System, u: nat) {
    u < |s.threads| && s.threads[u].Inside? && s.threads[u].phase.Relocking?
  }

  /** A thread waits for a mutex that is held, or hangs in such a cleanup. */
  predicate Blocked(s: System, u: nat)
    requires u < |s.threads|
  {
    (s.threads[u].Waiting? && s.holder.Some?) || Hangs(s, u)
  }

  /** In every state of every execution a thread has no next step exactly when it is blocked. */
  lemma BlockedIff(t0: Table, trace: seq<System>, i: nat, u: nat)
    requires Execution(t0, trace) && i < |trace| && u < |trace[i].threads|
    ensures (forall c, s' :: !Next(trace[i], u, c, s')) <==> Blocked(trace[i], u)
  {
    hide Execution, Inv;
    ExecutionInv(t0, trace, i);
    if Hangs(trace[i], u) {
      forall c, s' ensures !Next(trace[i], u, c, s') {
        NestedStopNeverLocks(t0, trace[i], u, c, s');
      }
    } else if !Blocked(trace[i], u) {
      var _, _ := StepOf(t0, trace[i], u);
    }
  }

  lemma StepOf(t0: Table, s: System, u: nat) returns (c: Choice, s': System)
    requires Inv(t0, s) && u < |s.threads| && !Blocked(s, u)
    ensures Next(s, u, c, s')
  {
    hide At, HistoryOk, Midway, Micro, PlaceOk;
    c := Choice(StopCall, -1, true);
    match s.threads[u]
    case Idle => s' := Move(s, u, Waiting(StopCall));
    case Checking(data) => s' := Move(s, u, if s.memory.running then Waiting(SyncCall(data)) else Refused);
    case Waiting(call) => s' := Acquire(s, u, call);
    case Inside(call, phase) =>
      if phase.Leaving? {
        s' := Move(s, u, Outside(call, phase.status, phase.names, phase.commit)).(holder := None);
      } else {
        MidwayAble(s.entry, call, phase, s.memory);
        s' := After(s, u, call, Micro(s.memory, call, phase, c, |s.history|));
      }
    case Counting(names, commit) => s' := Move(s, u, Listed(names, s.memory.count, commit, |s.history|));
    case _ => s' := Move(s, u, Idle);
  }

  // ---------------------------------------------------------------- steps left under the mutex

  /** A bound on the steps a thread still makes before it has released the mutex. */
  function StepsLeft(phase: Phase, count: int): int {
    match phase
    case Entered => 11
    case Named => 3
    case Socketed(_) => 2
    case Shifting(_, next) => 2 + count - next
    case Uncleared(_) => 2
    case Clearing(next, _) => 2 + MAX_ROOMS - next
    case Opened(_) => 2
    case Dropping(next) => 2 + MAX_ROOMS - next
    case Sending(next) => 2 + count - next
    case Copying(names) => 2 + count - |names|
    case Leaving(_, _, _) => 1
    case Relocking => 0
  }

  lemma StepsLeftBounds(entry: Memory, m: Memory, call: Call, phase: Phase)
    requires Midway(entry, call, phase, m)
    ensures phase.Shifting? ==> phase.next < m.count
    ensures phase.Dropping? || phase.Clearing? || phase.Sending? || phase.Copying? ==> 2 <= StepsLeft(phase, m.count)
    ensures 0 <= StepsLeft(phase, m.count) <= 11
    ensures StepsLeft(phase, m.count) == 0 <==> phase.Relocking?
  {
    hide Text, StrLen, Find;
    MidwayAble(entry, call, phase, m);
    match phase
    case Shifting(index, next) => ShiftEffect(CloseEntry(entry, index), index, next);
    case _ =>
  }

  lemma StepsLeftDrop(entry: Memory, m: Memory, call: Call, phase: Phase, c: Choice, at: nat)
    requires Midway(entry, call, phase, m) && Granted(m, call, phase, c) && Working(phase)
    ensures Able(m, call, phase)
    ensures var e := Micro(m, call, phase, c, at); StepsLeft(e.phase, e.memory.count) < StepsLeft(phase, m.count)
  {
    hide Text, StrLen, Find, Midway;
    MidwayAble(entry, call, phase, m);
    StepsLeftBounds(entry, m, call, phase);
  }

  function Remaining(s: System, u: nat): int
    requires u < |s.threads|
  {
    if s.threads[u].Inside? then StepsLeft(s.threads[u].phase, s.memory.count) else 0
  }

  lemma RemainingBounds(t0: Table, s: System, u: nat)
    requires Inv(t0, s) && u < |s.threads| && s.threads[u].Inside?
    ensures 0 <= Remaining(s, u) <= 11 && (Remaining(s, u) == 0 <==> Hangs(s, u))
  {
    hide At, HistoryOk, PlaceOk, Midway, Holders;
    StepsLeftBounds(s.entry, s.memory, s.threads[u].call, s.threads[u].phase);
  }

  /** The holder's own step: it stays inside with fewer steps left, or releases the mutex. */
  lemma OwnStep(t0: Table, s: System, u: nat, c: Choice, s': System)
    requires Inv(t0, s) && Next(s, u, c, s') && s.threads[u].Inside?
    ensures |s'.threads| == |s.threads|
    ensures var p, p' := s.threads[u], s'.threads[u];
            if p.phase.Leaving? then Finished(p') && ForCall(p', p.call) && s'.holder.None?
            else p'.Inside? && p'.call == p.call && s'.entry == s.entry && Remaining(s', u) < Remaining(s, u)
  {
    hide At, HistoryOk, PlaceOk, Midway, Holders, Micro;
    var call, phase := s.threads[u].call, s.threads[u].phase;
    if Working(phase) {
      StepsLeftDrop(s.entry, s.memory, call, phase, c, |s.history|);
    } else if phase.Relocking? {
      NestedStopNeverLocks(t0, s, u, c, s');
    }
  }

  /** Steps of other threads leave the holder, and what it works on, alone. */
  lemma OtherStep(t0: Table, s: System, v: nat, c: Choice, s': System, u: nat)
    requires Inv(t0, s) && Next(s, v, c, s') && u < |s.threads| && u != v && s.threads[u].Inside?
    ensures |s'.threads| == |s.threads| && s'.threads[u] == s.threads[u]
    ensures s'.entry == s.entry && s'.memory == s.memory && s'.holder == s.holder == Some(u)
    ensures s'.history == s.history && s'.acquired == s.acquired
  {
    hide At, HistoryOk, PlaceOk, Midway, Holders;
  }

  // ---------------------------------------------------------------- counting steps

  ghost predicate StepsAs(s: System, v: nat, s': System) {
    exists c :: Next(s, v, c, s')
  }

  /** Thread `v` makes the step from state `i` to the next. */
  ghost predicate StepBy(trace: seq<System>, i: nat, v: nat)
    requires i + 1 < |trace|
  {
    StepsAs(trace[i], v, trace[i + 1])
  }

  /** Which thread made each step of an execution. */
  ghost predicate Labelled(trace: seq<System>, who: seq<nat>) {
    |who| + 1 == |trace| && forall i :: 0 <= i < |who| ==> StepBy(trace, i, who[i])
  }

  lemma {:induction false} LabelsExist(t0: Table, trace: seq<System>, n: nat) returns (who: seq<nat>)
    requires Execution(t0, trace) && n < |trace|
    ensures |who| == n && forall i :: 0 <= i < n ==> StepBy(trace, i, who[i])
    ensures n + 1 == |trace| ==> Labelled(trace, who)
  {
    hide Next, Initial;
    if n == 0 {
      who := [];
    } else {
      var front := LabelsExist(t0, trace, n - 1);
      assert StepsAt(trace, n - 1);
      var u: nat, c: Choice :| Next(trace[n - 1], u, c, trace[n - 1 + 1]);
      assert StepBy(trace, n - 1, u);
      who := front + [u];
    }
  }

  /** How many of the steps from state `i` to state `j` are thread `u`'s. */
  function Own(who: seq<nat>, u: nat, i: nat, j: nat): nat
    requires i <= j <= |who|
    decreases j
  {
    if i == j then 0 else Own(who, u, i, j - 1) + if who[j - 1] == u then 1 else 0
  }

  predicate HasFinished(s: System, u: nat, call: Call) {
    u < |s.threads| && Finished(s.threads[u]) && ForCall(s.threads[u], call)
  }

  ghost predicate FinishesBy(trace: seq<System>, u: nat, call: Call, i: nat, j: nat)
    requires i <= j < |trace|
  {
    exists k :: i < k <= j && HasFinished(trace[k], u, call)
  }

  /** A thread that was inside is still inside the same section, with one step fewer left for each it
      made, or has finished. */
  ghost predicate Advanced(trace: seq<System>, who: seq<nat>, u: nat, i: nat, j: nat)
    requires i <= j < |trace| && |who| + 1 == |trace| && u < |trace[i].threads| && trace[i].threads[u].Inside?
  {
    || FinishesBy(trace, u, trace[i].threads[u].call, i, j)
    || (u < |trace[j].threads| && trace[j].threads[u].Inside? && trace[j].threads[u].call == trace[i].threads[u].call
        && trace[j].entry == trace[i].entry
        && Own(who, u, i, j) + Remaining(trace[j], u) <= Remaining(trace[i], u))
  }

  lemma {:induction false} InsideAdvances(t0: Table, trace: seq<System>, who: seq<nat>, u: nat, i: nat, j: nat)
    requires Execution(t0, trace) && Labelled(trace, who) && i <= j < |trace|
    requires u < |trace[i].threads| && trace[i].threads[u].Inside?
    ensures Advanced(trace, who, u, i, j)
    decreases j
  {
    hide Execution, Inv, StepsAs, Advanced;
    if i == j {
      AdvancedStart(trace, who, u, i);
    } else {
      InsideAdvances(t0, trace, who, u, i, j - 1);
      ExecutionInv(t0, trace, j - 1);
      assert StepBy(trace, j - 1, who[j - 1]);
      AdvancedStep(t0, trace, who, u, i, j);
    }
  }

  lemma AdvancedStart(trace: seq<System>, who: seq<nat>, u: nat, i: nat)
    requires i < |trace| && |who| + 1 == |trace| && u < |trace[i].threads| && trace[i].threads[u].Inside?
    ensures Advanced(trace, who, u, i, i)
  {
    hide Remaining;
  }

  lemma AdvancedStep(t0: Table, trace: seq<System>, who: seq<nat>, u: nat, i: nat, j: nat)
    requires i < j < |trace| && |who| + 1 == |trace| && u < |trace[i].threads| && trace[i].threads[u].Inside?
    requires Advanced(trace, who, u, i, j - 1) && Inv(t0, trace[j - 1]) && StepsAs(trace[j - 1], who[j - 1], trace[j])
    ensures Advanced(trace, who, u, i, j)
  {
    hide Inv, StepsAs, Remaining, HasFinished;
    var call := trace[i].threads[u].call;
    if FinishesBy(trace, u, call, i, j - 1) {
      var k :| i < k <= j - 1 && HasFinished(trace[k], u, call);
      assert FinishesBy(trace, u, call, i, j);
    } else {
      InsideStep(t0, trace[j - 1], who[j - 1], trace[j], u);
      if HasFinished(trace[j], u, call) {
        assert FinishesBy(trace, u, call, i, j);
      }
    }
  }

  lemma InsideStep(t0: Table, s: System, v: nat, s': System, u: nat)
    requires Inv(t0, s) && StepsAs(s, v, s') && u < |s.threads| && s.threads[u].Inside?
    ensures || HasFinished(s', u, s.threads[u].call)
            || (u < |s'.threads| && s'.threads[u].Inside? && s'.threads[u].call == s.threads[u].call
                && s'.entry == s.entry && Remaining(s', u) + (if v == u then 1 else 0) <= Remaining(s, u))
  {
    hide Inv, Next, StepsLeft;
    var c :| Next(s, v, c, s');
    if v == u {
      OwnStep(t0, s, u, c, s');
    } else {
      OtherStep(t0, s, v, c, s', u);
    }
  }

  /** A thread inside a section that makes eleven more steps has finished its call, whatever the other
      threads do, or hangs in a cleanup that found the table running. */
  lemma SectionEnds(t0: Table, trace: seq<System>, who: seq<nat>, u: nat, i: nat, j: nat)
    requires Execution(t0, trace) && Labelled(trace, who) && i <= j < |trace|
    requires u < |trace[i].threads| && trace[i].threads[u].Inside?
    requires Own(who, u, i, j) >= 11
    ensures || FinishesBy(trace, u, trace[i].threads[u].call, i, j)
            || (Hangs(trace[j], u) && trace[i].threads[u].call.CleanupCall? && trace[i].entry.running)
  {
    hide Execution, Inv, StepsLeft, Labelled;
    InsideAdvances(t0, trace, who, u, i, j);
    ExecutionInv(t0, trace, i);
    RemainingBounds(t0, trace[i], u);
    if !FinishesBy(trace, u, trace[i].threads[u].call, i, j) {
      ExecutionInv(t0, trace, j);
      RemainingBounds(t0, trace[j], u);
      HangFoundRunning(t0, trace[j], u);
    }
  }

  lemma HangFoundRunning(t0: Table, s: System, u: nat)
    requires Inv(t0, s) && Hangs(s, u)
    ensures s.threads[u].call.CleanupCall? && s.entry.running && s.memory == s.entry && s.holder == Some(u)
  {
    hide At, HistoryOk, PlaceOk, Holders;
  }

  // ---------------------------------------------------------------- longer executions

  lemma Extend(t0: Table, trace: seq<System>, u: nat, c: Choice, s': System)
    requires Execution(t0, trace) && Next(Last(trace), u, c, s')
    ensures Execution(t0, trace + [s'])
  {
    hide Next, Initial;
    var longer := trace + [s'];
    forall i | 0 <= i < |longer| - 1 ensures StepsAt(longer, i) {
      if i < |trace| - 1 {
        assert StepsAt(trace, i);
      } else {
        assert Next(longer[i], u, c, longer[i + 1]);
      }
    }
  }

  /** Any call inside its section can be finished in at most eleven steps, unless it is a cleanup that
      found the table running. */
  lemma {:induction false} CanFinish(t0: Table, trace: seq<System>, u: nat) returns (more: seq<System>)
    requires trace != [] && Execution(t0, trace)
    requires u < |Last(trace).threads| && Last(trace).threads[u].Inside?
    requires Last(trace).threads[u].call.CleanupCall? && !Last(trace).threads[u].phase.Leaving? ==>
      !Last(trace).entry.running
    ensures 0 < |more| <= 11 && Execution(t0, trace + more)
    ensures u < |Last(more).threads| && Finished(Last(more).threads[u])
    ensures ForCall(Last(more).threads[u], Last(trace).threads[u].call)
    ensures Last(more).holder.None? && |more| <= Remaining(Last(trace), u)
    decreases Remaining(Last(trace), u)
  {
    hide Inv, Next, Execution, StepsLeft;
    var s := Last(trace);
    ExecutionInv(t0, trace, |trace| - 1);
    RemainingBounds(t0, s, u);
    if Hangs(s, u) {
      HangFoundRunning(t0, s, u);
    }
    InsideHolds(t0, s, u);
    var c, s' := StepOf(t0, s, u);
    Extend(t0, trace, u, c, s');
    OwnStep(t0, s, u, c, s');
    if s.threads[u].phase.Leaving? {
      more := [s'];
    } else {
      ExecutionInv(t0, trace + [s'], |trace|);
      RemainingBounds(t0, s', u);
      var rest := CanFinish(t0, trace + [s'], u);
      more := [s'] + rest;
      assert trace + more == trace + [s'] + rest;
    }
  }

  lemma InsideHolds(t0: Table, s: System, u: nat)
    requires Inv(t0, s) && u < |s.threads| && s.threads[u].Inside?
    ensures s.holder == Some(u)
  {
    hide At, HistoryOk, PlaceOk, Holders, Midway;
  }

  // ---------------------------------------------------------------- the cleanup

  /** The thread is in a cleanup that just got the mutex. */
  predicate EnteredCleanup(s: System, u: nat) {
    u < |s.threads| && s.threads[u] == Inside(CleanupCall, Entered)
  }

  lemma EntryFound(t0: Table, s: System, u: nat)
    requires Inv(t0, s) && EnteredCleanup(s, u)
    ensures s.entry == s.memory && s.holder == Some(u)
  {
    hide At, HistoryOk, PlaceOk, Holders;
  }

  lemma CleanupStatus(t0: Table, s: System, u: nat)
    requires Inv(t0, s) && HasFinished(s, u, CleanupCall)
    ensures s.threads[u].Returned? && s.threads[u].status == 0
  {
    hide At, MutexOk;
  }

  /** The thread is in a cleanup that found the table running, and nothing sections change has changed
      since state `s`. */
  ghost predicate Frozen(s: System, u: nat, s': System) {
    && u < |s'.threads|
    && (EnteredCleanup(s', u) || s'.threads[u] == Inside(CleanupCall, Relocking))
    && s'.entry.running && s'.holder == s.holder == Some(u)
    && s'.memory == s.memory && s'.history == s.history && s'.acquired == s.acquired
  }

  lemma FrozenStep(t0: Table, s: System, u: nat, s': System, s'': System)
    requires Frozen(s, u, s') && Inv(t0, s') && Steps(s', s'')
    ensures Frozen(s, u, s'')
  {
    hide At, HistoryOk, PlaceOk, Holders, Midway;
    var v: nat, c: Choice :| Next(s', v, c, s'');
    if v == u {
      if Hangs(s', u) {
        NestedStopNeverLocks(t0, s', u, c, s'');
      } else {
        EntryFound(t0, s', u);
      }
    } else {
      OtherStep(t0, s', v, c, s'', u);
    }
  }

  /** A cleanup that found the table running never releases the mutex: from then on no section
      completes and the arrays never change, whatever the other threads do. */
  lemma {:induction false} DeadlockIsForever(t0: Table, trace: seq<System>, u: nat, i: nat, j: nat)
    requires Execution(t0, trace) && i <= j < |trace|
    requires Hangs(trace[i], u) || (EnteredCleanup(trace[i], u) && trace[i].memory.running)
    ensures Frozen(trace[i], u, trace[j])
    decreases j
  {
    hide Inv, Steps, Initial;
    ExecutionInv(t0, trace, i);
    if Hangs(trace[i], u) {
      HangFoundRunning(t0, trace[i], u);
    } else {
      EntryFound(t0, trace[i], u);
    }
    if i < j {
      hide Frozen;
      DeadlockIsForever(t0, trace, u, i, j - 1);
      ExecutionInv(t0, trace, j - 1);
      assert StepsAt(trace, j - 1);
      FrozenStep(t0, trace[i], u, trace[j - 1], trace[j]);
    }
  }

  ghost predicate ReturnsBy(trace: seq<System>, u: nat, i: nat, j: nat)
    requires i <= j < |trace|
  {
    exists k :: i < k <= j && CleanupReturned(trace[k], u)
  }

  predicate CleanupReturned(s: System, u: nat) {
    u < |s.threads| && s.threads[u].Returned? && s.threads[u].call.CleanupCall? && s.threads[u].status == 0
  }

  /** A cleanup that found the table stopped has returned 0 once it made eleven more steps. */
  lemma CleanupReturnsWhenStopped(t0: Table, trace: seq<System>, who: seq<nat>, u: nat, i: nat, j: nat)
    requires Execution(t0, trace) && Labelled(trace, who) && i <= j < |trace|
    requires EnteredCleanup(trace[i], u) && !trace[i].memory.running
    requires Own(who, u, i, j) >= 11
    ensures ReturnsBy(trace, u, i, j)
  {
    hide Execution, Inv, Labelled, Own;
    ExecutionInv(t0, trace, i);
    EntryFound(t0, trace[i], u);
    SectionEnds(t0, trace, who, u, i, j);
    var k :| i < k <= j && HasFinished(trace[k], u, CleanupCall);
    ExecutionInv(t0, trace, k);
    CleanupStatus(t0, trace[k], u);
    assert CleanupReturned(trace[k], u);
  }

  lemma RunningIsUp(t0: Table, trace: seq<System>)
    requires trace != [] && Execution(t0, trace)
    ensures Last(trace).memory.running <==> exists n :: UpSince(t0, Sections(Last(trace).history), n)
  {
    hide Execution, At, Replay, UpSince, HistoryOk, MutexOk, PlaceOk;
    ExecutionRun(t0, trace, |trace| - 1);
    RunningIff(t0, Sections(Last(trace).history));
  }

  ghost predicate Returns(t0: Table, trace: seq<System>, more: seq<System>, u: nat) {
    more != [] && Execution(t0, trace + more) && CleanupReturned(Last(more), u)
  }

  /** After every execution that has just brought a cleanup into its section: some continuation lets
      it return if and only if the table is not running, which is to say that every start that took
      effect so far has had a stop after it. */
  lemma CleanupReturnsIff(t0: Table, trace: seq<System>, u: nat)
    requires trace != [] && Execution(t0, trace) && EnteredCleanup(Last(trace), u)
    ensures (exists more :: Returns(t0, trace, more, u)) <==> !Last(trace).memory.running
    ensures Last(trace).memory.running <==> exists n :: UpSince(t0, Sections(Last(trace).history), n)
  {
    hide Execution, Inv, UpSince;
    var n := |trace| - 1;
    RunningIsUp(t0, trace);
    ExecutionInv(t0, trace, n);
    EntryFound(t0, trace[n], u);
    if trace[n].memory.running {
      forall more | more != [] && Execution(t0, trace + more) ensures !CleanupReturned(Last(more), u) {
        var all := trace + more;
        DeadlockIsForever(t0, all, u, n, |all| - 1);
        assert Last(more) == all[|all| - 1];
      }
    } else {
      var more := CanFinish(t0, trace, u);
      var all := trace + more;
      ExecutionInv(t0, all, |all| - 1);
      assert Last(more) == all[|all| - 1];
      CleanupStatus(t0, Last(more), u);
      assert Returns(t0, trace, more, u);
    }
  }

  // ---------------------------------------------------------------- when the hang can happen

  /** Some continuation of the execution hangs. */
  ghost predicate CanHang(t0: Table, trace: seq<System>) {
    exists more :: HangsAfter(t0, trace, more)
  }

  ghost predicate HangsAfter(t0: Table, trace: seq<System>, more: seq<System>) {
    && trace + more != [] && Execution(t0, trace + more)
    && exists u :: Hangs(Last(trace + more), u)
  }

  lemma HangsLater(t0: Table, trace: seq<System>, more: seq<System>)
    requires CanHang(t0, trace + more)
    ensures CanHang(t0, trace)
  {
    hide Execution;
    var rest :| HangsAfter(t0, trace + more, rest);
    assert trace + (more + rest) == trace + more + rest;
    assert HangsAfter(t0, trace, more + rest);
  }

  /** Nobody holds the mutex, and thread `u` is about to make this call. */
  ghost predicate Ready(t0: Table, trace: seq<System>, u: nat) {
    && trace != [] && Execution(t0, trace) && Last(trace).holder.None?
    && u < |Last(trace).threads| && Last(trace).threads[u].Idle?
  }

  lemma FreeShaped(t0: Table, trace: seq<System>)
    requires trace != [] && Execution(t0, trace) && Last(trace).holder.None?
    ensures Shaped(Last(trace).memory)
  {
    hide Execution, At, HistoryOk, PlaceOk, Holders;
    ExecutionInv(t0, trace, |trace| - 1);
  }

  /** A ready thread makes a call and gets the mutex. */
  lemma MakeCall(t0: Table, trace: seq<System>, u: nat, call: Call) returns (s': System, longer: seq<System>)
    requires Ready(t0, trace, u) && WellFormed(call) && !call.SyncCall?
    ensures longer != [] && Execution(t0, longer) && Last(longer) == s' && trace <= longer
    ensures s' == Acquire(Last(trace), u, call) && Shaped(s'.memory)
    ensures u < |s'.threads| && s'.threads[u] == Inside(call, Entered)
  {
    hide Execution, Shaped;
    FreeShaped(t0, trace);
    var c := Choice(call, -1, true);
    var s := Last(trace);
    var s1 := Move(s, u, Waiting(call));
    s' := Acquire(s1, u, call);
    Extend(t0, trace, u, c, s1);
    Extend(t0, trace + [s1], u, c, s');
    longer := trace + [s1] + [s'];
    assert s'.threads == s.threads[u := Inside(call, Entered)];
  }

  /** A section that is about to be left, and the next call after it. */
  lemma Leave(t0: Table, trace: seq<System>, u: nat) returns (longer: seq<System>)
    requires trace != [] && Execution(t0, trace) && u < |Last(trace).threads| && Last(trace).threads[u].Inside?
    requires Last(trace).threads[u].phase.Leaving? && !Last(trace).threads[u].call.ListCall?
    ensures Ready(t0, longer, u) && Last(longer).memory == Last(trace).memory && trace <= longer
  {
    hide Execution;
    var c := Choice(StopCall, -1, true);
    var s := Last(trace);
    var p := s.threads[u];
    var s1 := Move(s, u, Outside(p.call, p.phase.status, p.phase.names, p.phase.commit)).(holder := None);
    var s2 := Move(s1, u, Idle);
    Extend(t0, trace, u, c, s1);
    Extend(t0, trace + [s1], u, c, s2);
    longer := trace + [s1] + [s2];
  }

  lemma HangsFrom(t0: Table, trace: seq<System>, longer: seq<System>)
    requires trace <= longer && CanHang(t0, longer)
    ensures CanHang(t0, trace)
  {
    hide CanHang;
    assert longer == trace + longer[|trace|..];
    HangsLater(t0, trace, longer[|trace|..]);
  }

  lemma HangsHere(t0: Table, trace: seq<System>, u: nat)
    requires trace != [] && Execution(t0, trace) && Hangs(Last(trace), u)
    ensures CanHang(t0, trace)
  {
    hide Execution;
    assert trace + [] == trace;
    assert HangsAfter(t0, trace, []);
  }

  /** A cleanup that got the mutex of a running table hangs at its next step. */
  lemma CleanupHangs(t0: Table, trace: seq<System>, u: nat)
    requires trace != [] && Execution(t0, trace) && EnteredCleanup(Last(trace), u)
    requires Shaped(Last(trace).memory) && Last(trace).memory.running
    ensures CanHang(t0, trace)
  {
    hide Execution, CanHang;
    var c := Choice(CleanupCall, -1, true);
    var s := Last(trace);
    var s' := After(s, u, CleanupCall, Effect(s.memory, Relocking, None));
    assert Next(s, u, c, s');
    Extend(t0, trace, u, c, s');
    HangsHere(t0, trace + [s'], u);
    HangsLater(t0, trace, [s']);
  }

  lemma RunningHangs(t0: Table, trace: seq<System>, u: nat)
    requires Ready(t0, trace, u) && Last(trace).memory.running
    ensures CanHang(t0, trace)
  {
    hide Execution, CanHang, Shaped;
    var s', longer := MakeCall(t0, trace, u, CleanupCall);
    CleanupHangs(t0, longer, u);
    HangsFrom(t0, trace, longer);
  }

  lemma {:induction false} FreshDescriptor(open: set<int>) returns (fd: nat)
    ensures forall x :: x in open ==> x < fd
    decreases |open|
  {
    fd := 0;
    if x :| x in open {
      var above := FreshDescriptor(open - {x});
      fd := if x < above then above else x + 1;
      forall y | y in open ensures y < fd {
        assert y == x || y in open - {x};
      }
    }
  }

  lemma OpenStep(s: System, u: nat, c: Choice, s': System)
    requires u < |s.threads| && s.threads[u] == Inside(StartCall, Entered) && Shaped(s.memory)
    requires s.memory.enabled && !s.memory.running && c.sock >= 0 && Grants(s.memory.kernel, c.sock)
    requires s' == After(s, u, StartCall,
                         Effect(s.memory.(kernel := Open(s.memory.kernel, c.sock)), Opened(c.sock), None))
    ensures Next(s, u, c, s') && Shaped(s'.memory)
  {
  }

  lemma BindStep(s: System, u: nat, c: Choice, s': System)
    requires u < |s.threads| && s.threads[u] == Inside(StartCall, Opened(c.sock)) && Shaped(s.memory) && c.bound
    requires s' == After(s, u, StartCall, Done(s.memory.(running := true), Start(c.sock, true), 0, |s.history|))
    ensures Next(s, u, c, s')
  {
  }

  /** A start that gets and binds a socket leaves an enabled table running. */
  lemma EnabledHangs(t0: Table, trace: seq<System>, u: nat)
    requires Ready(t0, trace, u) && Last(trace).memory.enabled
    ensures CanHang(t0, trace)
  {
    hide Execution, CanHang, Shaped;
    if Last(trace).memory.running {
      RunningHangs(t0, trace, u);
    } else {
      var s, entered := MakeCall(t0, trace, u, StartCall);
      var fd := FreshDescriptor(s.memory.kernel.open);
      var c := Choice(StartCall, fd, true);
      var s1 := After(s, u, StartCall, Effect(s.memory.(kernel := Open(s.memory.kernel, fd)), Opened(fd), None));
      OpenStep(s, u, c, s1);
      Extend(t0, entered, u, c, s1);
      var s2 := After(s1, u, StartCall, Done(s1.memory.(running := true), Start(fd, true), 0, |s1.history|));
      BindStep(s1, u, c, s2);
      hide Next;
      Extend(t0, entered + [s1], u, c, s2);
      var longer := Leave(t0, entered + [s1] + [s2], u);
      RunningHangs(t0, longer, u);
      HangsFrom(t0, trace, longer);
    }
  }

  /** Enabling the table is one step under the mutex. */
  lemma ReadyHangs(t0: Table, trace: seq<System>, u: nat)
    requires Ready(t0, trace, u)
    ensures CanHang(t0, trace)
  {
    hide Execution, CanHang, Shaped;
    var call := ConfigureCall(true);
    var s, entered := MakeCall(t0, trace, u, call);
    var c := Choice(call, -1, true);
    var s1 := After(s, u, call, Done(s.memory.(enabled := true), Configure(true), 0, |s.history|));
    assert Next(s, u, c, s1);
    hide Next;
    Extend(t0, entered, u, c, s1);
    var longer := Leave(t0, entered + [s1], u);
    EnabledHangs(t0, longer, u);
    HangsFrom(t0, trace, longer);
  }

  /** Calls a thread outside the mutex has to finish before it can make another, in steps. */
  function Ahead(p: Place): nat {
    match p
    case Idle => 0
    case Checking(_) => 4
    case Waiting(_) => 3
    case Counting(_, _) => 2
    case Inside(_, _) => 5
    case _ => 1
  }

  /** Whoever is inside finishes, or hangs. */
  lemma InsideHangsOrFinishes(t0: Table, trace: seq<System>, u: nat) returns (longer: seq<System>)
    requires trace != [] && Execution(t0, trace) && u < |Last(trace).threads| && Last(trace).threads[u].Inside?
    ensures || CanHang(t0, trace)
            || (longer != [] && Execution(t0, longer) && trace <= longer && Last(longer).holder.None?
                && u < |Last(longer).threads| && Finished(Last(longer).threads[u]))
  {
    hide Execution, CanHang, Inv;
    var s := Last(trace);
    longer := trace;
    ExecutionInv(t0, trace, |trace| - 1);
    if s.threads[u].call.CleanupCall? && !s.threads[u].phase.Leaving? && s.entry.running {
      DoomedCleanup(t0, s, u);
      if Hangs(s, u) {
        HangsHere(t0, trace, u);
      } else {
        CleanupHangs(t0, trace, u);
      }
    } else {
      var more := CanFinish(t0, trace, u);
      longer := trace + more;
    }
  }

  /** A cleanup that found the table running is at its first step or hangs. */
  lemma DoomedCleanup(t0: Table, s: System, u: nat)
    requires Inv(t0, s) && u < |s.threads| && s.threads[u].Inside? && s.threads[u].call.CleanupCall?
    requires !s.threads[u].phase.Leaving? && s.entry.running
    ensures Hangs(s, u) || (EnteredCleanup(s, u) && Shaped(s.memory) && s.memory.running)
  {
    hide At, HistoryOk, PlaceOk, Holders;
  }

  /** With the mutex free, a thread gets to its next call or to the hang, one step at a time. */
  lemma {:induction false} FreeHangs(t0: Table, trace: seq<System>, u: nat)
    requires trace != [] && Execution(t0, trace) && Last(trace).holder.None? && u < |Last(trace).threads|
    ensures CanHang(t0, trace)
    decreases Ahead(Last(trace).threads[u])
  {
    hide Execution, CanHang, Inv;
    var s := Last(trace);
    ExecutionInv(t0, trace, |trace| - 1);
    FreeHasNoneInside(t0, s, u);
    if s.threads[u].Idle? {
      ReadyHangs(t0, trace, u);
    } else {
      var c, s' := StepOf(t0, s, u);
      Extend(t0, trace, u, c, s');
      if s.threads[u].Waiting? {
        var longer := InsideHangsOrFinishes(t0, trace + [s'], u);
        if !CanHang(t0, trace + [s']) {
          FreeHangs(t0, longer, u);
          HangsFrom(t0, trace + [s'], longer);
        }
      } else {
        FreeHangs(t0, trace + [s'], u);
      }
      HangsLater(t0, trace, [s']);
    }
  }

  lemma FreeHasNoneInside(t0: Table, s: System, u: nat)
    requires Inv(t0, s) && s.holder.None? && u < |s.threads|
    ensures !s.threads[u].Inside?
  {
    hide At, HistoryOk, PlaceOk, Holders;
  }

  /** The hang is never out of reach: after every execution with a thread in it, some continuation
      hangs. One `multiroom_set_config`, one start and one cleanup suffice. */
  lemma HangAlwaysReachable(t0: Table, trace: seq<System>)
    requires trace != [] && Execution(t0, trace) && Last(trace).threads != []
    ensures CanHang(t0, trace)
  {
    hide Execution, CanHang, Inv;
    var s := Last(trace);
    if s.holder.None? {
      FreeHangs(t0, trace, 0);
    } else {
      ExecutionInv(t0, trace, |trace| - 1);
      var u := HolderInside(t0, s);
      var longer := InsideHangsOrFinishes(t0, trace, u);
      if !CanHang(t0, trace) {
        FreeHangs(t0, longer, u);
        HangsFrom(t0, trace, longer);
      }
    }
  }

  lemma HolderInside(t0: Table, s: System) returns (u: nat)
    requires Inv(t0, s) && s.holder.Some?
    ensures u < |s.threads| && s.threads[u].Inside?
  {
    hide At, HistoryOk, PlaceOk, Holders, Midway;
    u := s.holder.value;
  }
}

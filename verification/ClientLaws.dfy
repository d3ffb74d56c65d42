/** What a caller of src/airplay_server.c can rely on, function by function: the slots one by one, the
    listener, the running flag, the return value and the logs of the kernel, before and after. These
    laws use none of the functions that define the operations of ClientTable.dfy, and hold of no
    other behaviour. */
module ClientLaws {
  import opened Descriptors
  import opened ClientTable
  import opened ClientRuns

  // ---------------------------------------------------------------- the laws

  /** A start succeeds when every system call does. It keeps the descriptor's number either way, and
      closes the descriptor on a failure after `socket`. */
  ghost predicate StartLaw(s: Server, sock: int, bound: bool, listening: bool, mdns: bool, s': Server, status: int) {
    var ok := sock >= 0 && bound && listening && mdns;
    && status == (if ok then 0 else -1)
    && s'.listener == sock && s'.slots == s.slots && (s'.running <==> s.running || ok)
    && Logged(s.kernel, if sock >= 0 then [sock] else [], if sock >= 0 && !ok then [sock] else [], [], [], s'.kernel)
  }

  /** A stop closes the connected clients in slot order, then `socket_fd` if it is a number, which it
      forgets. The slots keep their descriptor numbers and peers. */
  ghost predicate StopLaw(s: Server, s': Server) {
    && !s'.running && s'.listener == (if s.listener >= 0 then -1 else s.listener)
    && |s'.slots| == |s.slots|
    && (forall i :: 0 <= i < |s.slots| ==>
          s'.slots[i].fd == s.slots[i].fd && s'.slots[i].peer == s.slots[i].peer && !s'.slots[i].connected)
    && s'.kernel.open == {}
    && s'.kernel.closes == s.kernel.closes + Connected(s.slots) + (if s.listener >= 0 then [s.listener] else [])
    && s'.kernel.granted == s.kernel.granted && s'.kernel.sends == s.kernel.sends
    && s'.kernel.receives == s.kernel.receives
    && s'.kernel.faults == s.kernel.faults + if !s.running && s.listener >= 0 then 1 else 0
  }

  /** Nothing to do: the server is not running, or `select` failed, was interrupted or timed out. */
  predicate Idle(s: Server, e: Events) {
    !s.running || e.selected <= 0
  }

  ghost predicate ProcessLaw(s: Server, e: Events, s': Server, status: int)
    requires |s.slots| <= |e.received| && |s.slots| <= |e.answers|
  {
    if Idle(s, e) then
      && s' == s
      && status == if s.running && (e.selected == 0 || e.interrupted) then 0 else -1
    else
      var arrived := s.listener in e.ready && e.accepted >= 0;
      var free := FreeSlot(s.slots);
      && status == 0 && s'.running && s'.listener == s.listener && |s'.slots| == |s.slots|
      && (forall i :: 0 <= i < |s.slots| && s.slots[i].connected ==>
            var hungUp := s.slots[i].fd in e.ready && e.received[i] <= 0;
            s'.slots[i] == Slot(s.slots[i].fd, !hungUp, s.slots[i].peer))
      && (forall i :: 0 <= i < |s.slots| && !s.slots[i].connected ==>
            s'.slots[i] == if arrived && i == free then Slot(e.accepted, true, e.peer) else s.slots[i])
      && Logged(s.kernel,
                if arrived then [e.accepted] else [],
                (if arrived && free == |s.slots| then [e.accepted] else [])
                  + HangUps(s.slots, e.ready, e.received),
                Answered(s.slots, e.ready, e.received, e.answers),
                DueFds(s.slots, e.ready),
                s'.kernel)
  }

  // ---------------------------------------------------------------- the operations obey them

  lemma StartObeys(s: Server, sock: int, bound: bool, listening: bool, mdns: bool)
    requires Grants(s.kernel, sock)
    ensures var (s', status) := Start(s, sock, bound, listening, mdns);
            StartLaw(s, sock, bound, listening, mdns, s', status)
  {
  }

  lemma StopObeys(s: Server, missed: multiset<int>)
    requires Good(s, missed)
    ensures StopLaw(s, Stop(s))
  {
    hide Connected;
    StopClosesEverything(s, missed);
    CloseAllEffect(s.kernel, Connected(s.slots), missed);
  }

  lemma IdleObeys(s: Server, e: Events)
    requires |s.slots| == |e.received| == |e.answers| && Idle(s, e)
    ensures ProcessLaw(s, e, Process(s, e).0, Process(s, e).1)
  {
  }

  lemma BusyObeys(s: Server, e: Events, missed: multiset<int>)
    requires Good(s, missed) && Plausible(s, e) && !Idle(s, e)
    ensures ProcessLaw(s, e, Process(s, e).0, Process(s, e).1)
  {
    hide FreeSlot, Connected, DueFds, HangUps, Answered, Process, Balanced, Distinct, Elements;
    ProcessServesOnce(s, e);
    ProcessKeeps(s, e, missed);
    var s' := Process(s, e).0;
    var arrived := s.listener in e.ready && e.accepted >= 0;
    var granted := if arrived then [e.accepted] else [];
    var closed := (if arrived && FreeSlot(s.slots) == |s.slots| then [e.accepted] else [])
                  + HangUps(s.slots, e.ready, e.received);
    assert s'.kernel.closes == s.kernel.closes + closed;
    SameFaults(s.kernel, s'.kernel, missed);
    forall fd ensures fd in s'.kernel.open <==> (fd in s.kernel.open || fd in granted) && fd !in closed {
      OpenFromLogs(s.kernel, granted, closed, s'.kernel, missed, fd);
    }
  }

  lemma SameFaults(a: Kernel, b: Kernel, missed: multiset<int>)
    requires Balanced(a, missed) && Balanced(b, missed)
    ensures a.faults == b.faults
  {
  }

  lemma ProcessObeys(s: Server, e: Events, missed: multiset<int>)
    requires Good(s, missed) && Plausible(s, e)
    ensures |s.slots| == |e.received| == |e.answers|
    ensures ProcessLaw(s, e, Process(s, e).0, Process(s, e).1)
  {
    hide Process, ProcessLaw;
    if Idle(s, e) {
      IdleObeys(s, e);
    } else {
      BusyObeys(s, e, missed);
    }
  }

  // ---------------------------------------------------------------- and nothing else does

  lemma ServerOnce(a: Server, b: Server)
    requires a.listener == b.listener && a.running == b.running && a.kernel == b.kernel
    requires |a.slots| == |b.slots| && forall i :: 0 <= i < |a.slots| ==> a.slots[i] == b.slots[i]
    ensures a == b
  {
    assert a.slots == b.slots;
  }

  lemma ProcessOnce(s: Server, e: Events, a: Server, x: int, b: Server, y: int)
    requires |s.slots| <= |e.received| && |s.slots| <= |e.answers|
    requires ProcessLaw(s, e, a, x) && ProcessLaw(s, e, b, y)
    ensures a == b && x == y
  {
    hide Logged, FreeSlot, DueFds, HangUps, Answered;
    if !Idle(s, e) {
      var arrived := s.listener in e.ready && e.accepted >= 0;
      LoggedOnce(s.kernel,
                 if arrived then [e.accepted] else [],
                 (if arrived && FreeSlot(s.slots) == |s.slots| then [e.accepted] else [])
                   + HangUps(s.slots, e.ready, e.received),
                 Answered(s.slots, e.ready, e.received, e.answers),
                 DueFds(s.slots, e.ready),
                 a.kernel, b.kernel);
      forall i | 0 <= i < |s.slots| ensures a.slots[i] == b.slots[i] {
        if s.slots[i].connected {
        }
      }
      ServerOnce(a, b);
    }
  }

  /** In every reachable state a start does what its law says, and the law leaves it no choice. */
  lemma StartIsLaw(s: Server, sock: int, bound: bool, listening: bool, mdns: bool, s': Server, status: int)
    requires Grants(s.kernel, sock)
    ensures StartLaw(s, sock, bound, listening, mdns, s', status)
      <==> (s', status) == Start(s, sock, bound, listening, mdns)
  {
    StartObeys(s, sock, bound, listening, mdns);
    if StartLaw(s, sock, bound, listening, mdns, s', status) {
      var ok := sock >= 0 && bound && listening && mdns;
      LoggedOnce(s.kernel, if sock >= 0 then [sock] else [], if sock >= 0 && !ok then [sock] else [], [], [],
                 s'.kernel, Start(s, sock, bound, listening, mdns).0.kernel);
    }
  }

  lemma StopIsLaw(s: Server, missed: multiset<int>, s': Server)
    requires Good(s, missed)
    ensures StopLaw(s, s') <==> s' == Stop(s)
  {
    hide Good, Stop;
    StopObeys(s, missed);
    if StopLaw(s, s') {
      ServerOnce(s', Stop(s));
    }
  }

  lemma ProcessIsLaw(s: Server, e: Events, missed: multiset<int>, s': Server, status: int)
    requires Good(s, missed) && Plausible(s, e)
    ensures |s.slots| == |e.received| == |e.answers|
    ensures ProcessLaw(s, e, s', status) <==> (s', status) == Process(s, e)
  {
    hide Process, ProcessLaw;
    ProcessObeys(s, e, missed);
    if ProcessLaw(s, e, s', status) {
      ProcessOnce(s, e, s', status, Process(s, e).0, Process(s, e).1);
    }
  }

  // ---------------------------------------------------------------- over runs

  /** Main goes on after a start exactly when it returned 0. That is when the server is running then,
      and it listens on the new descriptor, which is open. */
  lemma MainContinuesIff(run: seq<Event>, v: Event)
    requires IsRun(run) && Possible(Replay(run), v) && v.Started?
    ensures var (s, status) := Start(Replay(run), v.sock, v.bound, v.listening, v.mdns);
            && (status == 0 <==> v.sock >= 0 && v.bound && v.listening && v.mdns)
            && (status == 0 <==> s.running) && (status != 0 ==> status == -1)
            && (s.running ==> s.listener == v.sock && v.sock in s.kernel.open)
  {
    hide Replay, IsRun, Start;
    StartObeys(Replay(run), v.sock, v.bound, v.listening, v.mdns);
  }

  /** A call in which `select` fails, is interrupted or times out, or whose server is not running, leaves
      the server after every run exactly as it was. */
  lemma IdleCallsChangeNothing(run: seq<Event>, e: Events)
    requires IsRun(run) && Possible(Replay(run), Processed(e)) && Idle(Replay(run), e)
    ensures Replay(run + [Processed(e)]) == Replay(run)
  {
    hide IsRun, Good, Missed, Stale;
    RunKeeps(run);
    assert (run + [Processed(e)])[..|run|] == run;
    ProcessObeys(Replay(run), e, Missed(run));
  }

  lemma {:induction false} ConnectedCount(slots: seq<Slot>)
    ensures |Connected(slots)| <= |slots|
    ensures |Connected(slots)| == |slots| <==> forall i :: 0 <= i < |slots| ==> slots[i].connected
  {
    if slots != [] {
      ConnectedCount(slots[..|slots| - 1]);
    }
  }

  /** After every run a call closes the client it accepts if and only if four are connected. */
  lemma TurnedAwayIffFour(run: seq<Event>, e: Events)
    requires IsRun(run) && Possible(Replay(run), Processed(e)) && !Idle(Replay(run), e)
    requires Replay(run).listener in e.ready && e.accepted >= 0
    ensures var s, s' := Replay(run), Replay(run + [Processed(e)]);
            && |s.slots| <= |e.received|
            && s'.kernel.closes == s.kernel.closes + (if |Connected(s.slots)| == 4 then [e.accepted] else [])
                                   + HangUps(s.slots, e.ready, e.received)
            && e.accepted !in HangUps(s.slots, e.ready, e.received)
            && |Connected(s.slots)| <= 4
  {
    hide IsRun, Missed, Stale, Balanced, FreeSlot, Process, Connected, Answered, DueFds, HangUps;
    RunKeeps(run);
    assert (run + [Processed(e)])[..|run|] == run;
    var s := Replay(run);
    hide Replay;
    ConnectedCount(s.slots);
    ProcessServesOnce(s, e);
    HangUpsAreDue(s.slots, e.ready, e.received);
  }

  lemma {:induction false} HangUpsAreDue(slots: seq<Slot>, ready: set<int>, received: seq<int>)
    requires |slots| <= |received|
    ensures forall fd :: fd in HangUps(slots, ready, received) ==> fd in DueFds(slots, ready)
  {
    if slots != [] {
      HangUpsAreDue(slots[..|slots| - 1], ready, received);
    }
  }

  /** While running, `select` is asked about exactly what is open. */
  lemma AskedIsOpen(s: Server)
    requires Sound(s) && s.running
    ensures Asked(s) == s.kernel.open
  {
  }
}

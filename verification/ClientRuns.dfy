/** What holds of every call and every run of the server's connection table. */
module ClientRuns {
  import opened Descriptors
  import opened ClientTable

  /** Open descriptors are exactly the connected clients and, while running, the listener, all
      different. The `socket_fd` of a server that is not running may be any number. */
  ghost predicate Sound(s: Server) {
    && |s.slots| == MAX_CLIENTS
    && Distinct(Connected(s.slots))
    && s.kernel.open == Elements(Connected(s.slots)) + Listening(s)
    && (s.running ==> s.listener >= 0 && s.listener !in Elements(Connected(s.slots)))
    && (!s.running ==> Connected(s.slots) == [])
    && (forall i :: 0 <= i < |s.slots| && s.slots[i].connected ==> s.slots[i].fd >= 0)
  }

  /** Besides, everything handed out is accounted for, and `missed` are the closes that missed. */
  ghost predicate Good(s: Server, missed: multiset<int>) {
    Sound(s) && Balanced(s.kernel, missed)
  }

  // ---------------------------------------------------------------- connected descriptors

  lemma {:induction false} ConnectedConcat(x: seq<Slot>, y: seq<Slot>)
    ensures Connected(x + y) == Connected(x) + Connected(y)
    decreases |y|
  {
    if y == [] {
      assert x + y == x;
    } else {
      ConnectedConcat(x, y[..|y| - 1]);
      assert (x + y)[..|x + y| - 1] == x + y[..|y| - 1];
    }
  }

  lemma ConnectedOne(slot: Slot)
    ensures Connected([slot]) == if slot.connected then [slot.fd] else []
  {
  }

  /** The slots once those before `n` are disconnected. */
  function Swept(slots: seq<Slot>, n: nat): (r: seq<Slot>)
    requires n <= |slots|
    ensures |r| == |slots|
  {
    Disconnected(slots[..n]) + slots[n..]
  }

  lemma SweptOneMore(slots: seq<Slot>, n: nat)
    requires n < |slots|
    ensures Swept(slots, n)[n] == slots[n]
    ensures Swept(slots, n + 1) == Swept(slots, n)[n := Disconnect(slots[n])]
  {
  }

  lemma SweptEnds(slots: seq<Slot>)
    ensures Swept(slots, 0) == slots && Swept(slots, |slots|) == Disconnected(slots)
  {
  }

  lemma ConnectedOneMore(slots: seq<Slot>, i: nat)
    requires i < |slots|
    ensures slots[i].connected ==> Connected(slots[..i + 1]) == Connected(slots[..i]) + [slots[i].fd]
    ensures !slots[i].connected ==> Connected(slots[..i + 1]) == Connected(slots[..i])
  {
    assert slots[..i + 1][..i] == slots[..i];
  }

  /** Connected descriptors around one slot. */
  lemma ConnectedSplit(slots: seq<Slot>, i: nat)
    requires i < |slots|
    ensures Connected(slots) == Connected(slots[..i]) + Connected([slots[i]]) + Connected(slots[i + 1..])
  {
    hide Connected;
    SplitAt(slots, i);
    ConnectedConcat(slots[..i], [slots[i]]);
    ConnectedConcat(slots[..i] + [slots[i]], slots[i + 1..]);
  }

  lemma SplitAt<T>(s: seq<T>, i: nat)
    requires i < |s|
    ensures s == s[..i] + [s[i]] + s[i + 1..]
  {
  }

  lemma {:induction false} ConnectedMembers(slots: seq<Slot>)
    ensures forall i :: 0 <= i < |slots| && slots[i].connected ==> slots[i].fd in Connected(slots)
    ensures forall fd :: fd in Connected(slots) ==>
      exists i :: 0 <= i < |slots| && slots[i].connected && slots[i].fd == fd
  {
    if slots != [] {
      var front := slots[..|slots| - 1];
      ConnectedMembers(front);
      forall fd | fd in Connected(slots)
        ensures exists i :: 0 <= i < |slots| && slots[i].connected && slots[i].fd == fd
      {
        if fd in Connected(front) {
          var i :| 0 <= i < |front| && front[i].connected && front[i].fd == fd;
          assert slots[i] == front[i];
        } else {
          assert slots[|slots| - 1].fd == fd;
        }
      }
    }
  }

  /** Filling a free slot adds its descriptor. */
  lemma ConnectFree(slots: seq<Slot>, i: nat, slot: Slot)
    requires i < |slots| && !slots[i].connected && slot.connected
    requires Distinct(Connected(slots)) && slot.fd !in Elements(Connected(slots))
    ensures Distinct(Connected(slots[i := slot]))
    ensures Elements(Connected(slots[i := slot])) == Elements(Connected(slots)) + {slot.fd}
  {
    hide Connected, Distinct, Elements;
    var x, y := slots[..i], slots[i + 1..];
    var filled := slots[i := slot];
    assert filled[..i] == x && filled[i + 1..] == y;
    ConnectedSplit(slots, i);
    ConnectedSplit(filled, i);
    ConnectedOne(slots[i]);
    ConnectedOne(slot);
    assert Connected(x) + [] == Connected(x);
    DistinctInsert(Connected(x), slot.fd, Connected(y));
  }

  /** Freeing a connected slot removes its descriptor. */
  lemma DisconnectOne(slots: seq<Slot>, i: nat)
    requires i < |slots| && slots[i].connected && Distinct(Connected(slots))
    ensures Distinct(Connected(slots[i := Disconnect(slots[i])]))
    ensures Elements(Connected(slots[i := Disconnect(slots[i])])) == Elements(Connected(slots)) - {slots[i].fd}
    ensures slots[i].fd in Elements(Connected(slots))
  {
    hide Connected, Distinct, Elements;
    var x, y := slots[..i], slots[i + 1..];
    var freed := slots[i := Disconnect(slots[i])];
    assert freed[..i] == x && freed[i + 1..] == y;
    ConnectedSplit(slots, i);
    ConnectedSplit(freed, i);
    ConnectedOne(slots[i]);
    ConnectedOne(Disconnect(slots[i]));
    assert Connected(x) + [] == Connected(x);
    DistinctInsert(Connected(x), slots[i].fd, Connected(y));
  }

  lemma DistinctInsert(x: seq<int>, v: int, y: seq<int>)
    ensures Distinct(x + [v] + y) <==> Distinct(x + y) && v !in Elements(x + y)
    ensures Elements(x + [v] + y) == Elements(x + y) + {v}
  {
    var all, rest := x + [v] + y, x + y;
    assert all[|x|] == v;
    assert forall i :: 0 <= i < |rest| ==> rest[i] == all[if i < |x| then i else i + 1];
    assert forall k :: 0 <= k < |all| && k != |x| ==> all[k] == rest[if k < |x| then k else k - 1];
  }

  // ---------------------------------------------------------------- accepting

  /** Admitting a client keeps the invariant. */
  lemma AdmitKeeps(s: Server, fd: int, peer: Address, missed: multiset<int>)
    requires Good(s, missed) && s.running && fd >= 0 && fd !in s.kernel.open
    ensures Good(Admit(s, fd, peer), missed) && Admit(s, fd, peer).running
  {
    hide Connected, Distinct, Elements, Balanced, FreeSlot;
    var i := FreeSlot(s.slots);
    OpenBalanced(s.kernel, fd, missed);
    if i < |s.slots| {
      ConnectFree(s.slots, i, Slot(fd, true, peer));
    } else {
      CloseBalanced(Open(s.kernel, fd), fd, missed);
    }
  }

  /** The source decides whether the new client found a slot by looking for its descriptor in all
      `fd` fields, those of disconnected slots included. That is exact: with a free slot the client
      was stored, and without one every field is the descriptor of a client still open. */
  lemma RescanIsExact(s: Server, fd: int, peer: Address)
    requires Sound(s) && fd !in s.kernel.open
    ensures var i := FreeSlot(s.slots);
            var after := if i < |s.slots| then s.slots[i := Slot(fd, true, peer)] else s.slots;
            (exists k :: 0 <= k < |after| && after[k].fd == fd) <==> i < |s.slots|
  {
    hide FreeSlot;
    var i := FreeSlot(s.slots);
    if i < |s.slots| {
      assert s.slots[i := Slot(fd, true, peer)][i].fd == fd;
    } else {
      ConnectedMembers(s.slots);
    }
  }

  // ---------------------------------------------------------------- serving

  /** Descriptors of due clients, in slot order. */
  function DueFds(slots: seq<Slot>, ready: set<int>): seq<int> {
    if slots == [] then []
    else
      var front, last := slots[..|slots| - 1], slots[|slots| - 1];
      if Due(last, ready) then DueFds(front, ready) + [last.fd] else DueFds(front, ready)
  }

  /** Descriptors of due clients whose receive failed or ended the connection, in slot order. */
  function HangUps(slots: seq<Slot>, ready: set<int>, received: seq<int>): seq<int>
    requires |slots| <= |received|
  {
    if slots == [] then []
    else
      var n := |slots| - 1;
      var rest := HangUps(slots[..n], ready, received);
      if Due(slots[n], ready) && received[n] <= 0 then rest + [slots[n].fd] else rest
  }

  /** What is sent: an answer to each due client whose request arrived and is of a kind answered. */
  function Answered(slots: seq<Slot>, ready: set<int>, received: seq<int>, answers: seq<bool>): seq<Datagram>
    requires |slots| <= |received| && |slots| <= |answers|
  {
    if slots == [] then []
    else
      var n := |slots| - 1;
      var rest := Answered(slots[..n], ready, received, answers);
      if slots[n].connected && slots[n].fd in ready && received[n] > 0 && answers[n] then
        rest + [Datagram(slots[n].fd, NO_ADDRESS, [])]
      else rest
  }

  /** Serving goes once over the slots it started from. */
  lemma {:induction false} ServeEffect(s: Server, e: Events, n: nat)
    requires n <= |s.slots| <= |e.received| && |s.slots| <= |e.answers|
    ensures var r := Serve(s, e, n);
            && r.listener == s.listener && r.running == s.running
            && (forall i :: 0 <= i < n ==> r.slots[i] == ServeSlot(s.slots[i], e.ready, e.received[i]))
            && r.kernel.receives == s.kernel.receives + DueFds(s.slots[..n], e.ready)
            && r.kernel.closes == s.kernel.closes + HangUps(s.slots[..n], e.ready, e.received)
            && r.kernel.sends == s.kernel.sends + Answered(s.slots[..n], e.ready, e.received, e.answers)
            && r.kernel.granted == s.kernel.granted
  {
    if n == 0 {
      assert s.kernel.receives + [] == s.kernel.receives && s.kernel.closes + [] == s.kernel.closes;
      assert s.kernel.sends + [] == s.kernel.sends;
    } else {
      ServeEffect(s, e, n - 1);
      OneMoreDue(s.slots, e.ready, e.received, n);
      OneMoreAnswered(s.slots, e.ready, e.received, e.answers, n);
      hide DueFds, HangUps, Answered;
    }
  }

  lemma OneMoreDue(slots: seq<Slot>, ready: set<int>, received: seq<int>, n: nat)
    requires 0 < n <= |slots| <= |received|
    ensures var slot, m := slots[n - 1], n - 1;
            && (Due(slot, ready) ==> DueFds(slots[..n], ready) == DueFds(slots[..m], ready) + [slot.fd])
            && (!Due(slot, ready) ==> DueFds(slots[..n], ready) == DueFds(slots[..m], ready))
            && (Due(slot, ready) && received[m] <= 0 ==>
                  HangUps(slots[..n], ready, received) == HangUps(slots[..m], ready, received) + [slot.fd])
            && (!(Due(slot, ready) && received[m] <= 0) ==>
                  HangUps(slots[..n], ready, received) == HangUps(slots[..m], ready, received))
  {
    assert slots[..n][..n - 1] == slots[..n - 1];
  }

  lemma OneMoreAnswered(slots: seq<Slot>, ready: set<int>, received: seq<int>, answers: seq<bool>, n: nat)
    requires 0 < n <= |slots| <= |received| && |slots| <= |answers|
    ensures var slot, m := slots[n - 1], n - 1;
            var before, after := Answered(slots[..m], ready, received, answers),
                                 Answered(slots[..n], ready, received, answers);
            if slot.connected && slot.fd in ready && received[m] > 0 && answers[m] then
              after == before + [Datagram(slot.fd, NO_ADDRESS, [])]
            else after == before
  {
    assert slots[..n][..n - 1] == slots[..n - 1];
  }

  lemma ServeOneKeeps(s: Server, e: Events, i: nat, missed: multiset<int>)
    requires Good(s, missed) && s.running && i < |s.slots| <= |e.received| && |s.slots| <= |e.answers|
    ensures Good(s.(slots := s.slots[i := ServeSlot(s.slots[i], e.ready, e.received[i])],
                    kernel := ServeKernel(s.kernel, s.slots[i], e.ready, e.received[i], e.answers[i])), missed)
  {
    hide Connected, Distinct, Elements;
    var slot := s.slots[i];
    if Due(slot, e.ready) {
      DisconnectOne(s.slots, i);
      if e.received[i] <= 0 {
        CloseBalanced(Receive(s.kernel, slot.fd), slot.fd, missed);
      } else {
        assert s.slots[i := slot] == s.slots;
      }
    } else {
      assert s.slots[i := slot] == s.slots;
    }
  }

  lemma {:induction false} ServeKeeps(s: Server, e: Events, n: nat, missed: multiset<int>)
    requires Good(s, missed) && s.running && n <= |s.slots| <= |e.received| && |s.slots| <= |e.answers|
    ensures Good(Serve(s, e, n), missed) && Serve(s, e, n).running
  {
    if n > 0 {
      hide Good, ServeSlot, ServeKernel;
      ServeKeeps(s, e, n - 1, missed);
      ServeOneKeeps(Serve(s, e, n - 1), e, n - 1, missed);
    }
  }

  // ---------------------------------------------------------------- one process call

  lemma ProcessKeeps(s: Server, e: Events, missed: multiset<int>)
    requires Good(s, missed) && Plausible(s, e)
    ensures var s' := Process(s, e).0;
            Good(s', missed) && s'.running == s.running && s'.listener == s.listener
  {
    hide Admit, Serve;
    if s.running && e.selected > 0 {
      var admitted := if s.listener in e.ready && e.accepted >= 0 then Admit(s, e.accepted, e.peer) else s;
      if s.listener in e.ready && e.accepted >= 0 {
        AdmitKeeps(s, e.accepted, e.peer, missed);
        AdmitListener(s, e.accepted, e.peer);
      }
      ServeKeeps(admitted, e, |s.slots|, missed);
      ServeEffect(admitted, e, |s.slots|);
    }
  }

  lemma AdmitListener(s: Server, fd: int, peer: Address)
    ensures Admit(s, fd, peer).listener == s.listener && |Admit(s, fd, peer).slots| == |s.slots|
  {
  }

  lemma {:induction false} DueAlike(x: seq<Slot>, y: seq<Slot>, ready: set<int>)
    requires |x| == |y|
    requires forall i :: 0 <= i < |x| ==>
      Due(x[i], ready) == Due(y[i], ready) && (Due(x[i], ready) ==> x[i].fd == y[i].fd)
    ensures DueFds(x, ready) == DueFds(y, ready)
  {
    if x != [] {
      DueAlike(x[..|x| - 1], y[..|y| - 1], ready);
    }
  }

  lemma {:induction false} HangUpsAlike(x: seq<Slot>, y: seq<Slot>, ready: set<int>, received: seq<int>)
    requires |x| == |y| <= |received|
    requires forall i :: 0 <= i < |x| ==>
      Due(x[i], ready) == Due(y[i], ready) && (Due(x[i], ready) ==> x[i].fd == y[i].fd)
    ensures HangUps(x, ready, received) == HangUps(y, ready, received)
  {
    if x != [] {
      HangUpsAlike(x[..|x| - 1], y[..|y| - 1], ready, received);
    }
  }

  lemma {:induction false} AnsweredAlike(x: seq<Slot>, y: seq<Slot>, ready: set<int>, received: seq<int>,
                                         answers: seq<bool>)
    requires |x| == |y| <= |received| && |x| <= |answers|
    requires forall i :: 0 <= i < |x| ==>
      Due(x[i], ready) == Due(y[i], ready) && (Due(x[i], ready) ==> x[i].fd == y[i].fd)
    ensures Answered(x, ready, received, answers) == Answered(y, ready, received, answers)
  {
    if x != [] {
      AnsweredAlike(x[..|x| - 1], y[..|y| - 1], ready, received, answers);
    }
  }

  lemma {:induction false} DueAmongConnected(slots: seq<Slot>, ready: set<int>)
    requires Distinct(Connected(slots))
    ensures Distinct(DueFds(slots, ready)) && Elements(DueFds(slots, ready)) <= Elements(Connected(slots))
  {
    if slots != [] {
      var front, last := slots[..|slots| - 1], slots[|slots| - 1];
      if last.connected {
        assert Connected(slots)[..|Connected(front)|] == Connected(front);
        SplitLast(Connected(slots));
      }
      DueAmongConnected(front, ready);
    }
  }

  /** A client accepted in a call cannot be due in it: its descriptor was not open, so `select`
      was not asked about it. */
  lemma NewcomerIsNotDue(s: Server, e: Events)
    requires Sound(s) && s.running && Plausible(s, e) && e.accepted >= 0
    ensures e.accepted !in e.ready
    ensures var slots := Admit(s, e.accepted, e.peer).slots;
            DueFds(slots, e.ready) == DueFds(s.slots, e.ready)
            && HangUps(slots, e.ready, e.received) == HangUps(s.slots, e.ready, e.received)
            && Answered(slots, e.ready, e.received, e.answers) == Answered(s.slots, e.ready, e.received, e.answers)
  {
    hide FreeSlot, Connected;
    var slots := Admit(s, e.accepted, e.peer).slots;
    assert e.accepted !in Asked(s);
    DueAlike(slots, s.slots, e.ready);
    HangUpsAlike(slots, s.slots, e.ready, e.received);
    AnsweredAlike(slots, s.slots, e.ready, e.received, e.answers);
  }

  /** One call with something ready: every client connected at entry and reported ready is served
      exactly once, in slot order, the one accepted in this call is not, a slot is freed exactly
      when its receive returned 0 or less, one answer goes out for each request of a kind answered,
      and a newcomer takes the first free slot or is closed. */
  lemma ProcessServesOnce(s: Server, e: Events)
    requires Sound(s) && Plausible(s, e) && s.running && e.selected > 0
    ensures var (s', status) := Process(s, e);
            var arrived := s.listener in e.ready && e.accepted >= 0;
            var free := FreeSlot(s.slots);
            && status == 0
            && s'.kernel.receives == s.kernel.receives + DueFds(s.slots, e.ready)
            && Distinct(DueFds(s.slots, e.ready)) && e.accepted !in DueFds(s.slots, e.ready)
            && s'.kernel.closes == s.kernel.closes
               + (if arrived && free == |s.slots| then [e.accepted] else []) + HangUps(s.slots, e.ready, e.received)
            && s'.kernel.sends == s.kernel.sends + Answered(s.slots, e.ready, e.received, e.answers)
            && s'.kernel.granted == s.kernel.granted + (if arrived then [e.accepted] else [])
            && |s'.slots| == |s.slots|
            && (forall i :: 0 <= i < |s.slots| && s.slots[i].connected ==>
                  var hungUp := s.slots[i].fd in e.ready && e.received[i] <= 0;
                  s'.slots[i] == Slot(s.slots[i].fd, !hungUp, s.slots[i].peer))
            && (forall i :: 0 <= i < |s.slots| && !s.slots[i].connected ==>
                  s'.slots[i] == if arrived && i == free then Slot(e.accepted, true, e.peer) else s.slots[i])
  {
    hide FreeSlot, Connected, DueFds, HangUps, Answered, Serve;
    var arrived := s.listener in e.ready && e.accepted >= 0;
    var admitted := if arrived then Admit(s, e.accepted, e.peer) else s;
    var n := |s.slots|;
    ServeEffect(admitted, e, n);
    assert admitted.slots[..n] == admitted.slots;
    DueAmongConnected(s.slots, e.ready);
    if arrived {
      NewcomerIsNotDue(s, e);
    }
    assert e.accepted >= 0 ==> e.accepted !in Elements(Connected(s.slots));
    assert forall fd :: fd in DueFds(s.slots, e.ready) ==> fd in Elements(DueFds(s.slots, e.ready));
    ConnectedMembers(s.slots);
  }

  // ---------------------------------------------------------------- stopping

  lemma {:induction false} ConnectedNone(slots: seq<Slot>)
    requires forall i :: 0 <= i < |slots| ==> !slots[i].connected
    ensures Connected(slots) == []
  {
    if slots != [] {
      ConnectedNone(slots[..|slots| - 1]);
    }
  }

  lemma NoElements()
    ensures Elements([]) == {} && Distinct([])
  {
  }

  /** Stopping closes every client once, then the number in `socket_fd` if it is one, and leaves
      nothing open. That last close misses exactly when the server was not running. */
  lemma StopClosesEverything(s: Server, missed: multiset<int>)
    requires Good(s, missed)
    ensures var s' := Stop(s);
            && Good(s', if !s.running && s.listener >= 0 then missed + multiset{s.listener} else missed)
            && !s'.running && s'.listener < 0 && s'.kernel.open == {}
            && s'.kernel.closes
               == s.kernel.closes + Connected(s.slots) + (if s.listener >= 0 then [s.listener] else [])
  {
    hide Connected, Distinct, Elements, Balanced;
    CloseAllEffect(s.kernel, Connected(s.slots), missed);
    var k := CloseAll(s.kernel, Connected(s.slots));
    ConnectedNone(Stop(s).slots);
    NoElements();
    if s.listener >= 0 {
      if s.running {
        CloseBalanced(k, s.listener, missed);
      } else {
        CloseMissed(k, s.listener, missed);
      }
    }
  }

  /** Stopping again, as destroying after a stop does, changes nothing and closes nothing. */
  lemma StopIsIdempotent(s: Server)
    ensures Stop(Stop(s)) == Stop(s)
  {
    ConnectedNone(Stop(s).slots);
    assert Stop(Stop(s)).slots == Stop(s).slots;
  }

  // ---------------------------------------------------------------- runs

  datatype Event =
    | Started(sock: int, bound: bool, listening: bool, mdns: bool)
    | Processed(e: Events)
    | Stopped                                // stop, or destroy

  function Handle(s: Server, v: Event): Server {
    match v
    case Started(sock, bound, listening, mdns) => Start(s, sock, bound, listening, mdns).0
    case Processed(e) => if |s.slots| == |e.received| == |e.answers| then Process(s, e).0 else s
    case Stopped => Stop(s)
  }

  /** Starts, failed ones included, are of servers that are not running. */
  predicate Possible(s: Server, v: Event) {
    match v
    case Started(sock, _, _, _) => !s.running && Grants(s.kernel, sock)
    case Processed(e) => Plausible(s, e)
    case Stopped => true
  }

  /** The server after `airplay_server_create` and a run of calls. */
  function Replay(run: seq<Event>): Server {
    if run == [] then CREATED else Handle(Replay(run[..|run| - 1]), run[|run| - 1])
  }

  ghost predicate IsRun(run: seq<Event>) {
    forall n {:trigger run[n]} :: 0 <= n < |run| ==> Possible(Replay(run[..n]), run[n])
  }

  predicate Succeeds(v: Event) {
    v.Started? && v.sock >= 0 && v.bound && v.listening && v.mdns
  }

  /** There has been no start and no stop yet, or the last start came after the last stop and failed
      past `socket`. */
  predicate Stale(run: seq<Event>) {
    run == []
    || match run[|run| - 1]
       case Started(sock, _, _, _) => sock >= 0 && !Succeeds(run[|run| - 1])
       case Processed(_) => Stale(run[..|run| - 1])
       case Stopped => false
  }

  /** The closes that miss in a run: those of stops at such moments. */
  function Missed(run: seq<Event>): multiset<int> {
    if run == [] then multiset{}
    else
      var front := run[..|run| - 1];
      Missed(front) + if run[|run| - 1].Stopped? && Stale(front) then multiset{Replay(front).listener} else multiset{}
  }

  lemma CreatedIsGood()
    ensures Good(CREATED, multiset{})
  {
    ConnectedNone(CREATED.slots);
    NoElements();
    assert multiset(BOOT.granted) + multiset{} == multiset(BOOT.closes) + multiset(BOOT.open);
  }

  lemma StartKeeps(s: Server, v: Event, missed: multiset<int>)
    requires Good(s, missed) && Possible(s, v) && v.Started?
    ensures Good(Handle(s, v), missed) && Handle(s, v).running == Succeeds(v) && Handle(s, v).listener == v.sock
  {
    hide Connected, Balanced;
    NoElements();
    OpenBalanced(s.kernel, v.sock, missed);
    if v.sock >= 0 {
      CloseBalanced(Open(s.kernel, v.sock), v.sock, missed);
    }
  }

  lemma ProcessStays(s: Server, e: Events, missed: multiset<int>)
    requires Good(s, missed) && Plausible(s, e)
    ensures |s.slots| == |e.received| == |e.answers|
    ensures var s' := Process(s, e).0;
            Good(s', missed) && s'.running == s.running && s'.listener == s.listener
  {
    ProcessKeeps(s, e, missed);
  }

  /** What one call does to the invariant, and to whether `socket_fd` is stale. */
  lemma HandleKeeps(s: Server, v: Event, missed: multiset<int>)
    requires Good(s, missed) && Possible(s, v)
    ensures var s' := Handle(s, v);
            && Good(s', if v.Stopped? && !s.running && s.listener >= 0 then missed + multiset{s.listener} else missed)
            && match v {
                 case Started(_, _, _, _) => s'.running == Succeeds(v) && s'.listener == v.sock
                 case Processed(_) => s'.running == s.running && s'.listener == s.listener
                 case Stopped => !s'.running && s'.listener < 0
               }
  {
    hide Good, Process, Stop, Start, Plausible;
    match v
    case Started(_, _, _, _) => StartKeeps(s, v, missed);
    case Processed(e) => ProcessStays(s, e, missed);
    case Stopped => StopClosesEverything(s, missed);
  }

  lemma RunPrefix(run: seq<Event>, n: nat)
    requires IsRun(run) && n <= |run|
    ensures IsRun(run[..n])
  {
    forall m | 0 <= m < n ensures Possible(Replay(run[..n][..m]), run[..n][m]) {
      assert run[..n][..m] == run[..m] && run[m] == run[..n][m];
    }
  }

  /** What every run keeps, and what a caller knows of `socket_fd` without looking. */
  lemma {:induction false} RunKeeps(run: seq<Event>)
    requires IsRun(run)
    ensures Good(Replay(run), Missed(run))
    ensures Stale(run) <==> !Replay(run).running && Replay(run).listener >= 0
    decreases |run|
  {
    if run == [] {
      CreatedIsGood();
    } else {
      hide Good, Handle, Possible;
      var front, last := run[..|run| - 1], run[|run| - 1];
      RunPrefix(run, |run| - 1);
      assert Possible(Replay(front), last);
      hide IsRun;
      RunKeeps(front);
      HandleKeeps(Replay(front), last, Missed(front));
      assert Missed(front) + multiset{} == Missed(front);
    }
  }

  /** Over every run from creation each descriptor handed out by `socket` or `accept` is now open,
      and then it is the listener of a running server or in exactly one connected slot, or has been
      closed once for each time it was handed out, but for the closes of stale stops; and those are
      the only faults. */
  lemma DescriptorConservation(run: seq<Event>, s: Server, fd: int)
    requires IsRun(run) && s == Replay(run)
    ensures s.kernel.faults == |Missed(run)|
    ensures multiset(s.kernel.granted)[fd] + Missed(run)[fd]
      == multiset(s.kernel.closes)[fd] + (if fd in s.kernel.open then 1 else 0)
    ensures fd in s.kernel.open <==>
      (s.running && fd == s.listener) || exists i :: 0 <= i < |s.slots| && s.slots[i].connected && s.slots[i].fd == fd
    ensures forall i, j :: 0 <= i < j < |s.slots| && s.slots[i].connected && s.slots[j].connected ==>
      s.slots[i].fd != s.slots[j].fd
    ensures s.running ==> forall i :: 0 <= i < |s.slots| && s.slots[i].connected ==> s.slots[i].fd != s.listener
  {
    hide Replay, IsRun, Missed, Stale, Connected;
    RunKeeps(run);
    ConnectedMembers(s.slots);
    assert fd in Elements(Connected(s.slots)) <==> fd in Connected(s.slots);
    BalancedOf(s.kernel, Missed(run), fd);
    forall i, j | 0 <= i < j < |s.slots| && s.slots[i].connected && s.slots[j].connected
      ensures s.slots[i].fd != s.slots[j].fd
    {
      SlotsDiffer(s.slots, i, j);
    }
  }

  lemma BalancedOf(k: Kernel, missed: multiset<int>, fd: int)
    requires Balanced(k, missed)
    ensures multiset(k.granted)[fd] + missed[fd] == multiset(k.closes)[fd] + (if fd in k.open then 1 else 0)
  {
    assert (multiset(k.granted) + missed)[fd] == (multiset(k.closes) + multiset(k.open))[fd];
  }

  lemma SlotsDiffer(slots: seq<Slot>, i: nat, j: nat)
    requires Distinct(Connected(slots)) && i < j < |slots| && slots[i].connected && slots[j].connected
    ensures slots[i].fd != slots[j].fd
  {
    ConnectedSplit(slots, j);
    ConnectedOne(slots[j]);
    ConnectedMembers(slots[..j]);
    var x, y := Connected(slots[..j]), Connected(slots[j + 1..]);
    DistinctInsert(x, slots[j].fd, y);
    assert slots[..j][i] == slots[i];
    assert slots[i].fd in x + y;
  }

  /** After every run, a stop or a destroy closes a descriptor the server does not hold exactly when
      the run is stale, and then exactly one. */
  lemma StopMissesIff(run: seq<Event>)
    requires IsRun(run)
    ensures Stop(Replay(run)).kernel.faults == Replay(run).kernel.faults + if Stale(run) then 1 else 0
  {
    hide Replay, IsRun, Missed, Stale, Stop, Sound;
    RunKeeps(run);
    StopClosesEverything(Replay(run), Missed(run));
  }

  /** Main's shutdown, a stop and then a destroy, after every run: nothing stays open, and nothing
      was closed that was not handed out before if and only if no stop of the run and not this one
      came at a stale moment. */
  lemma ShutdownClosesAll(run: seq<Event>)
    requires IsRun(run)
    ensures var s := Stop(Stop(Replay(run)));
            && s.kernel.open == {} && !s.running
            && (multiset(s.kernel.granted) == multiset(s.kernel.closes) && s.kernel.faults == 0
                <==> Missed(run) == multiset{} && !Stale(run))
  {
    hide Replay, IsRun, Missed, Stale, Stop, Sound;
    var s := Replay(run);
    RunKeeps(run);
    StopClosesEverything(s, Missed(run));
    StopIsIdempotent(s);
    var all := if Stale(run) then Missed(run) + multiset{s.listener} else Missed(run);
    assert Stale(run) ==> s.listener in all;
    NothingMissed(Stop(s).kernel, all);
  }

  lemma NothingMissed(k: Kernel, missed: multiset<int>)
    requires Balanced(k, missed) && k.open == {}
    ensures multiset(k.granted) == multiset(k.closes) && k.faults == 0 <==> missed == multiset{}
  {
    assert multiset(k.closes) + multiset(k.open) == multiset(k.closes);
    if missed == multiset{} {
      assert multiset(k.granted) + missed == multiset(k.granted);
    }
  }

  /** Main's own runs, one successful start and then only processing, are never stale. */
  lemma {:induction false} MainIsNeverStale(run: seq<Event>)
    requires run != [] && Succeeds(run[0]) && forall n :: 0 < n < |run| ==> run[n].Processed?
    ensures Missed(run) == multiset{} && !Stale(run)
    decreases |run|
  {
    if |run| > 1 {
      var front := run[..|run| - 1];
      assert forall n :: 0 < n < |front| ==> front[n] == run[n];
      MainIsNeverStale(front);
    } else {
      assert run[..0] == [];
    }
  }

  /** Destroying after a first start, as main does when it fails, is clean exactly when the start
      succeeded or failed in `socket` itself; past `socket` it closes that descriptor twice. */
  lemma DestroyAfterStart(v: Event)
    requires v.Started? && v.sock >= -1
    ensures var s := Stop(Handle(CREATED, v));
            && (s.kernel.faults == 0 <==> Succeeds(v) || v.sock < 0)
            && s.kernel.closes == if v.sock < 0 then [] else if Succeeds(v) then [v.sock] else [v.sock, v.sock]
  {
    hide Stop, Good;
    var s := Handle(CREATED, v);
    CreatedIsGood();
    assert s.slots == CREATED.slots && s.kernel.closes == if v.sock < 0 || Succeeds(v) then [] else [v.sock];
    assert Possible(CREATED, v);
    StartKeeps(CREATED, v, multiset{});
    hide Handle;
    StopClosesEverything(s, multiset{});
    ConnectedNone(CREATED.slots);
    var missed := if !s.running && s.listener >= 0 then multiset{} + multiset{s.listener} else multiset{};
    GoodFaults(Stop(s), missed);
  }

  lemma GoodFaults(s: Server, missed: multiset<int>)
    requires Good(s, missed)
    ensures s.kernel.faults == |missed|
  {
  }

  /** Destroying a server that was never started closes descriptor 0, which it does not own. */
  lemma DestroyUnstarted()
    ensures Stop(CREATED).kernel.faults == 1 && Stop(CREATED).kernel.closes == [0]
  {
    ConnectedNone(CREATED.slots);
  }
}

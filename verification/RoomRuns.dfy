/** What holds over every run of the multiroom table's critical sections. */
module RoomRuns {
  import opened Descriptors
  import opened CStrings
  import opened RoomTable

  /** The table right after the first `multiroom_init`. It is enabled only if `multiroom_set_config`
      came before that. */
  predicate IsInitial(t: Table) {
    t.rooms == [] && !t.running && t.kernel == BOOT
  }

  // ---------------------------------------------------------------- live sockets

  lemma LiveAppend(socks: seq<int>, sock: int)
    ensures sock >= 0 ==> Live(socks + [sock]) == Live(socks) + [sock]
    ensures sock < 0 ==> Live(socks + [sock]) == Live(socks)
  {
    assert (socks + [sock])[..|socks|] == socks;
  }

  lemma {:induction false} LiveConcat(x: seq<int>, y: seq<int>)
    ensures Live(x + y) == Live(x) + Live(y)
    decreases |y|
  {
    if y == [] {
      assert x + y == x;
    } else {
      hide Live;
      var front, last := y[..|y| - 1], y[|y| - 1];
      assert y == front + [last];
      assert x + y == (x + front) + [last];
      LiveConcat(x, front);
      LiveAppend(x + front, last);
      LiveAppend(front, last);
      if last >= 0 {
        assert Live(x + y) == (Live(x) + Live(front)) + [last];
      }
    }
  }

  lemma {:induction false} LiveMembers(socks: seq<int>)
    ensures forall s :: s in Live(socks) <==> s >= 0 && s in socks
  {
    if socks != [] {
      var front, last := socks[..|socks| - 1], socks[|socks| - 1];
      LiveMembers(front);
      assert socks == front + [last];
    }
  }

  lemma {:induction false} LiveNone(socks: seq<int>)
    requires forall i :: 0 <= i < |socks| ==> socks[i] < 0
    ensures Live(socks) == []
  {
    if socks != [] {
      LiveNone(socks[..|socks| - 1]);
    }
  }

  lemma LiveSplit(x: seq<int>, v: int, y: seq<int>)
    ensures v >= 0 ==> Live(x + [v] + y) == Live(x) + [v] + Live(y)
    ensures v < 0 ==> Live(x + [v] + y) == Live(x) + Live(y)
    ensures Live(x + y) == Live(x) + Live(y)
  {
    hide Live;
    LiveConcat(x + [v], y);
    LiveAppend(x, v);
    LiveConcat(x, y);
  }

  lemma LiveMember(socks: seq<int>, i: nat)
    requires i < |socks|
    ensures socks[i] >= 0 <==> socks[i] in Elements(Live(socks))
  {
    hide Live;
    LiveMembers(socks);
  }

  lemma DeleteIs<T>(s: seq<T>, i: nat)
    requires i < |s|
    ensures Delete(s, i) == s[..i] + s[i + 1..]
  {
  }

  /** Deleting an entry deletes its descriptor and nothing else. */
  lemma LiveDelete(socks: seq<int>, i: nat)
    requires i < |socks| && Distinct(Live(socks))
    ensures Distinct(Live(Delete(socks, i)))
    ensures Elements(Live(Delete(socks, i))) == Elements(Live(socks)) - {socks[i]}
    ensures socks[i] >= 0 <==> socks[i] in Elements(Live(socks))
  {
    hide Live, Distinct, Elements, Delete;
    var x, y := socks[..i], socks[i + 1..];
    assert socks == x + [socks[i]] + y;
    LiveSplit(x, socks[i], y);
    LiveMember(socks, i);
    DeleteIs(socks, i);
    if socks[i] >= 0 {
      DistinctDelete(Live(x), socks[i], Live(y));
    }
  }

  lemma DistinctDelete(x: seq<int>, v: int, y: seq<int>)
    requires Distinct(x + [v] + y)
    ensures Distinct(x + y)
    ensures Elements(x + y) == Elements(x + [v] + y) - {v}
    ensures v in Elements(x + [v] + y)
  {
    var all, rest := x + [v] + y, x + y;
    assert all[|x|] == v;
    forall i | 0 <= i < |rest| ensures rest[i] == all[if i < |x| then i else i + 1] {}
    forall e | e in Elements(all) && e != v ensures e in Elements(rest) {
      var k :| 0 <= k < |all| && all[k] == e;
      assert rest[if k < |x| then k else k - 1] == e;
    }
  }

  // ---------------------------------------------------------------- the invariant

  /** Descriptors held outside the table: sockets bound by `multiroom_start`, which nothing ever
      closes, and room sockets forgotten by a repeated `multiroom_init`. */
  function Others(t: Table): set<int> {
    t.kernel.open - Elements(Live(Socks(t.rooms)))
  }

  ghost predicate Good(t: Table) {
    && |t.rooms| <= MAX_ROOMS
    && (forall i :: 0 <= i < |t.rooms| ==> NUL !in t.rooms[i].name && 0 < |t.rooms[i].name| < MAX_ROOM_NAME_LEN)
    && (forall i :: 0 <= i < |t.rooms| ==> t.rooms[i].sock >= -1)
    && Balanced(t.kernel)
    && Distinct(Live(Socks(t.rooms)))
    && Elements(Live(Socks(t.rooms))) <= t.kernel.open
  }

  /** The section is a start that takes effect. */
  predicate Launches(t: Table, s: Section) {
    s.Start? && t.enabled && !t.running && s.sock >= 0 && s.bound
  }

  /** How many descriptors a section leaves open outside the table. */
  function Leaked(t: Table, s: Section): nat {
    match s
    case Start(_, _) => if Launches(t, s) then 1 else 0
    case Init => |Live(Socks(t.rooms))|
    case _ => 0
  }

  lemma {:induction false} DistinctCount(s: seq<int>)
    requires Distinct(s)
    ensures |Elements(s)| == |s|
  {
    if s != [] {
      SplitLast(s);
      DistinctCount(s[..|s| - 1]);
    }
  }

  lemma InitKeeps(t: Table)
    requires Good(t)
    ensures Good(Step(t, Init).0) && |Others(Step(t, Init).0)| == |Others(t)| + Leaked(t, Init)
  {
    var live := Live(Socks(t.rooms));
    DistinctCount(live);
    assert Live(Socks([])) == [];
    assert t.kernel.open == Others(t) + Elements(live);
    assert Others(Step(t, Init).0) == t.kernel.open;
  }

  lemma StartKeeps(t: Table, sock: int, bound: bool)
    requires Good(t) && Possible(t, Start(sock, bound))
    ensures var t' := Step(t, Start(sock, bound)).0;
            Good(t') && |Others(t')| == |Others(t)| + Leaked(t, Start(sock, bound))
  {
    var t' := Step(t, Start(sock, bound)).0;
    if t.enabled && !t.running && sock >= 0 {
      OpenBalanced(t.kernel, sock);
      if bound {
        assert Others(t') == Others(t) + {sock};
      } else {
        CloseBalanced(Open(t.kernel, sock), sock);
        assert t'.kernel.open == t.kernel.open;
      }
    }
  }

  lemma DisconnectKeeps(t: Table)
    requires Good(t)
    ensures Good(Disconnect(t)) && Others(Disconnect(t)) == Others(t)
    ensures Disconnect(t).kernel == t.kernel.(open := Others(t), closes := t.kernel.closes + Live(Socks(t.rooms)))
  {
    CloseAllEffect(t.kernel, Live(Socks(t.rooms)));
    LiveNone(Socks(Disconnected(t.rooms)));
  }

  lemma AddKeeps(t: Table, name: string, port: nat, sock: int)
    requires Good(t) && Possible(t, Add(name, port, sock))
    ensures var t' := Step(t, Add(name, port, sock)).0;
            Good(t') && Others(t') == Others(t)
  {
    hide Live, Distinct, Elements, Balanced;
    var (t', status) := Step(t, Add(name, port, sock));
    if status == 0 {
      var room := t'.rooms[|t.rooms|];
      assert Socks(t'.rooms) == Socks(t.rooms) + [room.sock];
      LiveAppend(Socks(t.rooms), room.sock);
      OpenBalanced(t.kernel, sock);
      if sock >= 0 {
        ElementsAppend(Live(Socks(t.rooms)), sock);
      }
    }
  }

  lemma ElementsAppend(s: seq<int>, v: int)
    ensures Elements(s + [v]) == Elements(s) + {v}
    ensures Distinct(s) && v !in Elements(s) ==> Distinct(s + [v])
  {
  }

  lemma DeleteRoom(rooms: seq<Room>, i: nat)
    requires i < |rooms|
    ensures Socks(Delete(rooms, i)) == Delete(Socks(rooms), i)
    ensures forall j :: 0 <= j < |rooms| - 1 ==> Delete(rooms, i)[j] == rooms[if j < i then j else j + 1]
  {
  }

  lemma RemoveKeeps(t: Table, name: string)
    requires Good(t)
    ensures var t' := Step(t, Remove(name)).0;
            Good(t') && Others(t') == Others(t)
  {
    hide Live, Distinct, Elements, Balanced, Find, Delete, Socks;
    var (t', status) := Step(t, Remove(name));
    if status == 0 {
      var i := Find(t.rooms, name);
      var sock := t.rooms[i].sock;
      DeleteRoom(t.rooms, i);
      LiveDelete(Socks(t.rooms), i);
      if sock >= 0 {
        CloseBalanced(t.kernel, sock);
      }
    }
  }

  /** Sending to live sockets only adds to the log of sends. */
  lemma {:induction false} SendAllEffect(k: Kernel, ds: seq<Datagram>)
    requires forall i :: 0 <= i < |ds| ==> ds[i].fd in k.open
    ensures SendAll(k, ds) == k.(sends := k.sends + ds)
    decreases |ds|
  {
    if ds == [] {
      assert k.sends + ds == k.sends;
    } else {
      var front := ds[..|ds| - 1];
      SendAllEffect(k, front);
      assert ds[|ds| - 1].fd in k.open;
      assert k.sends + ds == (k.sends + front) + [ds[|ds| - 1]];
    }
  }

  lemma {:induction false} DatagramsToLive(rooms: seq<Room>, data: seq<nat>)
    ensures |Datagrams(rooms, data)| == |Live(Socks(rooms))|
    ensures forall i :: 0 <= i < |Datagrams(rooms, data)| ==> Datagrams(rooms, data)[i].fd == Live(Socks(rooms))[i]
  {
    if rooms != [] {
      var front := rooms[..|rooms| - 1];
      DatagramsToLive(front, data);
      assert Socks(rooms)[..|rooms| - 1] == Socks(front);
    }
  }

  /** A sync sends once per room with a live socket, in table order, to that room's address,
      and only on open descriptors. */
  lemma SyncSends(t: Table, data: seq<nat>)
    requires Good(t)
    ensures Step(t, Sync(data)).0 == t.(kernel := t.kernel.(sends := t.kernel.sends + Datagrams(t.rooms, data)))
    ensures forall i :: 0 <= i < |Datagrams(t.rooms, data)| ==> Datagrams(t.rooms, data)[i].fd in t.kernel.open
  {
    var ds := Datagrams(t.rooms, data);
    DatagramsToLive(t.rooms, data);
    forall i | 0 <= i < |ds| ensures ds[i].fd in t.kernel.open {
      assert ds[i].fd in Elements(Live(Socks(t.rooms)));
    }
    SendAllEffect(t.kernel, ds);
  }

  lemma StepKeeps(t: Table, s: Section)
    requires Good(t) && Possible(t, s)
    ensures Good(Step(t, s).0) && |Others(Step(t, s).0)| == |Others(t)| + Leaked(t, s)
  {
    match s
    case Init => InitKeeps(t);
    case Configure(_) =>
    case Start(sock, bound) => StartKeeps(t, sock, bound);
    case Stop => DisconnectKeeps(t);
    case Cleanup => DisconnectKeeps(t);
    case Add(name, port, sock) => AddKeeps(t, name, port, sock);
    case Remove(name) => RemoveKeeps(t, name);
    case List =>
    case Sync(data) => SyncSends(t, data);
  }

  // ---------------------------------------------------------------- socket accounting

  /** Successful `multiroom_start` calls of a run. */
  function Starts(t: Table, run: seq<Section>): nat {
    if run == [] then 0
    else
      var front, last := run[..|run| - 1], run[|run| - 1];
      Starts(t, front) + if last.Start? then Leaked(Replay(t, front), last) else 0
  }

  /** Room sockets still open when a repeated `multiroom_init` empties the table. */
  function Forgotten(t: Table, run: seq<Section>): nat {
    if run == [] then 0
    else
      var front, last := run[..|run| - 1], run[|run| - 1];
      Forgotten(t, front) + if last.Init? then Leaked(Replay(t, front), last) else 0
  }

  lemma {:induction false} RunKeeps(t: Table, run: seq<Section>)
    requires IsInitial(t) && IsRun(t, run)
    ensures Good(Replay(t, run))
    ensures |Others(Replay(t, run))| == Starts(t, run) + Forgotten(t, run)
    decreases |run|
  {
    if run == [] {
      assert multiset(BOOT.granted) == multiset(BOOT.closes) + multiset(BOOT.open);
    } else {
      hide Good, Others, Step, Leaked;
      var n := |run| - 1;
      RunPrefix(t, run, n);
      RunKeeps(t, run[..n]);
      assert Possible(Replay(t, run[..n]), run[n]);
      StepKeeps(Replay(t, run[..n]), run[n]);
      LeakedOnlyBy(Replay(t, run[..n]), run[n]);
    }
  }

  lemma LeakedOnlyBy(t: Table, s: Section)
    ensures Leaked(t, s) > 0 ==> s.Start? || s.Init?
  {
  }

  /** Over every run no close or send misses, no descriptor is closed twice, live entries are
      distinct and open, and what was handed out and not closed is the table's live sockets, one
      socket for each successful start, and what repeated initialisation forgot. */
  lemma SocketAccounting(t: Table, run: seq<Section>)
    requires IsInitial(t) && IsRun(t, run)
    ensures var t' := Replay(t, run); var live := Live(Socks(t'.rooms));
            && t'.kernel.faults == 0
            && multiset(t'.kernel.granted) == multiset(t'.kernel.closes) + multiset(t'.kernel.open)
            && Distinct(live) && Elements(live) <= t'.kernel.open
            && |t'.kernel.granted| - |t'.kernel.closes| == |live| + Starts(t, run) + Forgotten(t, run)
  {
    hide Live, Socks, Starts, Forgotten, Replay, IsRun;
    RunKeeps(t, run);
    var t' := Replay(t, run);
    var live := Live(Socks(t'.rooms));
    BalancedCount(t'.kernel);
    DistinctCount(live);
    assert t'.kernel.open == Others(t') + Elements(live);
  }

  // ---------------------------------------------------------------- where a listed room comes from

  /** Positions in a run, one for each listed room, after section `s` at position `n`. */
  function Track(before: Table, ids: seq<nat>, s: Section, n: nat): (r: seq<nat>)
    requires |ids| == |before.rooms|
    ensures |r| == |Step(before, s).0.rooms|
  {
    if s.Init? then []
    else if s.Add? && Step(before, s).1 == 0 then ids + [n]
    else if s.Remove? && Step(before, s).1 == 0 then Delete(ids, Find(before.rooms, s.name))
    else ids
  }

  /** For each listed room, the position in the run of the section that added it. */
  function Adders(t: Table, run: seq<Section>): (ids: seq<nat>)
    requires t.rooms == []
    ensures |ids| == |Replay(t, run).rooms|
  {
    if run == [] then []
    else
      var n := |run| - 1;
      Track(Replay(t, run[..n]), Adders(t, run[..n]), run[n], n)
  }

  predicate AddedBy(room: Room, s: Section) {
    && s.Add?
    && room.name == Stored(s.name)
    && (room.sock == s.sock || room.sock == -1)
    && (s.sock >= 0 ==> room.addr.family == AF_INET && room.addr.port == s.port)
    && (s.sock < 0 ==> room.addr.family == 0 && room.addr.port == 0)
  }

  predicate Increasing(ids: seq<nat>, n: nat) {
    && (forall i :: 0 <= i < |ids| ==> ids[i] < n)
    && (forall i, j :: 0 <= i < j < |ids| ==> ids[i] < ids[j])
  }

  lemma IncreasingInjective(ids: seq<nat>, n: nat, i: nat, k: nat)
    requires Increasing(ids, n) && i < |ids| && k < |ids| && ids[i] == ids[k]
    ensures i == k
  {
  }

  lemma DeleteAt<T>(s: seq<T>, i: nat)
    requires i < |s|
    ensures forall j :: 0 <= j < |s| - 1 ==> Delete(s, i)[j] == s[if j < i then j else j + 1]
  {
  }

  lemma TrackIncreasing(before: Table, ids: seq<nat>, s: Section, n: nat)
    requires |ids| == |before.rooms| && Increasing(ids, n)
    ensures Increasing(Track(before, ids, s, n), n + 1)
  {
    hide Find, Step, Delete;
    if s.Remove? && Step(before, s).1 == 0 {
      RemoveFinds(before, s);
      DeleteAt(ids, Find(before.rooms, s.name));
    }
  }

  lemma RemoveFinds(t: Table, s: Section)
    requires s.Remove? && Step(t, s).1 == 0
    ensures Find(t.rooms, s.name) < |t.rooms|
  {
  }

  /** A listed room is the one the last section added, or was listed before it and kept its name
      and address, while its socket stayed or was dropped. */
  lemma TrackRoom(before: Table, ids: seq<nat>, s: Section, n: nat, i: nat) returns (j: int)
    requires |ids| == |before.rooms| && i < |Track(before, ids, s, n)|
    ensures -1 <= j < |ids|
    ensures var room := Step(before, s).0.rooms[i]; var id := Track(before, ids, s, n)[i];
            && (j == -1 ==> Step(before, s).1 == 0 && id == n && AddedBy(room, s))
            && (j >= 0 ==> id == ids[j] && room.name == before.rooms[j].name && room.addr == before.rooms[j].addr
                           && (room.sock == before.rooms[j].sock || room.sock == -1))
  {
    j := i;
    if s.Add? && i == |before.rooms| {
      j := -1;
    } else if s.Remove? && Step(before, s).1 == 0 {
      var k := Find(before.rooms, s.name);
      DeleteAt(ids, k);
      DeleteAt(before.rooms, k);
      j := if i < k then i else i + 1;
    }
  }

  /** Every listed room is the product of one successful add of its own, in order of addition:
      it has the name that add stored, that add's socket or none, and the port it was given when the
      add got a socket; otherwise its address is all zero. */
  lemma {:induction false} Provenance(t: Table, run: seq<Section>)
    requires t.rooms == []
    ensures Increasing(Adders(t, run), |run|)
    ensures forall i :: 0 <= i < |Adders(t, run)| ==>
      var n := Adders(t, run)[i];
      AddedBy(Replay(t, run).rooms[i], run[n]) && Step(Replay(t, run[..n]), run[n]).1 == 0
    decreases |run|
  {
    if run != [] {
      hide Step, Track;
      var last := |run| - 1;
      var front := run[..last];
      var before, ids := Replay(t, front), Adders(t, front);
      Provenance(t, front);
      TrackIncreasing(before, ids, run[last], last);
      forall i | 0 <= i < |Adders(t, run)|
        ensures var n := Adders(t, run)[i];
                AddedBy(Replay(t, run).rooms[i], run[n]) && Step(Replay(t, run[..n]), run[n]).1 == 0
      {
        var j := TrackRoom(before, ids, run[last], last, i);
        if j >= 0 {
          assert front[..ids[j]] == run[..ids[j]];
        }
      }
    }
  }

  /** While a room stays listed its name and address never change, and its socket, once dropped,
      stays dropped: compare it after `n` sections of a run with the end of the run. */
  lemma {:induction false} NeverReopened(t: Table, run: seq<Section>, n: nat, i: nat, k: nat)
    requires t.rooms == [] && n <= |run|
    requires i < |Adders(t, run)| && k < |Adders(t, run[..n])|
    requires Adders(t, run)[i] == Adders(t, run[..n])[k]
    ensures var early := Replay(t, run[..n]).rooms[k]; var late := Replay(t, run).rooms[i];
            && late.name == early.name && late.addr == early.addr
            && (late.sock == early.sock || late.sock == -1)
    decreases |run|
  {
    hide Step, Track;
    Provenance(t, run[..n]);
    if n == |run| {
      assert run[..n] == run;
      IncreasingInjective(Adders(t, run), n, i, k);
    } else {
      var last := |run| - 1;
      var front := run[..last];
      assert front[..n] == run[..n];
      var j := TrackRoom(Replay(t, front), Adders(t, front), run[last], last, i);
      NeverReopened(t, front, n, j, k);
    }
  }

  // ---------------------------------------------------------------- names

  predicate NamesDistinct(rooms: seq<Room>) {
    forall i, j :: 0 <= i < j < |rooms| ==> rooms[i].name != rooms[j].name
  }

  /** An add that succeeds keeps stored names distinct exactly when what the row keeps of the new
      name is not stored yet. The duplicate check compares the whole name, so it settles this for
      names that fit a row... */
  lemma AddKeepsNamesDistinct(t: Table, name: string, port: nat, sock: int)
    requires NamesDistinct(t.rooms) && Step(t, Add(name, port, sock)).1 == 0
    ensures NamesDistinct(Step(t, Add(name, port, sock)).0.rooms) <==> Stored(name) !in Names(t.rooms)
    ensures |name| < MAX_ROOM_NAME_LEN ==> NamesDistinct(Step(t, Add(name, port, sock)).0.rooms)
  {
    var rooms := Step(t, Add(name, port, sock)).0.rooms;
    var n := |t.rooms|;
    assert rooms[n].name == Stored(name);
    if Stored(name) in Names(t.rooms) {
      var i :| 0 <= i < n && Names(t.rooms)[i] == Stored(name);
      assert rooms[i].name == rooms[n].name;
    } else {
      forall i, j | 0 <= i < j < |rooms| ensures rooms[i].name != rooms[j].name {
        assert Names(t.rooms)[i] == rooms[i].name;
      }
    }
  }

  lemma ListedNames(t: Table, name: string)
    requires Good(t) && name in Names(t.rooms)
    ensures 0 < |name| < MAX_ROOM_NAME_LEN
  {
    hide Balanced, Distinct, Elements, Live;
    var i :| 0 <= i < |t.rooms| && Names(t.rooms)[i] == name;
    assert t.rooms[i].name == name;
  }

  /** ... but not for longer ones. In every reachable table no row matches such a name: its add
      succeeds whenever there is room, listed or not, and a remove by it changes nothing. What the
      row keeps of it is listed then, and can be removed by that shorter form. */
  lemma LongNamesEscapeTheCheck(t: Table, name: string, port: nat, sock: int)
    requires Good(t) && |name| >= MAX_ROOM_NAME_LEN
    ensures name !in Names(t.rooms) && Step(t, Remove(name)) == (t, -1)
    ensures var (t', status) := Step(t, Add(name, port, sock));
            && (status == 0 <==> |t.rooms| < MAX_ROOMS)
            && (status == 0 ==>
                  && Names(t'.rooms) == Names(t.rooms) + [Stored(name)]
                  && (Stored(name) in Names(t.rooms) ==> !NamesDistinct(t'.rooms))
                  && Step(t', Remove(name)) == (t', -1)
                  && Step(t', Remove(Stored(name))).1 == 0)
  {
    hide Good, Find;
    if name in Names(t.rooms) {
      ListedNames(t, name);
    }
    var (t', status) := Step(t, Add(name, port, sock));
    if status == 0 {
      assert Names(t'.rooms) == Names(t.rooms) + [Stored(name)];
      assert Names(t'.rooms)[|t.rooms|] == Stored(name);
      if Stored(name) in Names(t.rooms) {
        var i :| 0 <= i < |t.rooms| && Names(t.rooms)[i] == Stored(name);
        assert t'.rooms[i].name == t'.rooms[|t.rooms|].name;
      }
    }
  }

  lemma ReplayTwo(t: Table, s: Section, s': Section) returns (once: Table, end: Table)
    requires IsInitial(t) && IsRun(t, [s, s'])
    ensures once == Step(t, s).0 && end == Step(once, s').0 == Replay(t, [s, s'])
    ensures Good(t) && Good(once) && Good(end)
  {
    hide Good, Step, Others, Starts, Forgotten;
    var run := [s, s'];
    assert run[..1] == [s] && [s][..0] == [] && run[..0] == [];
    RunPrefix(t, run, 0);
    RunPrefix(t, run, 1);
    hide IsRun;
    RunKeeps(t, []);
    RunKeeps(t, [s]);
    RunKeeps(t, run);
    once, end := Replay(t, [s]), Replay(t, run);
  }

  /** Such a collision is reached from every initial table by adding one long name twice. */
  lemma LongNamesCollide(t: Table, name: string, port: nat, sock: int, port': nat, sock': int)
    requires IsInitial(t) && |name| >= MAX_ROOM_NAME_LEN
    requires IsRun(t, [Add(name, port, sock), Add(name, port', sock')])
    ensures var run := [Add(name, port, sock), Add(name, port', sock')]; var end := Replay(t, run);
            && Names(end.rooms) == [Stored(name), Stored(name)] && !NamesDistinct(end.rooms)
            && Step(end, Remove(name)) == (end, -1)
  {
    hide Good, Find, Step, NamesDistinct, Replay, IsRun;
    var first, second := Add(name, port, sock), Add(name, port', sock');
    var once, end := ReplayTwo(t, first, second);
    LongNamesEscapeTheCheck(t, name, port, sock);
    assert Names(once.rooms) == [Stored(name)] && |once.rooms| == 1;
    LongNamesEscapeTheCheck(once, name, port', sock');
    LongNamesEscapeTheCheck(end, name, port, sock);
  }

  lemma DeleteKeepsNamesDistinct(rooms: seq<Room>, i: nat)
    requires NamesDistinct(rooms) && i < |rooms|
    ensures NamesDistinct(Delete(rooms, i))
  {
    DeleteAt(rooms, i);
  }

  lemma StepKeepsNamesDistinct(t: Table, s: Section)
    requires NamesDistinct(t.rooms) && (s.Add? ==> |s.name| < MAX_ROOM_NAME_LEN)
    ensures NamesDistinct(Step(t, s).0.rooms)
  {
    if s.Add? && Step(t, s).1 == 0 {
      AddKeepsNamesDistinct(t, s.name, s.port, s.sock);
    } else if s.Remove? && Step(t, s).1 == 0 {
      DeleteKeepsNamesDistinct(t.rooms, Find(t.rooms, s.name));
    }
  }

  /** When every added name fits a row, stored names are distinct and non-empty throughout. */
  lemma {:induction false} ShortNamesStayDistinct(t: Table, run: seq<Section>)
    requires IsInitial(t) && IsRun(t, run)
    requires forall n :: 0 <= n < |run| && run[n].Add? ==> |run[n].name| < MAX_ROOM_NAME_LEN
    ensures NamesDistinct(Replay(t, run).rooms)
    ensures "" !in Names(Replay(t, run).rooms)
    decreases |run|
  {
    hide Step, Good, NamesDistinct, Names;
    RunKeeps(t, run);
    if "" in Names(Replay(t, run).rooms) {
      ListedNames(Replay(t, run), "");
    }
    if run == [] {
      NoneDistinct();
    } else {
      var n := |run| - 1;
      RunPrefix(t, run, n);
      ShortNamesStayDistinct(t, run[..n]);
      StepKeepsNamesDistinct(Replay(t, run[..n]), run[n]);
    }
  }

  lemma NoneDistinct()
    ensures NamesDistinct([])
  {
  }

  /** Adding a fresh name that fits a row and removing it again restores every name, socket and
      address, in order, and leaves exactly the same descriptors open. */
  lemma AddThenRemove(t: Table, name: string, port: nat, sock: int)
    requires Good(t) && Possible(t, Add(name, port, sock))
    requires |t.rooms| < MAX_ROOMS && name !in Names(t.rooms) && |name| < MAX_ROOM_NAME_LEN
    ensures var (t1, s1) := Step(t, Add(name, port, sock)); var (t2, s2) := Step(t1, Remove(name));
            && s1 == 0 && s2 == 0 && t2.rooms == t.rooms
            && t2.kernel.open == t.kernel.open
            && t2.kernel.closes == t.kernel.closes + if sock >= 0 then [sock] else []
  {
    hide Find, Live, Distinct, Elements, Balanced;
    var t1 := Step(t, Add(name, port, sock)).0;
    var n := |t.rooms|;
    assert Names(t1.rooms)[n] == name;
    forall i | 0 <= i < n ensures t1.rooms[i].name != name {
      assert Names(t.rooms)[i] == t1.rooms[i].name;
    }
    assert Find(t1.rooms, name) == n;
    assert Delete(t1.rooms, n) == t.rooms;
  }

  lemma {:induction false} DatagramHasRoom(rooms: seq<Room>, data: seq<nat>, d: Datagram) returns (i: nat)
    requires d in Datagrams(rooms, data)
    ensures i < |rooms| && rooms[i].sock >= 0 && d == Datagram(rooms[i].sock, rooms[i].addr, data)
  {
    var front, last := rooms[..|rooms| - 1], rooms[|rooms| - 1];
    if d in Datagrams(front, data) {
      i := DatagramHasRoom(front, data, d);
    } else {
      i := |rooms| - 1;
    }
  }

  /** Everything the syncs of a run send: for each, one datagram per room that was live then. */
  function AllDatagrams(t: Table, run: seq<Section>): seq<Datagram> {
    if run == [] then []
    else
      var front, last := run[..|run| - 1], run[|run| - 1];
      AllDatagrams(t, front) + if last.Sync? then Datagrams(Replay(t, front).rooms, last.data) else []
  }

  lemma StepSends(t: Table, s: Section)
    requires Good(t)
    ensures Step(t, s).0.kernel.sends == t.kernel.sends + if s.Sync? then Datagrams(t.rooms, s.data) else []
  {
    assert t.kernel.sends + [] == t.kernel.sends;
    match s
    case Stop => DisconnectKeeps(t);
    case Cleanup => DisconnectKeeps(t);
    case Sync(data) => SyncSends(t, data);
    case _ =>
  }

  /** The log of sends of a run is exactly that, in order. */
  lemma {:induction false} RunSends(t: Table, run: seq<Section>)
    requires IsInitial(t) && IsRun(t, run)
    ensures Replay(t, run).kernel.sends == AllDatagrams(t, run)
    decreases |run|
  {
    if run != [] {
      hide Step, Good;
      var front := run[..|run| - 1];
      RunPrefix(t, run, |run| - 1);
      RunSends(t, front);
      RunKeeps(t, front);
      StepSends(Replay(t, front), run[|run| - 1]);
    }
  }

  /** This datagram went out because a sync of its data followed a successful add that got its
      socket, and it went to the port that add was given. */
  predicate SentFor(run: seq<Section>, d: Datagram, n: nat, m: nat) {
    && n < m < |run| && run[m].Sync? && d.data == run[m].data
    && run[n].Add? && d.fd == run[n].sock >= 0
    && d.destination.family == AF_INET && d.destination.port == run[n].port
  }

  /** Whatever was ever sent went to the port given for the room it was sent for. */
  lemma {:induction false} SendsReachTheirPorts(t: Table, run: seq<Section>, d: Datagram) returns (n: nat, m: nat)
    requires IsInitial(t) && IsRun(t, run) && d in Replay(t, run).kernel.sends
    ensures SentFor(run, d, n, m) && Step(Replay(t, run[..n]), run[n]).1 == 0
    decreases |run|
  {
    hide Step, Good, Adders, Datagrams;
    m := |run| - 1;
    var front, last := run[..m], run[m];
    RunPrefix(t, run, m);
    RunKeeps(t, front);
    StepSends(Replay(t, front), last);
    if d in Replay(t, front).kernel.sends {
      n, m := SendsReachTheirPorts(t, front, d);
      assert front[..n] == run[..n];
    } else {
      var i := DatagramHasRoom(Replay(t, front).rooms, last.data, d);
      Provenance(t, front);
      n := Adders(t, front)[i];
      assert front[..n] == run[..n];
    }
  }

  // ---------------------------------------------------------------- what configured it

  /** The argument of the last configuration of a run, or how it was before. */
  function LastConfigured(before: bool, run: seq<Section>): bool {
    if run == [] then before
    else if run[|run| - 1].Configure? then run[|run| - 1].enable
    else LastConfigured(before, run[..|run| - 1])
  }

  lemma {:induction false} EnabledIsLastConfigured(t: Table, run: seq<Section>)
    ensures Replay(t, run).enabled == LastConfigured(t.enabled, run)
    decreases |run|
  {
    if run != [] {
      hide Step;
      EnabledIsLastConfigured(t, run[..|run| - 1]);
      StepEnables(Replay(t, run[..|run| - 1]), run[|run| - 1]);
    }
  }

  lemma StepEnables(t: Table, s: Section)
    ensures Step(t, s).0.enabled == if s.Configure? then s.enable else t.enabled
  {
  }

  // ---------------------------------------------------------------- when the table is running

  lemma StepRuns(t: Table, s: Section)
    ensures Step(t, s).0.running <==> Launches(t, s) || (t.running && s != Stop)
    ensures Launches(t, s) ==> s.Start?
  {
  }

  /** The start at position `n` took effect, and no stop has come since. */
  ghost predicate UpSince(t: Table, run: seq<Section>, n: nat) {
    && n < |run| && Launches(Replay(t, run[..n]), run[n])
    && forall k :: n < k < |run| ==> run[k] != Stop
  }

  /** The stop at position `n` found the table running, and no start has taken effect since. */
  ghost predicate DownSince(t: Table, run: seq<Section>, n: nat) {
    && n < |run| && run[n] == Stop && Replay(t, run[..n]).running
    && forall k :: n < k < |run| ==> !Launches(Replay(t, run[..k]), run[k])
  }

  lemma UpExtends(t: Table, run: seq<Section>, n: nat)
    requires run != []
    ensures var last := |run| - 1;
            n < last ==> (UpSince(t, run, n) <==> UpSince(t, run[..last], n) && run[last] != Stop)
    ensures UpSince(t, run, |run| - 1) <==> Launches(Replay(t, run[..|run| - 1]), run[|run| - 1])
  {
    var front := run[..|run| - 1];
    if n < |front| {
      assert front[..n] == run[..n] && front[n] == run[n];
      assert forall k :: n < k < |front| ==> front[k] == run[k];
      assert forall k :: n < k < |run| ==> k == |front| || run[k] == front[k];
    }
  }

  /** A table is running exactly when some start that took effect has had no stop since. */
  lemma {:induction false} RunningIff(t: Table, run: seq<Section>)
    requires !t.running
    ensures Replay(t, run).running <==> exists n :: UpSince(t, run, n)
    decreases |run|
  {
    if run != [] {
      hide Step, Launches, UpSince;
      var last := |run| - 1;
      var front := run[..last];
      RunningIff(t, front);
      StepRuns(Replay(t, front), run[last]);
      UpExtends(t, run, last);
      if n :| UpSince(t, front, n) {
        UpWithin(t, front, n);
        UpExtends(t, run, n);
      }
      if n: nat :| UpSince(t, run, n) {
        UpWithin(t, run, n);
        UpExtends(t, run, n);
      }
    }
  }

  lemma UpWithin(t: Table, run: seq<Section>, n: nat)
    requires UpSince(t, run, n)
    ensures n < |run|
  {
  }

  lemma DownExtends(t: Table, run: seq<Section>, n: nat)
    requires run != []
    ensures var last := |run| - 1;
            n < last ==> (DownSince(t, run, n) <==>
                            DownSince(t, run[..last], n) && !Launches(Replay(t, run[..last]), run[last]))
    ensures DownSince(t, run, |run| - 1) <==> run[|run| - 1] == Stop && Replay(t, run[..|run| - 1]).running
  {
    hide Launches, Replay;
    var front := run[..|run| - 1];
    if n < |front| {
      assert front[..n] == run[..n] && front[n] == run[n];
      assert forall k :: n < k < |front| ==> front[..k] == run[..k] && front[k] == run[k];
    }
  }

  /** A table that was running after `m` sections is not running later exactly when a stop in between
      found it running and no start has taken effect since. */
  lemma {:induction false} StoppedIff(t: Table, run: seq<Section>, m: nat)
    requires m <= |run| && Replay(t, run[..m]).running
    ensures !Replay(t, run).running <==> exists n :: m <= n && DownSince(t, run, n)
    decreases |run|
  {
    hide Step, Launches, DownSince;
    if m == |run| {
      assert run[..m] == run;
      forall n: nat | DownSince(t, run, n) ensures n < m {
        DownWithin(t, run, n);
      }
    } else {
      var last := |run| - 1;
      var front := run[..last];
      assert front[..m] == run[..m];
      StoppedIff(t, front, m);
      StepRuns(Replay(t, front), run[last]);
      DownExtends(t, run, last);
      if n: nat :| m <= n && DownSince(t, front, n) {
        DownWithin(t, front, n);
        DownExtends(t, run, n);
      }
      if n: nat :| m <= n && DownSince(t, run, n) {
        DownWithin(t, run, n);
        DownExtends(t, run, n);
      }
    }
  }

  lemma DownWithin(t: Table, run: seq<Section>, n: nat)
    requires DownSince(t, run, n)
    ensures n < |run|
  {
  }

  // ---------------------------------------------------------------- stopping

  /** A cleanup closes every live socket once, in table order, leaves no room with one, and changes
      nothing else: names, addresses, count and both flags stay. */
  lemma CleanupDisconnects(t: Table)
    requires Good(t)
    ensures var t' := Step(t, Cleanup).0;
            && t'.enabled == t.enabled && t'.running == t.running
            && Live(Socks(t'.rooms)) == [] && |t'.rooms| == |t.rooms|
            && (forall i :: 0 <= i < |t.rooms| ==> t'.rooms[i] == Room(t.rooms[i].name, -1, t.rooms[i].addr))
            && t'.kernel.closes == t.kernel.closes + Live(Socks(t.rooms))
            && t'.kernel.open == t.kernel.open - Elements(Live(Socks(t.rooms)))
            && Step(t', Cleanup) == (t', 0)
  {
    DisconnectKeeps(t);
    LiveNone(Socks(Disconnected(t.rooms)));
    assert Disconnected(Disconnected(t.rooms)) == Disconnected(t.rooms);
  }

  /** Stopping a running table closes every live socket once, in table order, and keeps every name
      and address; stopping again does nothing. */
  lemma StopDisconnects(t: Table)
    requires Good(t) && t.running
    ensures var t' := Step(t, Stop).0;
            && !t'.running && Live(Socks(t'.rooms)) == [] && |t'.rooms| == |t.rooms|
            && (forall i :: 0 <= i < |t.rooms| ==>
                  t'.rooms[i].name == t.rooms[i].name && t'.rooms[i].addr == t.rooms[i].addr)
            && t'.kernel.closes == t.kernel.closes + Live(Socks(t.rooms))
            && Step(t', Stop) == (t', 0)
  {
    DisconnectKeeps(t);
    LiveNone(Socks(Disconnected(t.rooms)));
  }

  /** The section closes every room socket: a stop of a running table, or a cleanup. */
  predicate Silences(t: Table, s: Section) {
    (s == Stop && t.running) || s == Cleanup
  }

  /** Once a stop or a cleanup has closed every socket, a room listed then has none for as long as it
      stays listed. */
  lemma StoppedRoomsStaySilent(t: Table, run: seq<Section>, n: nat, i: nat)
    requires IsInitial(t) && IsRun(t, run) && n < |run| && Silences(Replay(t, run[..n]), run[n])
    requires i < |Adders(t, run)| && Adders(t, run)[i] < n
    ensures Replay(t, run).rooms[i].sock == -1
  {
    hide Step, Good, IsRun, Adders, Replay;
    var k := ListedThen(t, run, n + 1, i);
    NeverReopened(t, run, n + 1, i, k);
    RunPrefix(t, run, n);
    RunKeeps(t, run[..n]);
    ReplayNext(t, run, n);
    StopSilences(Replay(t, run[..n]), run[n], k);
  }

  lemma ReplayNext(t: Table, run: seq<Section>, n: nat)
    requires n < |run|
    ensures Replay(t, run[..n + 1]) == Step(Replay(t, run[..n]), run[n]).0
  {
    hide Step;
    assert run[..n + 1][..n] == run[..n];
  }

  lemma StopSilences(t: Table, s: Section, k: nat)
    requires Silences(t, s) && k < |Step(t, s).0.rooms|
    ensures Step(t, s).0.rooms[k].sock == -1
  {
  }

  /** A room listed at the end of a run and added before position `n` was listed at `n`. */
  lemma {:induction false} ListedThen(t: Table, run: seq<Section>, n: nat, i: nat) returns (k: nat)
    requires t.rooms == [] && n <= |run| && i < |Adders(t, run)| && Adders(t, run)[i] < n
    ensures k < |Adders(t, run[..n])| && Adders(t, run)[i] == Adders(t, run[..n])[k]
    decreases |run|
  {
    if n == |run| {
      assert run[..n] == run;
      k := i;
    } else {
      hide Step, Track;
      var last := |run| - 1;
      var front := run[..last];
      assert front[..n] == run[..n];
      var j := TrackRoom(Replay(t, front), Adders(t, front), run[last], last, i);
      k := ListedThen(t, front, n, j);
    }
  }

  /** The table has a live room with this datagram's socket and address, added after position `n`. */
  ghost predicate GoesToLater(t: Table, run: seq<Section>, n: nat, d: Datagram)
    requires t.rooms == []
  {
    var rooms, ids := Replay(t, run).rooms, Adders(t, run);
    exists i :: 0 <= i < |rooms| && ids[i] > n && rooms[i].sock == d.fd && rooms[i].addr == d.destination
  }

  /** So whatever a sync sends at any later point of a run goes to rooms added after that. */
  lemma SyncAfterStopSendsToLater(t: Table, run: seq<Section>, n: nat, data: seq<nat>)
    requires IsInitial(t) && IsRun(t, run) && n < |run| && Silences(Replay(t, run[..n]), run[n])
    ensures forall d :: d in Datagrams(Replay(t, run).rooms, data) ==> GoesToLater(t, run, n, d)
  {
    hide Step, Good, IsRun, Adders, Replay, Datagrams;
    var rooms, ids := Replay(t, run).rooms, Adders(t, run);
    Provenance(t, run);
    forall d | d in Datagrams(rooms, data) ensures GoesToLater(t, run, n, d) {
      var i := DatagramHasRoom(rooms, data, d);
      if ids[i] < n {
        StoppedRoomsStaySilent(t, run, n, i);
      }
    }
  }

  /** A sync right after a stop sends nothing, whatever the caller saw of the running flag. */
  lemma SyncAfterStop(t: Table, data: seq<nat>)
    requires Good(t) && t.running
    ensures var t' := Step(t, Stop).0; Step(t', Sync(data)).0 == t'
  {
    var t' := Step(t, Stop).0;
    DisconnectKeeps(t);
    SyncSends(t', data);
    LiveNone(Socks(t'.rooms));
    DatagramsToLive(t'.rooms, data);
    assert t'.kernel.sends + [] == t'.kernel.sends;
  }
}

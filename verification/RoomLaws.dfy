/** What a caller of src/multiroom.c can rely on, function by function: the rooms one by one, the
    flags, the return value and the logs of the kernel, before and after. These laws use none of the
    functions that define the sections of RoomTable.dfy, and hold of no other behaviour. */
module RoomLaws {
  import opened Descriptors
  import opened CStrings
  import opened RoomTable
  import opened RoomRuns

  ghost predicate SameFlags(t: Table, t': Table) {
    t'.enabled == t.enabled && t'.running == t.running
  }

  ghost predicate Listed(t: Table, name: string) {
    exists i :: 0 <= i < |t.rooms| && t.rooms[i].name == name
  }

  // ---------------------------------------------------------------- the laws

  /** At most eight rooms, each name once; a new room comes last, holds what 31 characters keep of its
      name, and has the given port and family 2 if it got a socket, an all-zero address otherwise. */
  ghost predicate AddLaw(t: Table, name: string, port: nat, sock: int, t': Table, status: int) {
    if |t.rooms| >= 8 || Listed(t, name) then t' == t && status == -1
    else
      && status == 0 && SameFlags(t, t')
      && |t'.rooms| == |t.rooms| + 1
      && (forall i :: 0 <= i < |t.rooms| ==> t'.rooms[i] == t.rooms[i])
      && var room := t'.rooms[|t.rooms|];
         && |room.name| == (if |name| <= 31 then |name| else 31) && room.name <= name
         && (sock >= 0 ==> room.sock == sock && room.addr.family == 2 && room.addr.port == port)
         && (sock < 0 ==> room.sock == -1 && room.addr.family == 0 && room.addr.port == 0)
         && Logged(t.kernel, if sock >= 0 then [sock] else [], [], [], [], t'.kernel)
  }

  /** The first room of that name, `i`, goes, with its socket; those after it move down one place. */
  ghost predicate RemovedAt(t: Table, name: string, i: nat, t': Table) {
    && i < |t.rooms| && t.rooms[i].name == name && (forall j :: 0 <= j < i ==> t.rooms[j].name != name)
    && |t'.rooms| == |t.rooms| - 1
    && (forall j :: 0 <= j < i ==> t'.rooms[j] == t.rooms[j])
    && (forall j :: i <= j < |t'.rooms| ==> t'.rooms[j] == t.rooms[j + 1])
    && Logged(t.kernel, [], if t.rooms[i].sock >= 0 then [t.rooms[i].sock] else [], [], [], t'.kernel)
  }

  ghost predicate RemoveLaw(t: Table, name: string, t': Table, status: int) {
    if Listed(t, name) then status == 0 && SameFlags(t, t') && exists i :: RemovedAt(t, name, i, t')
    else t' == t && status == -1
  }

  /** A start of an enabled table that is not running tries to bind a socket; it keeps the one it
      bound, and closes the one it could not bind. Any other start does nothing, without complaint. */
  ghost predicate StartLaw(t: Table, sock: int, bound: bool, t': Table, status: int) {
    if !t.enabled || t.running then t' == t && status == 0
    else
      && t'.rooms == t.rooms && t'.enabled
      && (t'.running <==> sock >= 0 && bound)
      && status == (if sock >= 0 && bound then 0 else -1)
      && Logged(t.kernel, if sock >= 0 then [sock] else [], if sock >= 0 && !bound then [sock] else [], [], [],
                t'.kernel)
  }

  /** Every live room socket is closed once, in table order, and marked -1. */
  ghost predicate Silenced(t: Table, t': Table) {
    && |t'.rooms| == |t.rooms|
    && (forall i :: 0 <= i < |t.rooms| ==>
          t'.rooms[i].name == t.rooms[i].name && t'.rooms[i].addr == t.rooms[i].addr && t'.rooms[i].sock == -1)
    && Logged(t.kernel, [], Live(Socks(t.rooms)), [], [], t'.kernel)
  }

  ghost predicate Law(t: Table, s: Section, t': Table, status: int) {
    match s
    case Init => t'.rooms == [] && SameFlags(t, t') && t'.kernel == t.kernel && status == 0
    case Configure(enable) =>
      t'.rooms == t.rooms && t'.enabled == enable && t'.running == t.running && t'.kernel == t.kernel && status == 0
    case Start(sock, bound) => StartLaw(t, sock, bound, t', status)
    case Stop =>
      status == 0 && if t.running then Silenced(t, t') && t'.enabled == t.enabled && !t'.running else t' == t
    case Cleanup => status == 0 && Silenced(t, t') && SameFlags(t, t')
    case Add(name, port, sock) => AddLaw(t, name, port, sock, t', status)
    case Remove(name) => RemoveLaw(t, name, t', status)
    case List => t' == t && status == |t.rooms|
    case Sync(data) =>
      status == 0 && t'.rooms == t.rooms && SameFlags(t, t')
      && exists sent :: SentToEach(t.rooms, data, sent) && Logged(t.kernel, [], [], sent, [], t'.kernel)
  }

  /** One datagram of this data for each live socket, in table order, to that room's own address. */
  ghost predicate SentToEach(rooms: seq<Room>, data: seq<nat>, sent: seq<Datagram>) {
    && |sent| == |Live(Socks(rooms))|
    && forall k :: 0 <= k < |sent| ==>
         sent[k].fd == Live(Socks(rooms))[k] && sent[k].data == data && Addressed(rooms, sent[k])
  }

  ghost predicate Addressed(rooms: seq<Room>, d: Datagram) {
    exists i :: 0 <= i < |rooms| && rooms[i].sock == d.fd && rooms[i].addr == d.destination
  }

  // ---------------------------------------------------------------- the sections obey them

  lemma ListedIff(t: Table, name: string)
    ensures Listed(t, name) <==> name in Names(t.rooms)
  {
    if Listed(t, name) {
      var i :| 0 <= i < |t.rooms| && t.rooms[i].name == name;
      assert Names(t.rooms)[i] == name;
    }
  }

  lemma AddObeys(t: Table, name: string, port: nat, sock: int)
    requires Possible(t, Add(name, port, sock))
    ensures var (t', status) := Step(t, Add(name, port, sock)); AddLaw(t, name, port, sock, t', status)
  {
    hide Names;
    ListedIff(t, name);
  }

  lemma RemoveObeys(t: Table, name: string)
    requires Good(t)
    ensures var (t', status) := Step(t, Remove(name)); RemoveLaw(t, name, t', status)
  {
    hide Names, Delete, Live, Balanced, Distinct;
    ListedIff(t, name);
    if Listed(t, name) {
      var i := Find(t.rooms, name);
      var t' := Step(t, Remove(name)).0;
      DeleteAt(t.rooms, i);
      LiveMember(Socks(t.rooms), i);
      assert Logged(t.kernel, [], if t.rooms[i].sock >= 0 then [t.rooms[i].sock] else [], [], [], t'.kernel);
      assert RemovedAt(t, name, i, t');
    }
  }

  lemma SilencedObeys(t: Table)
    requires Good(t)
    ensures Silenced(t, Disconnect(t))
  {
    hide Live, Distinct, Balanced;
    CloseAllEffect(t.kernel, Live(Socks(t.rooms)));
  }

  lemma {:induction false} DatagramsSent(rooms: seq<Room>, data: seq<nat>)
    ensures SentToEach(rooms, data, Datagrams(rooms, data))
  {
    hide Live;
    DatagramsToLive(rooms, data);
    var sent := Datagrams(rooms, data);
    forall k | 0 <= k < |sent| ensures sent[k].data == data && Addressed(rooms, sent[k]) {
      var i := DatagramHasRoom(rooms, data, sent[k]);
    }
  }

  lemma SyncObeys(t: Table, data: seq<nat>)
    requires Good(t)
    ensures var (t', status) := Step(t, Sync(data)); Law(t, Sync(data), t', status)
  {
    hide Datagrams, SentToEach;
    SyncSends(t, data);
    DatagramsSent(t.rooms, data);
    var t' := Step(t, Sync(data)).0;
    assert Logged(t.kernel, [], [], Datagrams(t.rooms, data), [], t'.kernel);
  }

  lemma StepObeys(t: Table, s: Section)
    requires Good(t) && Possible(t, s)
    ensures Law(t, s, Step(t, s).0, Step(t, s).1)
  {
    hide Good, Live, SentToEach;
    match s
    case Stop => SilencedObeys(t);
    case Cleanup => SilencedObeys(t);
    case Add(name, port, sock) => AddObeys(t, name, port, sock);
    case Remove(name) => RemoveObeys(t, name);
    case Sync(data) => SyncObeys(t, data);
    case _ =>
  }

  // ---------------------------------------------------------------- and nothing else does

  lemma PrefixOnce(name: string, a: string, b: string)
    requires a <= name && b <= name && |a| == |b|
    ensures a == b
  {
  }

  lemma AddOnce(t: Table, name: string, port: nat, sock: int, a: Table, x: int, b: Table, y: int)
    requires AddLaw(t, name, port, sock, a, x) && AddLaw(t, name, port, sock, b, y)
    ensures a == b && x == y
  {
    hide Logged, Listed;
    if x == 0 {
      var n := |t.rooms|;
      PrefixOnce(name, a.rooms[n].name, b.rooms[n].name);
      LoggedOnce(t.kernel, if sock >= 0 then [sock] else [], [], [], [], a.kernel, b.kernel);
      assert a.rooms[n] == b.rooms[n] && a.rooms == b.rooms;
    }
  }

  lemma RemoveOnce(t: Table, name: string, a: Table, x: int, b: Table, y: int)
    requires RemoveLaw(t, name, a, x) && RemoveLaw(t, name, b, y)
    ensures a == b && x == y
  {
    hide Logged, Listed;
    if x == 0 {
      var i: nat :| RemovedAt(t, name, i, a);
      var j: nat :| RemovedAt(t, name, j, b);
      assert i == j;
      LoggedOnce(t.kernel, [], if t.rooms[i].sock >= 0 then [t.rooms[i].sock] else [], [], [], a.kernel, b.kernel);
      assert a.rooms == b.rooms;
    }
  }

  lemma StartOnce(t: Table, sock: int, bound: bool, a: Table, x: int, b: Table, y: int)
    requires StartLaw(t, sock, bound, a, x) && StartLaw(t, sock, bound, b, y)
    ensures a == b && x == y
  {
    hide Logged;
    if t.enabled && !t.running {
      LoggedOnce(t.kernel, if sock >= 0 then [sock] else [], if sock >= 0 && !bound then [sock] else [], [], [],
                 a.kernel, b.kernel);
    }
  }

  lemma SilencedOnce(t: Table, a: Table, b: Table)
    requires Silenced(t, a) && Silenced(t, b)
    ensures a.rooms == b.rooms && a.kernel == b.kernel
  {
    hide Logged, Live;
    LoggedOnce(t.kernel, [], Live(Socks(t.rooms)), [], [], a.kernel, b.kernel);
  }

  /** Live sockets are distinct, so a descriptor belongs to one room. */
  lemma SocketOnce(rooms: seq<Room>, i: nat, j: nat)
    requires Distinct(Live(Socks(rooms))) && i < j < |rooms| && rooms[i].sock >= 0
    ensures rooms[i].sock != rooms[j].sock
  {
    hide Live;
    var socks := Socks(rooms);
    LiveMember(socks[..j], i);
    LiveSplit(socks[..j], socks[j], socks[j + 1..]);
    assert socks == socks[..j] + [socks[j]] + socks[j + 1..];
    if socks[j] >= 0 {
      var x, y := Live(socks[..j]), Live(socks[j + 1..]);
      var k :| 0 <= k < |x| && x[k] == socks[i];
      assert (x + [socks[j]] + y)[k] == x[k] && (x + [socks[j]] + y)[|x|] == socks[j];
    }
  }

  lemma SentOnce(rooms: seq<Room>, data: seq<nat>, a: seq<Datagram>, b: seq<Datagram>)
    requires Distinct(Live(Socks(rooms))) && SentToEach(rooms, data, a) && SentToEach(rooms, data, b)
    ensures a == b
  {
    hide Live, Distinct, Socks;
    LiveMembers(Socks(rooms));
    forall k | 0 <= k < |a| ensures a[k] == b[k] {
      var i: nat :| i < |rooms| && rooms[i].sock == a[k].fd && rooms[i].addr == a[k].destination;
      var j: nat :| j < |rooms| && rooms[j].sock == b[k].fd && rooms[j].addr == b[k].destination;
      assert a[k].fd in Live(Socks(rooms));
      if i < j {
        SocketOnce(rooms, i, j);
      } else if j < i {
        SocketOnce(rooms, j, i);
      }
    }
  }

  lemma SyncOnce(t: Table, data: seq<nat>, a: Table, x: int, b: Table, y: int)
    requires Good(t) && Law(t, Sync(data), a, x) && Law(t, Sync(data), b, y)
    ensures a == b && x == y
  {
    hide Logged, SentToEach, Live;
    var p :| SentToEach(t.rooms, data, p) && Logged(t.kernel, [], [], p, [], a.kernel);
    var q :| SentToEach(t.rooms, data, q) && Logged(t.kernel, [], [], q, [], b.kernel);
    SentOnce(t.rooms, data, p, q);
    LoggedOnce(t.kernel, [], [], p, [], a.kernel, b.kernel);
  }

  lemma LawOnce(t: Table, s: Section, a: Table, x: int, b: Table, y: int)
    requires Good(t) && Law(t, s, a, x) && Law(t, s, b, y)
    ensures a == b && x == y
  {
    hide Good, Live, SentToEach, Logged, AddLaw, RemoveLaw, StartLaw, Silenced;
    match s
    case Start(sock, bound) => StartOnce(t, sock, bound, a, x, b, y);
    case Stop =>
      if t.running {
        SilencedOnce(t, a, b);
      }
    case Cleanup => SilencedOnce(t, a, b);
    case Add(name, port, sock) => AddOnce(t, name, port, sock, a, x, b, y);
    case Remove(name) => RemoveOnce(t, name, a, x, b, y);
    case Sync(data) => SyncOnce(t, data, a, x, b, y);
    case _ =>
  }

  /** In every reachable table a section does what its law says, and the law leaves it no choice. */
  lemma SectionIsLaw(t: Table, s: Section, t': Table, status: int)
    requires Good(t) && Possible(t, s)
    ensures Law(t, s, t', status) <==> (t', status) == Step(t, s)
  {
    hide Good, Law, Step;
    StepObeys(t, s);
    if Law(t, s, t', status) {
      LawOnce(t, s, t', status, Step(t, s).0, Step(t, s).1);
    }
  }
}

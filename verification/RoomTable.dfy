/** The multiroom table of src/multiroom.c as an ordered list of rooms, and what each function
    does to it while it holds the mutex. Byte rows, shifting loops and slots past the count belong
    to RoomMemory.dfy. Results of system calls are parameters of the section that makes them. */
module RoomTable {
  import opened Descriptors
  import opened CStrings

  const MAX_ROOMS: nat := 8
  const MAX_ROOM_NAME_LEN: nat := 32

  datatype Room = Room(name: string, sock: int, addr: Address)

  datatype Table = Table(rooms: seq<Room>, enabled: bool, running: bool, kernel: Kernel)

  /** A critical section: one function's work under the mutex. */
  datatype Section =
    | Init
    | Configure(enable: bool)
    | Start(sock: int, bound: bool)              // results of socket() and bind()
    | Stop
    | Cleanup
    | Add(name: string, port: nat, sock: int)    // result of socket()
    | Remove(name: string)
    | List
    | Sync(data: seq<nat>)

  // ---------------------------------------------------------------- views of the list

  function Names(rooms: seq<Room>): (names: seq<string>)
    ensures |names| == |rooms| && forall i :: 0 <= i < |rooms| ==> names[i] == rooms[i].name
  {
    seq(|rooms|, i requires 0 <= i < |rooms| => rooms[i].name)
  }

  function Socks(rooms: seq<Room>): (socks: seq<int>)
    ensures |socks| == |rooms| && forall i :: 0 <= i < |rooms| ==> socks[i] == rooms[i].sock
  {
    seq(|rooms|, i requires 0 <= i < |rooms| => rooms[i].sock)
  }

  /** The descriptors among socket entries, where -1 marks none. */
  function Live(socks: seq<int>): seq<int> {
    if socks == [] then []
    else
      var front, last := socks[..|socks| - 1], socks[|socks| - 1];
      if last >= 0 then Live(front) + [last] else Live(front)
  }

  function Delete<T>(s: seq<T>, i: nat): (r: seq<T>)
    requires i < |s|
    ensures |r| == |s| - 1
  {
    s[..i] + s[i + 1..]
  }

  /** The first row `strcmp` finds equal, or the number of rooms. */
  function Find(rooms: seq<Room>, name: string): (i: nat)
    ensures i <= |rooms|
    ensures i < |rooms| <==> name in Names(rooms)
    ensures i < |rooms| ==> rooms[i].name == name
    ensures forall j :: 0 <= j < i ==> rooms[j].name != name
  {
    if rooms == [] then 0
    else
      NamesRest(rooms, name);
      if rooms[0].name == name then 0
      else
        var i := Find(rooms[1..], name);
        assert forall j :: 1 <= j < 1 + i ==> rooms[j] == rooms[1..][j - 1];
        1 + i
  }

  lemma NamesRest(rooms: seq<Room>, name: string)
    requires rooms != []
    ensures name in Names(rooms) <==> rooms[0].name == name || name in Names(rooms[1..])
  {
    assert Names(rooms) == [rooms[0].name] + Names(rooms[1..]);
  }

  /** What a 32-byte row keeps of a name. */
  function Stored(name: string): (s: string)
    ensures |s| < MAX_ROOM_NAME_LEN && s <= name
    ensures |s| == if |name| <= 31 then |name| else 31
  {
    if |name| < MAX_ROOM_NAME_LEN then name else name[..MAX_ROOM_NAME_LEN - 1]
  }

  /** The address is only filled in when the socket was created. */
  function AddressFor(port: nat, sock: int): Address {
    if sock >= 0 then Address(AF_INET, port) else NO_ADDRESS
  }

  function Disconnected(rooms: seq<Room>): (r: seq<Room>)
    ensures |r| == |rooms|
  {
    seq(|rooms|, i requires 0 <= i < |rooms| => rooms[i].(sock := -1))
  }

  /** One datagram to each room with a live socket, in table order. */
  function Datagrams(rooms: seq<Room>, data: seq<nat>): seq<Datagram> {
    if rooms == [] then []
    else
      var front, last := rooms[..|rooms| - 1], rooms[|rooms| - 1];
      if last.sock >= 0 then Datagrams(front, data) + [Datagram(last.sock, last.addr, data)]
      else Datagrams(front, data)
  }

  function SendAll(k: Kernel, ds: seq<Datagram>): Kernel {
    if ds == [] then k else SendTo(SendAll(k, ds[..|ds| - 1]), ds[|ds| - 1])
  }

  // ---------------------------------------------------------------- sections

  /** The table after a section and the value its function returns. */
  function Step(t: Table, s: Section): (Table, int) {
    match s
    case Init => (t.(rooms := []), 0)
    case Configure(enable) => (t.(enabled := enable), 0)
    case Start(sock, bound) =>
      if !t.enabled || t.running then (t, 0)
      else if sock < 0 then (t, -1)
      else if !bound then (t.(kernel := Close(Open(t.kernel, sock), sock)), -1)
      else (t.(running := true, kernel := Open(t.kernel, sock)), 0)
    case Stop =>
      if !t.running then (t, 0)
      else (Disconnect(t).(running := false), 0)
    case Cleanup => (Disconnect(t), 0)
    case Add(name, port, sock) =>
      if |t.rooms| >= MAX_ROOMS || name in Names(t.rooms) then (t, -1)
      else
        var room := Room(Stored(name), if sock >= 0 then sock else -1, AddressFor(port, sock));
        (t.(rooms := t.rooms + [room], kernel := Open(t.kernel, sock)), 0)
    case Remove(name) =>
      var i := Find(t.rooms, name);
      if i == |t.rooms| then (t, -1)
      else
        var sock := t.rooms[i].sock;
        (t.(rooms := Delete(t.rooms, i), kernel := if sock >= 0 then Close(t.kernel, sock) else t.kernel), 0)
    case List => (t, |t.rooms|)
    case Sync(data) => (t.(kernel := SendAll(t.kernel, Datagrams(t.rooms, data))), 0)
  }

  function Disconnect(t: Table): Table {
    t.(rooms := Disconnected(t.rooms), kernel := CloseAll(t.kernel, Live(Socks(t.rooms))))
  }

  /** What the caller and the kernel guarantee of a section about to run. A cleanup that finds
      the table running never completes: it waits for the mutex it holds. */
  predicate Possible(t: Table, s: Section) {
    match s
    case Start(sock, _) => Grants(t.kernel, sock)
    case Add(name, _, sock) => name != "" && NUL !in name && Grants(t.kernel, sock)
    case Cleanup => !t.running
    case _ => true
  }

  // ---------------------------------------------------------------- runs

  /** The table after a run of sections. */
  function Replay(t: Table, run: seq<Section>): Table {
    if run == [] then t else Step(Replay(t, run[..|run| - 1]), run[|run| - 1]).0
  }

  ghost predicate IsRun(t: Table, run: seq<Section>) {
    forall n {:trigger run[n]} :: 0 <= n < |run| ==> Possible(Replay(t, run[..n]), run[n])
  }

  lemma RunPrefix(t: Table, run: seq<Section>, n: nat)
    requires IsRun(t, run) && n <= |run|
    ensures IsRun(t, run[..n])
  {
    forall m | 0 <= m < n ensures Possible(Replay(t, run[..n][..m]), run[..n][m]) {
      assert run[..n][..m] == run[..m];
      assert run[m] == run[..n][m];
    }
  }
}

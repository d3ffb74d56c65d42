/** The static arrays of src/multiroom.c byte for byte, the elementary updates its functions make,
    and the proof that they amount to the list operations of RoomTable.dfy. */
module RoomMemory {
  import opened Descriptors
  import opened CStrings
  import opened RoomTable

  /** `rooms`, `room_sockets`, `room_addresses`, `room_count`, the two flags, and the kernel. */
  datatype Memory = Memory(
    rows: seq<seq<char>>,
    socks: seq<int>,
    addrs: seq<Address>,
    count: int,
    enabled: bool,
    running: bool,
    kernel: Kernel)

  function ZeroRow(): (row: seq<char>)
    ensures |row| == MAX_ROOM_NAME_LEN && forall k :: 0 <= k < |row| ==> row[k] == NUL
  {
    seq(MAX_ROOM_NAME_LEN, _ => NUL)
  }

  /** The arrays have their C sizes and every row is a C string. */
  ghost predicate Shaped(m: Memory) {
    && |m.rows| == |m.socks| == |m.addrs| == MAX_ROOMS
    && 0 <= m.count <= MAX_ROOMS
    && (forall i :: 0 <= i < MAX_ROOMS ==> |m.rows[i]| == MAX_ROOM_NAME_LEN && m.rows[i][MAX_ROOM_NAME_LEN - 1] == NUL)
    && (forall i :: 0 <= i < MAX_ROOMS ==> m.socks[i] >= -1)
  }

  /** Every slot at or past the count is cleared. This is what makes a failed `socket()` in an add
      harmless: the entry it leaves alone already says "no socket". */
  ghost predicate Valid(m: Memory) {
    && Shaped(m)
    && (forall i :: m.count <= i < MAX_ROOMS ==> m.rows[i] == ZeroRow())
    && (forall i :: m.count <= i < MAX_ROOMS ==> m.socks[i] == -1)
    && (forall i :: m.count <= i < MAX_ROOMS ==> m.addrs[i] == NO_ADDRESS)
  }

  function Slot(m: Memory, i: nat): Room
    requires i < |m.rows| && i < |m.socks| && i < |m.addrs| && HasNul(m.rows[i])
  {
    Room(Text(m.rows[i]), m.socks[i], m.addrs[i])
  }

  ghost function Rooms(m: Memory): (rooms: seq<Room>)
    requires Shaped(m)
    ensures |rooms| == m.count && forall i :: 0 <= i < m.count ==> rooms[i] == Slot(m, i)
  {
    seq(m.count, i requires 0 <= i < m.count => Slot(m, i))
  }

  /** The table the memory represents. */
  ghost function TableOf(m: Memory): Table
    requires Shaped(m)
  {
    Table(Rooms(m), m.enabled, m.running, m.kernel)
  }

  // ---------------------------------------------------------------- elementary updates

  function ClearSlot(m: Memory, i: nat): Memory
    requires i < |m.rows| && i < |m.socks| && i < |m.addrs|
  {
    m.(rows := m.rows[i := ZeroRow()], socks := m.socks[i := -1], addrs := m.addrs[i := NO_ADDRESS])
  }

  function ClearSlots(m: Memory, n: nat): (r: Memory)
    requires n <= |m.rows| && n <= |m.socks| && n <= |m.addrs|
    ensures |r.rows| == |m.rows| && |r.socks| == |m.socks| && |r.addrs| == |m.addrs|
  {
    if n == 0 then m else ClearSlot(ClearSlots(m, n - 1), n - 1)
  }

  /** `strncpy(row, name, 31); row[31] = 0` */
  function NameRow(row: seq<char>, name: string): (r: seq<char>)
    requires |row| == MAX_ROOM_NAME_LEN
    ensures |r| == MAX_ROOM_NAME_LEN
  {
    StrNCpy(row, name, MAX_ROOM_NAME_LEN - 1)[MAX_ROOM_NAME_LEN - 1 := NUL]
  }

  ghost function WriteName(m: Memory, name: string): Memory
    requires Shaped(m) && m.count < MAX_ROOMS
  {
    m.(rows := m.rows[m.count := NameRow(m.rows[m.count], name)])
  }

  ghost function InstallSocket(m: Memory, port: nat, sock: int): Memory
    requires Shaped(m) && m.count < MAX_ROOMS
  {
    if sock < 0 then m
    else m.(socks := m.socks[m.count := sock], addrs := m.addrs[m.count := Address(AF_INET, port)],
            kernel := Open(m.kernel, sock))
  }

  function SetCount(m: Memory, count: int): Memory {
    m.(count := count)
  }

  function CloseEntry(m: Memory, i: nat): Memory
    requires i < |m.socks|
  {
    if m.socks[i] >= 0 then m.(kernel := Close(m.kernel, m.socks[i])) else m
  }

  /** `strcpy` leaves whatever the target row held behind the copied NUL. */
  ghost function ShiftSlot(m: Memory, i: nat): Memory
    requires Shaped(m) && i + 1 < MAX_ROOMS
  {
    m.(rows := m.rows[i := StrCpy(m.rows[i], m.rows[i + 1])],
       socks := m.socks[i := m.socks[i + 1]],
       addrs := m.addrs[i := m.addrs[i + 1]])
  }

  ghost function ShiftSlots(m: Memory, lo: nat, hi: nat): (r: Memory)
    requires Shaped(m) && lo <= hi < MAX_ROOMS
    ensures Shaped(r) && r.count == m.count
    decreases hi
  {
    if lo == hi then m
    else
      var before := ShiftSlots(m, lo, hi - 1);
      TextOfStrCpy(before.rows[hi - 1], before.rows[hi]);
      ShiftSlot(before, hi - 1)
  }

  function DropSocket(m: Memory, i: nat): Memory
    requires i < |m.socks|
  {
    if m.socks[i] >= 0 then m.(kernel := Close(m.kernel, m.socks[i]), socks := m.socks[i := -1]) else m
  }

  function DropSockets(m: Memory, n: nat): (r: Memory)
    requires n <= |m.socks|
    ensures |r.socks| == |m.socks|
  {
    if n == 0 then m else DropSocket(DropSockets(m, n - 1), n - 1)
  }

  function SendSlot(m: Memory, data: seq<nat>, i: nat): Memory
    requires i < |m.socks| && i < |m.addrs|
  {
    if m.socks[i] >= 0 then m.(kernel := SendTo(m.kernel, Datagram(m.socks[i], m.addrs[i], data))) else m
  }

  function SendSlots(m: Memory, data: seq<nat>, n: nat): (r: Memory)
    requires n <= |m.socks| && n <= |m.addrs|
    ensures r == m.(kernel := r.kernel)
  {
    if n == 0 then m else SendSlot(SendSlots(m, data, n - 1), data, n - 1)
  }

  // ---------------------------------------------------------------- refinement: add

  lemma NameRowText(row: seq<char>, name: string)
    requires |row| == MAX_ROOM_NAME_LEN && NUL !in name
    ensures HasNul(NameRow(row, name)) && Text(NameRow(row, name)) == Stored(name)
    ensures NameRow(row, name)[MAX_ROOM_NAME_LEN - 1] == NUL
  {
    TextIs(NameRow(row, name), Stored(name));
  }

  /** A row keeps nothing of what it held: 31 characters of the name, and NULs to its end. */
  lemma NameRowBytes(row: seq<char>, name: string)
    requires |row| == MAX_ROOM_NAME_LEN
    ensures forall k :: 0 <= k < MAX_ROOM_NAME_LEN ==>
      NameRow(row, name)[k] == if k < |name| && k < 31 then name[k] else NUL
  {
  }

  /** Filling the first vacant slot and counting it appends one room, whether or not a socket
      could be created. */
  lemma AddRefines(m: Memory, name: string, port: nat, sock: int)
    requires Valid(m) && NUL !in name && m.count < MAX_ROOMS && name !in Names(Rooms(m))
    ensures Shaped(WriteName(m, name)) && Shaped(InstallSocket(WriteName(m, name), port, sock))
    ensures var r := SetCount(InstallSocket(WriteName(m, name), port, sock), m.count + 1);
            Valid(r) && TableOf(r) == Step(TableOf(m), Add(name, port, sock)).0
  {
    hide StrLen, Text, NameRow;
    NameRowText(m.rows[m.count], name);
    var r := SetCount(InstallSocket(WriteName(m, name), port, sock), m.count + 1);
    assert Valid(r);
    AppendsRoom(m, r, Stored(name), sock, AddressFor(port, sock));
  }

  lemma AppendsRoom(m: Memory, r: Memory, name: string, sock: int, addr: Address)
    requires Shaped(m) && Shaped(r) && r.count == m.count + 1
    requires forall i :: 0 <= i < m.count ==>
      r.rows[i] == m.rows[i] && r.socks[i] == m.socks[i] && r.addrs[i] == m.addrs[i]
    requires Text(r.rows[m.count]) == name && r.addrs[m.count] == addr
    requires r.socks[m.count] == if sock >= 0 then sock else -1
    ensures Rooms(r) == Rooms(m) + [Room(name, if sock >= 0 then sock else -1, addr)]
  {
    hide StrLen, Text;
  }

  // ---------------------------------------------------------------- refinement: remove

  /** The shift moves every room past `from` down one slot; it moves text, not bytes. */
  lemma {:induction false} ShiftEffect(m: Memory, lo: nat, hi: nat)
    requires Shaped(m) && lo <= hi < MAX_ROOMS
    ensures var r := ShiftSlots(m, lo, hi);
            && r == m.(rows := r.rows, socks := r.socks, addrs := r.addrs)
            && (forall i :: 0 <= i < lo || hi <= i < MAX_ROOMS ==>
                  r.rows[i] == m.rows[i] && r.socks[i] == m.socks[i] && r.addrs[i] == m.addrs[i])
            && (forall i :: lo <= i < hi ==> Slot(r, i) == Slot(m, i + 1))
    decreases hi
  {
    if lo < hi {
      ShiftEffect(m, lo, hi - 1);
      var before := ShiftSlots(m, lo, hi - 1);
      TextOfStrCpy(before.rows[hi - 1], before.rows[hi]);
      var r := ShiftSlot(before, hi - 1);
      forall i | lo <= i < hi ensures Slot(r, i) == Slot(m, i + 1) {
        if i < hi - 1 {
          assert Slot(before, i) == Slot(m, i + 1);
        }
      }
    }
  }

  /** The memory once `room_count` is decremented: already the shorter table, with the last slot
      still to be cleared. */
  ghost function Removed(m: Memory, i: nat): (r: Memory)
    requires Shaped(m) && i < m.count
    ensures Shaped(r) && r.count == m.count - 1
  {
    SetCount(ShiftSlots(CloseEntry(m, i), i, m.count - 1), m.count - 1)
  }

  lemma ShiftRooms(m: Memory, i: nat)
    requires Shaped(m) && i < m.count
    ensures Rooms(SetCount(ShiftSlots(m, i, m.count - 1), m.count - 1)) == Delete(Rooms(m), i)
  {
    hide StrLen, Text, ShiftSlots;
    ShiftEffect(m, i, m.count - 1);
    var shifted := ShiftSlots(m, i, m.count - 1);
    var r := SetCount(shifted, m.count - 1);
    forall k | 0 <= k < r.count ensures Rooms(r)[k] == Delete(Rooms(m), i)[k] {
      assert Slot(r, k) == Slot(shifted, k);
    }
  }

  lemma RemovedRooms(m: Memory, i: nat)
    requires Valid(m) && i < m.count
    ensures var r := Removed(m, i);
            && r == m.(rows := r.rows, socks := r.socks, addrs := r.addrs, count := m.count - 1,
                       kernel := CloseEntry(m, i).kernel)
            && Rooms(r) == Delete(Rooms(m), i)
            && (forall k :: m.count <= k < MAX_ROOMS ==>
                  r.rows[k] == ZeroRow() && r.socks[k] == -1 && r.addrs[k] == NO_ADDRESS)
  {
    hide StrLen, Text, ShiftSlots, Delete;
    var closed := CloseEntry(m, i);
    ShiftEffect(closed, i, m.count - 1);
    ShiftRooms(closed, i);
    assert Rooms(closed) == Rooms(m);
  }

  lemma ClearLast(m: Memory)
    requires Shaped(m) && m.count < MAX_ROOMS
    requires forall k :: m.count < k < MAX_ROOMS ==>
      m.rows[k] == ZeroRow() && m.socks[k] == -1 && m.addrs[k] == NO_ADDRESS
    ensures Valid(ClearSlot(m, m.count)) && TableOf(ClearSlot(m, m.count)) == TableOf(m)
  {
    assert Rooms(ClearSlot(m, m.count)) == Rooms(m);
  }

  lemma RemoveRefines(m: Memory, name: string)
    requires Valid(m) && name in Names(Rooms(m))
    ensures var i := Find(Rooms(m), name);
            var r := Removed(m, i);
            && TableOf(r) == Step(TableOf(m), Remove(name)).0
            && Valid(ClearSlot(r, r.count)) && TableOf(ClearSlot(r, r.count)) == TableOf(r)
  {
    hide Find, Removed, Delete;
    var i := Find(Rooms(m), name);
    RemovedRooms(m, i);
    ClearLast(Removed(m, i));
  }

  // ---------------------------------------------------------------- refinement: stop, sync, init

  lemma {:induction false} DropEffect(m: Memory, n: nat)
    requires n <= |m.socks| && forall i :: 0 <= i < |m.socks| ==> m.socks[i] >= -1
    ensures var r := DropSockets(m, n);
            && r == m.(socks := r.socks, kernel := r.kernel)
            && r.kernel == CloseAll(m.kernel, Live(m.socks[..n]))
            && (forall i :: 0 <= i < n ==> r.socks[i] == -1)
            && (forall i :: n <= i < |m.socks| ==> r.socks[i] == m.socks[i])
  {
    if n == 0 {
      assert m.socks[..0] == [];
    } else {
      hide Live, CloseAll, Close, DropSocket;
      DropEffect(m, n - 1);
      var before, sock := DropSockets(m, n - 1), m.socks[n - 1];
      assert DropSockets(m, n) == DropSocket(before, n - 1) && before.socks[n - 1] == sock;
      hide DropSockets;
      DropsOne(before, n - 1);
      LiveOneMore(m.socks, n);
      if sock >= 0 {
        CloseAllAppend(m.kernel, Live(m.socks[..n - 1]), sock);
      }
    }
  }

  lemma DropsOne(m: Memory, i: nat)
    requires i < |m.socks| && m.socks[i] >= -1
    ensures var r := DropSocket(m, i);
            && r == m.(socks := r.socks, kernel := r.kernel)
            && r.socks == m.socks[i := -1]
            && r.kernel == if m.socks[i] >= 0 then Close(m.kernel, m.socks[i]) else m.kernel
  {
  }

  lemma LiveOneMore(socks: seq<int>, n: nat)
    requires 0 < n <= |socks|
    ensures socks[n - 1] >= 0 ==> Live(socks[..n]) == Live(socks[..n - 1]) + [socks[n - 1]]
    ensures socks[n - 1] < 0 ==> Live(socks[..n]) == Live(socks[..n - 1])
  {
    assert socks[..n][..n - 1] == socks[..n - 1];
  }

  lemma LiveVacant(socks: seq<int>, count: nat)
    requires count <= |socks| && forall i :: count <= i < |socks| ==> socks[i] == -1
    ensures Live(socks) == Live(socks[..count])
    decreases |socks|
  {
    if count < |socks| {
      LiveVacant(socks[..|socks| - 1], count);
      assert socks[..|socks| - 1][..count] == socks[..count];
    } else {
      assert socks[..count] == socks;
    }
  }

  /** Sweeping all eight entries disconnects exactly the listed rooms. */
  lemma DropRefines(m: Memory)
    requires Valid(m)
    ensures Valid(DropSockets(m, MAX_ROOMS))
    ensures TableOf(DropSockets(m, MAX_ROOMS)) == Disconnect(TableOf(m))
  {
    var r := DropSockets(m, MAX_ROOMS);
    DropEffect(m, MAX_ROOMS);
    LiveVacant(m.socks, m.count);
    assert m.socks[..MAX_ROOMS] == m.socks;
    assert Socks(Rooms(m)) == m.socks[..m.count];
    assert Rooms(r) == Disconnected(Rooms(m));
  }

  lemma SendAllAppend(k: Kernel, ds: seq<Datagram>, d: Datagram)
    ensures SendAll(k, ds + [d]) == SendTo(SendAll(k, ds), d)
  {
    assert (ds + [d])[..|ds|] == ds;
  }

  lemma {:induction false} SendEffect(m: Memory, data: seq<nat>, n: nat)
    requires Shaped(m) && n <= m.count
    ensures SendSlots(m, data, n).kernel == SendAll(m.kernel, Datagrams(Rooms(m)[..n], data))
  {
    hide Text, StrLen;
    if n > 0 {
      hide Datagrams, SendAll, SendTo;
      SendEffect(m, data, n - 1);
      var front := Rooms(m)[..n - 1];
      OneMoreDatagram(Rooms(m), data, n);
      var d := Datagram(m.socks[n - 1], m.addrs[n - 1], data);
      SendAllAppend(m.kernel, Datagrams(front, data), d);
    }
  }

  lemma OneMoreDatagram(rooms: seq<Room>, data: seq<nat>, n: nat)
    requires 0 < n <= |rooms|
    ensures var room, before := rooms[n - 1], Datagrams(rooms[..n - 1], data);
            Datagrams(rooms[..n], data)
              == if room.sock >= 0 then before + [Datagram(room.sock, room.addr, data)] else before
  {
    assert rooms[..n][..n - 1] == rooms[..n - 1];
  }

  lemma SyncRefines(m: Memory, data: seq<nat>)
    requires Valid(m)
    ensures Valid(SendSlots(m, data, m.count))
    ensures TableOf(SendSlots(m, data, m.count)) == Step(TableOf(m), Sync(data)).0
  {
    hide Datagrams, SendAll, SendSlots;
    SendEffect(m, data, m.count);
    assert Rooms(m)[..m.count] == Rooms(m);
    var r := SendSlots(m, data, m.count);
    assert Rooms(r) == Rooms(m);
  }

  lemma {:induction false} ClearEffect(m: Memory, n: nat)
    requires n <= |m.rows| == |m.socks| == |m.addrs|
    ensures var r := ClearSlots(m, n);
            && r == m.(rows := r.rows, socks := r.socks, addrs := r.addrs)
            && (forall i :: 0 <= i < n ==> r.rows[i] == ZeroRow() && r.socks[i] == -1 && r.addrs[i] == NO_ADDRESS)
            && (forall i :: n <= i < |m.rows| ==>
                  r.rows[i] == m.rows[i] && r.socks[i] == m.socks[i] && r.addrs[i] == m.addrs[i])
  {
    if n > 0 {
      ClearEffect(m, n - 1);
    }
  }

  /** The static storage before the first `multiroom_init`: all zero, but for `is_enabled` when
      `multiroom_set_config` came first. */
  function ZeroedStorage(enabled: bool): (m: Memory)
    ensures |m.rows| == |m.socks| == |m.addrs| == MAX_ROOMS
    ensures forall i :: 0 <= i < MAX_ROOMS ==> m.rows[i] == ZeroRow() && m.socks[i] == 0 && m.addrs[i] == NO_ADDRESS
  {
    Memory(seq(MAX_ROOMS, _ => ZeroRow()), seq(MAX_ROOMS, _ => 0), seq(MAX_ROOMS, _ => NO_ADDRESS),
           0, enabled, false, BOOT)
  }

  /** Initialisation makes any contents of the arrays, in particular the zeroed entries of a fresh
      program, a valid empty table. */
  lemma InitRefines(m: Memory)
    requires |m.rows| == |m.socks| == |m.addrs| == MAX_ROOMS
    ensures var r := ClearSlots(SetCount(m, 0), MAX_ROOMS);
            Valid(r) && TableOf(r) == Table([], m.enabled, m.running, m.kernel)
  {
    ClearEffect(SetCount(m, 0), MAX_ROOMS);
  }
}

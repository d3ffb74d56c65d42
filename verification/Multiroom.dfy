/** src/multiroom.c called by one thread at a time: static arrays updated in place by loops.
    What interleaved callers can observe is in Interleaving.dfy.
    The results of system calls are parameters; callbacks and logging are not modelled. */
module Multiroom {
  import opened Descriptors
  import opened CStrings
  import opened Options
  import opened RoomTable
  import opened RoomMemory

  class Multiroom {
    const rooms: array<seq<char>>
    const sockets: array<int>
    const addresses: array<Address>
    var count: int
    var enabled: bool
    var running: bool
    ghost var kernel: Kernel

    /** The static storage of a program that has not called anything yet: all zero, which for
        `room_sockets` means descriptor 0 and not "no socket". */
    constructor ()
      ensures Allocated() && count == 0 && !enabled && !running && kernel == BOOT && Bytes() == ZeroedStorage(false)
      ensures forall i :: 0 <= i < MAX_ROOMS ==> rooms[i] == ZeroRow() && sockets[i] == 0 && addresses[i] == NO_ADDRESS
    {
      rooms := new seq<char>[MAX_ROOMS](_ => ZeroRow());
      sockets := new int[MAX_ROOMS](_ => 0);
      addresses := new Address[MAX_ROOMS](_ => NO_ADDRESS);
      count, enabled, running, kernel := 0, false, false, BOOT;
    }

    ghost predicate Allocated() {
      rooms.Length == sockets.Length == addresses.Length == MAX_ROOMS
    }

    ghost function Bytes(): Memory
      reads this, rooms, sockets, addresses
    {
      Memory(rooms[..], sockets[..], addresses[..], count, enabled, running, kernel)
    }

    ghost predicate Valid()
      reads this, rooms, sockets, addresses
    {
      Allocated() && RoomMemory.Valid(Bytes())
    }

    ghost function State(): Table
      requires Valid()
      reads this, rooms, sockets, addresses
    {
      TableOf(Bytes())
    }

    /** `multiroom_init`. It forgets sockets without closing them. */
    method Init()
      requires Allocated()
      modifies this, rooms, sockets, addresses
      ensures Valid() && State() == Table([], old(enabled), old(running), old(kernel))
    {
      count := 0;
      ghost var start := Bytes();
      InitRefines(start);
      for i := 0 to MAX_ROOMS
        invariant Bytes() == ClearSlots(start, i)
      {
        ClearAt(i);
      }
    }

    /** What initialisation does to every slot, and a remove to the last one. */
    method ClearAt(i: nat)
      requires Allocated() && i < MAX_ROOMS
      modifies rooms, sockets, addresses
      ensures Bytes() == ClearSlot(old(Bytes()), i)
    {
      rooms[i] := ZeroRow();
      sockets[i] := -1;
      addresses[i] := NO_ADDRESS;
    }

    /** The sweep shared by `multiroom_stop` and `multiroom_cleanup`. */
    method CloseSockets()
      requires Valid()
      modifies this`kernel, sockets
      ensures Valid() && State() == Disconnect(old(State()))
    {
      ghost var start := Bytes();
      DropRefines(start);
      for i := 0 to MAX_ROOMS
        invariant Bytes() == DropSockets(start, i)
      {
        if sockets[i] >= 0 {
          kernel := Close(kernel, sockets[i]);
          sockets[i] := -1;
        }
      }
    }

    /** `multiroom_cleanup`. When running it would wait forever for the mutex it holds. */
    method Cleanup()
      requires Valid() && !running
      modifies this`kernel, sockets
      ensures Valid() && State() == Step(old(State()), RoomTable.Cleanup).0
    {
      CloseSockets();
    }

    /** The `enabled` part of `multiroom_set_config`. */
    method Configure(enable: bool)
      requires Valid()
      modifies this`enabled
      ensures Valid() && State() == Step(old(State()), RoomTable.Configure(enable)).0
    {
      enabled := enable;
      assert Rooms(Bytes()) == old(Rooms(Bytes()));
    }

    /** `multiroom_start`, given what `socket` and `bind` return. */
    method Start(sock: int, bound: bool) returns (status: int)
      requires Valid() && Grants(kernel, sock)
      modifies this
      ensures Valid() && (State(), status) == Step(old(State()), RoomTable.Start(sock, bound))
    {
      ghost var listed := Rooms(Bytes());
      status := 0;
      if enabled && !running {
        kernel := Open(kernel, sock);
        if sock < 0 {
          status := -1;
        } else if !bound {
          kernel := Close(kernel, sock);
          status := -1;
        } else {
          running := true;
        }
      }
      assert Rooms(Bytes()) == listed;
    }

    /** `multiroom_stop`. */
    method Stop() returns (status: int)
      requires Valid()
      modifies this, sockets
      ensures Valid() && (State(), status) == Step(old(State()), RoomTable.Stop)
    {
      if !running {
        return 0;
      }
      CloseSockets();
      ghost var listed := Rooms(Bytes());
      running := false;
      assert Rooms(Bytes()) == listed;
      return 0;
    }

    /** `multiroom_add_room`, given what `socket` returns. */
    method AddRoom(name: Option<string>, port: nat, sock: int) returns (status: int)
      requires Valid() && Grants(kernel, sock)
      requires name.Some? ==> NUL !in name.value
      modifies this, rooms, sockets, addresses
      ensures Valid()
      ensures name.None? || name.value == "" ==> State() == old(State()) && status == -1
      ensures name.Some? && name.value != "" ==> (State(), status) == Step(old(State()), Add(name.value, port, sock))
    {
      if name.None? || |name.value| == 0 {
        return -1;
      }
      if count >= MAX_ROOMS {
        return -1;
      }
      ghost var start, listed := Bytes(), Rooms(Bytes());
      for i := 0 to count
        invariant Bytes() == start
        invariant forall k :: 0 <= k < i ==> Text(rooms[k]) != name.value
      {
        if Text(rooms[i]) == name.value {
          assert Names(listed)[i] == name.value;
          return -1;
        }
      }
      AddRefines(start, name.value, port, sock);
      rooms[count] := NameRow(rooms[count], name.value);
      if sock >= 0 {
        kernel := Open(kernel, sock);
        sockets[count] := sock;
        addresses[count] := Address(AF_INET, port);
      }
      count := count + 1;
      assert Bytes() == SetCount(InstallSocket(WriteName(start, name.value), port, sock), start.count + 1);
      return 0;
    }

    /** `multiroom_remove_room`. */
    method RemoveRoom(name: Option<string>) returns (status: int)
      requires Valid()
      modifies this, rooms, sockets, addresses
      ensures Valid()
      ensures name.None? ==> State() == old(State()) && status == -1
      ensures name.Some? ==> (State(), status) == Step(old(State()), Remove(name.value))
    {
      if name.None? {
        return -1;
      }
      var index := FindRoom(name.value);
      if index == -1 {
        return -1;
      }
      RemoveAt(index, name.value);
      return 0;
    }

    /** The search loop of `multiroom_remove_room`. */
    method FindRoom(name: string) returns (index: int)
      requires Valid()
      ensures index == if name in Names(State().rooms) then Find(State().rooms, name) else -1
    {
      ghost var listed := Rooms(Bytes());
      for i := 0 to count
        invariant forall k :: 0 <= k < i ==> listed[k].name != name
      {
        if Text(rooms[i]) == name {
          assert Names(listed)[i] == name;
          return i;
        }
      }
      return -1;
    }

    /** Closing, compaction and clearing of the last slot. */
    method RemoveAt(index: nat, ghost name: string)
      requires Valid() && name in Names(State().rooms) && index == Find(State().rooms, name)
      modifies this, rooms, sockets, addresses
      ensures Valid() && State() == Step(old(State()), Remove(name)).0
    {
      hide Find, ShiftSlots, StrLen, Text, RoomTable.Step, Names, Removed;
      ghost var start := Bytes();
      RemoveRefines(start, name);
      if sockets[index] >= 0 {
        kernel := Close(kernel, sockets[index]);
      }
      ShiftDown(index, CloseEntry(start, index));
      count := count - 1;
      ghost var removed := Removed(start, index);
      RemovedIs(start, index);
      assert Bytes() == removed;
      ClearAt(count);
    }

    /** The compaction loop of `multiroom_remove_room`. */
    method ShiftDown(index: nat, ghost start: Memory)
      requires Allocated() && Bytes() == start && Shaped(start) && index < count
      modifies rooms, sockets, addresses
      ensures Bytes() == ShiftSlots(start, index, count - 1)
    {
      for i := index to count - 1
        invariant Bytes() == ShiftSlots(start, index, i)
      {
        rooms[i] := StrCpy(rooms[i], rooms[i + 1]);
        sockets[i] := sockets[i + 1];
        addresses[i] := addresses[i + 1];
      }
    }

    /** `multiroom_get_room_count`. */
    method GetRoomCount() returns (n: int)
      requires Valid()
      ensures n == |State().rooms|
    {
      n := count;
    }

    /** `multiroom_get_room_list`: one NUL-filled row per room, in order, and nothing else written. */
    method GetRoomList(roomNames: array?<seq<char>>) returns (n: int)
      requires Valid() && roomNames != rooms
      requires roomNames != null ==>
        roomNames.Length == MAX_ROOMS && forall i :: 0 <= i < MAX_ROOMS ==> |roomNames[i]| == MAX_ROOM_NAME_LEN
      modifies roomNames
      ensures Valid() && State() == old(State())
      ensures n == if roomNames == null then -1 else |State().rooms|
      ensures roomNames != null ==> forall i :: 0 <= i < MAX_ROOMS ==>
        roomNames[i] == if i < n then NameRow(ZeroRow(), State().rooms[i].name) else old(roomNames[i])
      ensures roomNames != null ==> forall i, k :: 0 <= i < n && 0 <= k < MAX_ROOM_NAME_LEN ==>
        var name := State().rooms[i].name;
        |name| < |roomNames[i]| == 32 && roomNames[i][k] == if k < |name| then name[k] else NUL
    {
      if roomNames == null {
        return -1;
      }
      ghost var names, copied := Rooms(Bytes()), roomNames[..];
      for i := 0 to count
        invariant Valid() && State() == old(State())
        invariant forall k :: 0 <= k < i ==> roomNames[k] == NameRow(ZeroRow(), names[k].name)
        invariant forall k :: i <= k < MAX_ROOMS ==> roomNames[k] == copied[k]
      {
        NameRowForgets(roomNames[i], ZeroRow(), Text(rooms[i]));
        roomNames[i] := NameRow(roomNames[i], Text(rooms[i]));
      }
      forall i | 0 <= i < count {
        NameRowBytes(ZeroRow(), names[i].name);
      }
      return count;
    }

    /** `multiroom_sync_audio`. */
    method SyncAudio(data: Option<seq<nat>>) returns (status: int)
      requires Valid()
      modifies this`kernel
      ensures Valid()
      ensures data.None? || data.value == [] || !running ==> State() == old(State()) && status == -1
      ensures data.Some? && data.value != [] && running ==>
        (State(), status) == Step(old(State()), Sync(data.value))
    {
      if data.None? || |data.value| == 0 || !running {
        return -1;
      }
      hide SendAll, Datagrams, StrLen, Text, SendSlots;
      SyncRefines(Bytes(), data.value);
      SendToRooms(data.value);
      return 0;
    }

    /** The loop of `multiroom_sync_audio`. */
    method SendToRooms(data: seq<nat>)
      requires Allocated() && 0 <= count <= MAX_ROOMS
      modifies this`kernel
      ensures Bytes() == SendSlots(old(Bytes()), data, count)
    {
      ghost var start := Bytes();
      for i := 0 to count
        invariant Bytes() == SendSlots(start, data, i)
      {
        if sockets[i] >= 0 {
          kernel := SendTo(kernel, Datagram(sockets[i], addresses[i], data));
        }
      }
    }
  }

  lemma RemovedIs(m: Memory, i: nat)
    requires Shaped(m) && i < m.count
    ensures Removed(m, i) == SetCount(ShiftSlots(CloseEntry(m, i), i, m.count - 1), m.count - 1)
  {
  }

  /** Writing a name leaves nothing of the row's old bytes. */
  lemma NameRowForgets(row: seq<char>, other: seq<char>, name: string)
    requires |row| == |other| == MAX_ROOM_NAME_LEN
    ensures NameRow(row, name) == NameRow(other, name)
  {
  }
}

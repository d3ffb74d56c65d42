/** The functions of src/multiroom.c cut into steps: every write under the mutex is a step of its
    own. A section is complete at the step that makes its effect visible to the two reads the
    source makes without the mutex, of `is_running` (line 314) and of `room_count` (line 310). */
module Interleaving {
  import opened Descriptors
  import opened CStrings
  import opened Options
  import opened RoomTable
  import opened RoomMemory
  import opened RoomRuns

  datatype Call =
    | InitCall
    | ConfigureCall(enable: bool)
    | AddCall(name: string, port: nat)
    | RemoveCall(name: string)
    | StartCall
    | StopCall
    | CleanupCall
    | SyncCall(data: seq<nat>)
    | ListCall

  /** How far a function has come since it acquired the mutex. */
  datatype Phase =
    | Entered
    | Named                                   // add: name written
    | Socketed(sock: int)                     // add: socket entry settled
    | Shifting(index: nat, next: nat)         // remove: socket closed, rows below `next` moved
    | Uncleared(commit: nat)                  // remove: count decremented
    | Clearing(next: nat, commit: nat)        // init: count zeroed, slots below `next` cleared
    | Opened(sock: int)                       // start: socket open
    | Dropping(next: nat)                     // stop, cleanup: entries below `next` swept
    | Sending(next: nat)                      // sync: entries below `next` served
    | Copying(names: seq<string>)             // list: names copied so far
    | Leaving(status: int, names: seq<string>, commit: nat)
    | Relocking                               // cleanup: its nested stop locks the mutex again

  /** What is left open: which call an idle thread makes, and the results of system calls. */
  datatype Choice = Choice(call: Call, sock: int, bound: bool)

  // ---------------------------------------------------------------- steps under the mutex

  /** What one step does: the new memory, the new phase, and the section it completes, if any. */
  datatype Effect = Effect(memory: Memory, phase: Phase, commit: Option<(Section, int)>)

  function Done(m: Memory, s: Section, status: int, at: nat): Effect {
    Effect(m, Leaving(status, [], at), Some((s, status)))
  }

  /** What the memory must be, given the memory at acquisition, at each phase before the commit. */
  ghost predicate Midway(entry: Memory, call: Call, phase: Phase, m: Memory) {
    && Valid(entry) && WellFormed(call)
    && match phase
       case Entered => m == entry
       case Named => Adding(entry, call) && m == WriteName(entry, call.name) && Shaped(m)
       case Socketed(sock) =>
         Adding(entry, call) && Grants(entry.kernel, sock)
         && Shaped(WriteName(entry, call.name)) && m == InstallSocket(WriteName(entry, call.name), call.port, sock)
       case Shifting(index, next) =>
         Removing(entry, call) && index == Find(Rooms(entry), call.name) && index <= next < entry.count
         && m == ShiftSlots(CloseEntry(entry, index), index, next)
       case Uncleared(_) => Removing(entry, call) && m == Removed(entry, Find(Rooms(entry), call.name))
       case Clearing(next, _) => call.InitCall? && next <= MAX_ROOMS && m == ClearSlots(SetCount(entry, 0), next)
       case Opened(sock) =>
         call.StartCall? && entry.enabled && !entry.running && sock >= 0 && Grants(entry.kernel, sock)
         && m == entry.(kernel := Open(entry.kernel, sock))
       case Dropping(next) =>
         ((call.StopCall? && entry.running) || (call.CleanupCall? && !entry.running)) && next <= MAX_ROOMS
         && m == DropSockets(entry, next)
       case Sending(next) => call.SyncCall? && next <= entry.count && m == SendSlots(entry, call.data, next)
       case Copying(names) =>
         call.ListCall? && m == entry && |names| <= entry.count && names == Names(Rooms(entry))[..|names|]
       case Leaving(_, _, _) => Valid(m)
       case Relocking => call.CleanupCall? && entry.running && m == entry
  }

  ghost predicate Adding(entry: Memory, call: Call)
    requires Valid(entry)
  {
    call.AddCall? && entry.count < MAX_ROOMS && call.name !in Names(Rooms(entry))
  }

  ghost predicate Removing(entry: Memory, call: Call)
    requires Valid(entry)
  {
    call.RemoveCall? && call.name in Names(Rooms(entry))
  }

  /** The argument checks made before taking the mutex. */
  predicate WellFormed(call: Call) {
    match call
    case AddCall(name, _) => name != "" && NUL !in name
    case SyncCall(data) => data != []
    case _ => true
  }

  /** The section is complete, with slots past the count still to be cleared. */
  predicate Tidying(phase: Phase) {
    phase.Uncleared? || phase.Clearing?
  }

  predicate Committed(phase: Phase) {
    phase.Leaving? || Tidying(phase)
  }

  /** The first step after acquiring the mutex. */
  ghost function Enter(m: Memory, call: Call, c: Choice, at: nat): Effect
    requires Shaped(m)
  {
    match call
    case InitCall => Effect(SetCount(m, 0), Clearing(0, at), Some((Init, 0)))
    case ConfigureCall(enable) => Done(m.(enabled := enable), Configure(enable), 0, at)
    case AddCall(name, port) =>
      if m.count >= MAX_ROOMS || name in Names(Rooms(m)) then Done(m, Add(name, port, -1), -1, at)
      else Effect(WriteName(m, name), Named, None)
    case RemoveCall(name) =>
      if name !in Names(Rooms(m)) then Done(m, Remove(name), -1, at)
      else
        var index := Find(Rooms(m), name);
        Effect(CloseEntry(m, index), Shifting(index, index), None)
    case StartCall =>
      if !m.enabled || m.running then Done(m, Start(-1, false), 0, at)
      else if c.sock < 0 then Done(m, Start(-1, false), -1, at)
      else Effect(m.(kernel := Open(m.kernel, c.sock)), Opened(c.sock), None)
    case StopCall =>
      if m.running then Effect(m, Dropping(0), None) else Done(m, Stop, 0, at)
    case CleanupCall =>
      if m.running then Effect(m, Relocking, None) else Effect(m, Dropping(0), None)
    case SyncCall(data) => Effect(m, Sending(0), None)
    case ListCall => Effect(m, Copying([]), None)
  }

  /** The phases whose next step is neither to lock nor to unlock the mutex. */
  predicate Working(phase: Phase) {
    !phase.Leaving? && !phase.Relocking?
  }

  /** What a step needs to be defined: the phase belongs to the call and indices are in bounds. */
  ghost predicate Able(m: Memory, call: Call, phase: Phase) {
    && Shaped(m)
    && match phase
       case Named => call.AddCall? && m.count < MAX_ROOMS
       case Socketed(_) => call.AddCall?
       case Shifting(_, _) => call.RemoveCall?
       case Uncleared(_) => m.count < MAX_ROOMS
       case Sending(_) => call.SyncCall?
       case _ => true
  }

  /** One step of the thread that holds the mutex; `at` is the length of the history. */
  ghost function Micro(m: Memory, call: Call, phase: Phase, c: Choice, at: nat): Effect
    requires Able(m, call, phase) && Working(phase)
  {
    match phase
    case Entered => Enter(m, call, c, at)
    case Named => Effect(InstallSocket(m, call.port, c.sock), Socketed(c.sock), None)
    case Socketed(sock) => Done(SetCount(m, m.count + 1), Add(call.name, call.port, sock), 0, at)
    case Shifting(index, next) =>
      if next < m.count - 1 then Effect(ShiftSlot(m, next), Shifting(index, next + 1), None)
      else Effect(SetCount(m, m.count - 1), Uncleared(at), Some((Remove(call.name), 0)))
    case Uncleared(commit) => Effect(ClearSlot(m, m.count), Leaving(0, [], commit), None)
    case Clearing(next, commit) =>
      if next < MAX_ROOMS then Effect(ClearSlot(m, next), Clearing(next + 1, commit), None)
      else Effect(m, Leaving(0, [], commit), None)
    case Opened(sock) =>
      if c.bound then Done(m.(running := true), Start(sock, true), 0, at)
      else Done(m.(kernel := Close(m.kernel, sock)), Start(sock, false), -1, at)
    case Dropping(next) =>
      if next < MAX_ROOMS then Effect(DropSocket(m, next), Dropping(next + 1), None)
      else if call.StopCall? then Done(m.(running := false), Stop, 0, at)
      else Done(m, Cleanup, 0, at)
    case Sending(next) =>
      if next < m.count then Effect(SendSlot(m, call.data, next), Sending(next + 1), None)
      else Done(m, Sync(call.data), 0, at)
    case Copying(names) =>
      if |names| < m.count then Effect(m, Copying(names + [Text(m.rows[|names|])]), None)
      else Effect(m, Leaving(m.count, names, at), Some((List, m.count)))
  }

  // ---------------------------------------------------------------- each step keeps its place

  predicate Performs(call: Call, s: Section) {
    match call
    case InitCall => s == Init
    case ConfigureCall(enable) => s == Configure(enable)
    case AddCall(name, port) => s.Add? && s.name == name && s.port == port
    case RemoveCall(name) => s == Remove(name)
    case StartCall => s.Start?
    case StopCall => s == Stop
    case CleanupCall => s == Cleanup
    case SyncCall(data) => s == Sync(data)
    case ListCall => s == List
  }

  /** The memory at acquisition and the completed section determine the memory that is visible. */
  ghost predicate Completes(entry: Memory, call: Call, e: Effect, at: nat) {
    && e.commit.Some? && Committed(e.phase) && Performs(call, e.commit.value.0)
    && Valid(entry) && Possible(TableOf(entry), e.commit.value.0)
    && Shaped(e.memory) && (TableOf(e.memory), e.commit.value.1) == Step(TableOf(entry), e.commit.value.0)
    && (e.phase.Leaving? ==> e.phase.commit == at && e.phase.status == e.commit.value.1)
    && (e.phase.Leaving? && call.ListCall? ==> e.phase.names == Names(Rooms(entry)))
    && (Tidying(e.phase) ==> e.phase.commit == at && e.commit.value.1 == 0 && !call.ListCall?)
  }

  /** A step either goes on, with count and running flag unchanged, or completes the section. */
  ghost predicate Proceeds(entry: Memory, m: Memory, call: Call, phase: Phase, e: Effect, at: nat) {
    && Midway(entry, call, e.phase, e.memory)
    && if e.commit.Some? then !Committed(phase) && Completes(entry, call, e, at)
       else Committed(e.phase) == Committed(phase)
            && e.memory.count == m.count && e.memory.running == m.running
            && (Committed(phase) ==> Shaped(m) && Shaped(e.memory) && TableOf(e.memory) == TableOf(m))
            && (Tidying(phase) ==>
                  e.phase == Leaving(0, [], phase.commit) || (Tidying(e.phase) && e.phase.commit == phase.commit))
  }

  /** The kernel's part: a socket it hands out is not one the module holds open. */
  predicate Granted(m: Memory, call: Call, phase: Phase, c: Choice) {
    phase.Named? || (phase.Entered? && call.StartCall?) ==> Grants(m.kernel, c.sock)
  }

  lemma MidwayAble(entry: Memory, call: Call, phase: Phase, m: Memory)
    requires Midway(entry, call, phase, m)
    ensures Able(m, call, phase)
  {
    hide Text, StrLen, Find;
    if phase.Dropping? {
      DropEffect(entry, phase.next);
    } else if phase.Clearing? {
      ClearedShape(entry, phase.next);
    }
  }

  /** Initialisation empties the table when it zeroes the count; clearing slots keeps it so. */
  lemma ClearedShape(entry: Memory, n: nat)
    requires Valid(entry) && n <= MAX_ROOMS
    ensures var r := ClearSlots(SetCount(entry, 0), n);
            Shaped(r) && TableOf(r) == Step(TableOf(entry), Init).0
  {
    hide Text, StrLen, ClearSlots;
    ClearEffect(SetCount(entry, 0), n);
    var r := ClearSlots(SetCount(entry, 0), n);
    assert Rooms(r) == [];
  }

  lemma InitProceeds(entry: Memory, m: Memory, call: Call, phase: Phase, c: Choice, at: nat)
    requires Midway(entry, call, phase, m) && Able(m, call, phase) && call.InitCall?
    requires phase.Entered? || phase.Clearing?
    ensures Proceeds(entry, m, call, phase, Micro(m, call, phase, c, at), at)
  {
    hide Text, StrLen, Rooms, Names;
    if phase.Entered? {
      ClearedShape(entry, 0);
    } else if phase.next < MAX_ROOMS {
      ClearedShape(entry, phase.next);
      ClearedShape(entry, phase.next + 1);
    } else {
      ClearedShape(entry, phase.next);
      InitRefines(entry);
    }
  }

  lemma ConfigureProceeds(entry: Memory, call: Call, c: Choice, at: nat)
    requires Midway(entry, call, Entered, entry) && Able(entry, call, Entered) && call.ConfigureCall?
    ensures Proceeds(entry, entry, call, Entered, Micro(entry, call, Entered, c, at), at)
  {
    assert Rooms(entry.(enabled := call.enable)) == Rooms(entry);
  }

  lemma AddEnters(entry: Memory, call: Call, c: Choice, at: nat)
    requires Midway(entry, call, Entered, entry) && Able(entry, call, Entered) && call.AddCall?
    ensures Proceeds(entry, entry, call, Entered, Micro(entry, call, Entered, c, at), at)
  {
    hide Text, StrLen, NameRow;
    if entry.count < MAX_ROOMS && call.name !in Names(Rooms(entry)) {
      AddRefines(entry, call.name, call.port, -1);
    }
  }

  lemma AddProceeds(entry: Memory, m: Memory, call: Call, phase: Phase, c: Choice, at: nat)
    requires Midway(entry, call, phase, m) && Able(m, call, phase) && Granted(m, call, phase, c) && call.AddCall?
    requires phase.Named? || phase.Socketed?
    ensures Proceeds(entry, m, call, phase, Micro(m, call, phase, c, at), at)
  {
    hide Text, StrLen, NameRow, Names;
    AddRefines(entry, call.name, call.port, if phase.Named? then c.sock else phase.sock);
  }

  lemma RemoveEnters(entry: Memory, call: Call, c: Choice, at: nat)
    requires Midway(entry, call, Entered, entry) && Able(entry, call, Entered) && call.RemoveCall?
    ensures Proceeds(entry, entry, call, Entered, Micro(entry, call, Entered, c, at), at)
  {
    hide Text, StrLen, Find;
    if call.name in Names(Rooms(entry)) {
      var index := Find(Rooms(entry), call.name);
      assert ShiftSlots(CloseEntry(entry, index), index, index) == CloseEntry(entry, index);
    }
  }

  lemma RemoveShifts(entry: Memory, m: Memory, call: Call, phase: Phase, c: Choice, at: nat)
    requires Midway(entry, call, phase, m) && Able(m, call, phase)
    requires call.RemoveCall? && phase.Shifting? && phase.next < m.count - 1
    ensures Proceeds(entry, m, call, phase, Micro(m, call, phase, c, at), at)
  {
    hide Find, Text, StrLen, StrCpy, Delete, ShiftSlots, ShiftSlot;
    ShiftOneMore(CloseEntry(entry, phase.index), phase.index, phase.next);
  }

  lemma ShiftOneMore(m: Memory, lo: nat, hi: nat)
    requires Shaped(m) && lo <= hi && hi + 1 < MAX_ROOMS
    ensures ShiftSlots(m, lo, hi + 1) == ShiftSlot(ShiftSlots(m, lo, hi), hi)
    ensures ShiftSlots(m, lo, hi + 1).running == ShiftSlots(m, lo, hi).running
  {
  }

  lemma RemoveCounts(entry: Memory, m: Memory, call: Call, phase: Phase, c: Choice, at: nat)
    requires Midway(entry, call, phase, m) && Able(m, call, phase)
    requires call.RemoveCall? && phase.Shifting? && phase.next >= m.count - 1
    ensures Proceeds(entry, m, call, phase, Micro(m, call, phase, c, at), at)
  {
    hide Find, Text, StrLen, StrCpy, Delete, ShiftSlots;
    RemoveRefines(entry, call.name);
  }

  lemma RemoveClears(entry: Memory, m: Memory, call: Call, phase: Phase, c: Choice, at: nat)
    requires Midway(entry, call, phase, m) && Able(m, call, phase) && call.RemoveCall? && phase.Uncleared?
    ensures Proceeds(entry, m, call, phase, Micro(m, call, phase, c, at), at)
  {
    hide Find, Removed;
    RemoveRefines(entry, call.name);
  }

  lemma StartProceeds(entry: Memory, m: Memory, call: Call, phase: Phase, c: Choice, at: nat)
    requires Midway(entry, call, phase, m) && Able(m, call, phase) && Granted(m, call, phase, c) && call.StartCall?
    requires phase.Entered? || phase.Opened?
    ensures Proceeds(entry, m, call, phase, Micro(m, call, phase, c, at), at)
  {
    var e := Micro(m, call, phase, c, at);
    assert Rooms(e.memory) == Rooms(entry);
  }

  lemma DropEnters(entry: Memory, call: Call, c: Choice, at: nat)
    requires Midway(entry, call, Entered, entry) && Able(entry, call, Entered) && (call.StopCall? || call.CleanupCall?)
    ensures Proceeds(entry, entry, call, Entered, Micro(entry, call, Entered, c, at), at)
  {
    hide Text, StrLen;
    assert DropSockets(entry, 0) == entry;
  }

  lemma DropSweeps(entry: Memory, m: Memory, call: Call, phase: Phase, c: Choice, at: nat)
    requires Midway(entry, call, phase, m) && Able(m, call, phase) && phase.Dropping? && phase.next < MAX_ROOMS
    ensures Proceeds(entry, m, call, phase, Micro(m, call, phase, c, at), at)
  {
    hide Text, StrLen;
    DropEffect(entry, phase.next);
    DropEffect(entry, phase.next + 1);
  }

  lemma DropEnds(entry: Memory, m: Memory, call: Call, phase: Phase, c: Choice, at: nat)
    requires Midway(entry, call, phase, m) && Able(m, call, phase) && phase.Dropping? && phase.next == MAX_ROOMS
    ensures Proceeds(entry, m, call, phase, Micro(m, call, phase, c, at), at)
  {
    hide Text, StrLen, DropSockets;
    var e := Micro(m, call, phase, c, at);
    DropEffect(entry, phase.next);
    DropRefines(entry);
    assert Rooms(e.memory) == Rooms(m);
  }

  lemma DropProceeds(entry: Memory, m: Memory, call: Call, phase: Phase, c: Choice, at: nat)
    requires Midway(entry, call, phase, m) && Able(m, call, phase) && (call.StopCall? || call.CleanupCall?)
    requires phase.Entered? || phase.Dropping?
    ensures Proceeds(entry, m, call, phase, Micro(m, call, phase, c, at), at)
  {
    if phase.Entered? {
      DropEnters(entry, call, c, at);
    } else if phase.next < MAX_ROOMS {
      DropSweeps(entry, m, call, phase, c, at);
    } else {
      DropEnds(entry, m, call, phase, c, at);
    }
  }

  lemma SyncProceeds(entry: Memory, m: Memory, call: Call, phase: Phase, c: Choice, at: nat)
    requires Midway(entry, call, phase, m) && Able(m, call, phase) && call.SyncCall?
    requires phase.Entered? || phase.Sending?
    ensures Proceeds(entry, m, call, phase, Micro(m, call, phase, c, at), at)
  {
    if phase.Sending? && phase.next == m.count {
      SyncRefines(entry, call.data);
    }
  }

  lemma ListProceeds(entry: Memory, m: Memory, call: Call, phase: Phase, c: Choice, at: nat)
    requires Midway(entry, call, phase, m) && Able(m, call, phase) && call.ListCall?
    requires phase.Entered? || phase.Copying?
    ensures Proceeds(entry, m, call, phase, Micro(m, call, phase, c, at), at)
  {
    var all := Names(Rooms(entry));
    if phase.Copying? {
      if |phase.names| < m.count {
        assert all[..|phase.names| + 1] == all[..|phase.names|] + [all[|phase.names|]];
      } else {
        assert all[..|phase.names|] == all;
      }
    }
  }

  lemma MicroProceeds(entry: Memory, m: Memory, call: Call, phase: Phase, c: Choice, at: nat)
    requires Midway(entry, call, phase, m) && Granted(m, call, phase, c)
    requires Working(phase)
    ensures Able(m, call, phase)
    ensures Proceeds(entry, m, call, phase, Micro(m, call, phase, c, at), at)
  {
    MidwayAble(entry, call, phase, m);
    match call
    case InitCall => InitProceeds(entry, m, call, phase, c, at);
    case ConfigureCall(_) => ConfigureProceeds(entry, call, c, at);
    case AddCall(_, _) =>
      if phase.Entered? {
        AddEnters(entry, call, c, at);
      } else {
        AddProceeds(entry, m, call, phase, c, at);
      }
    case RemoveCall(_) =>
      if phase.Entered? {
        RemoveEnters(entry, call, c, at);
      } else if phase.Shifting? && phase.next < m.count - 1 {
        RemoveShifts(entry, m, call, phase, c, at);
      } else if phase.Shifting? {
        RemoveCounts(entry, m, call, phase, c, at);
      } else {
        RemoveClears(entry, m, call, phase, c, at);
      }
    case StartCall => StartProceeds(entry, m, call, phase, c, at);
    case StopCall => DropProceeds(entry, m, call, phase, c, at);
    case CleanupCall => DropProceeds(entry, m, call, phase, c, at);
    case SyncCall(_) => SyncProceeds(entry, m, call, phase, c, at);
    case ListCall => ListProceeds(entry, m, call, phase, c, at);
  }
}

/** The connection table of src/airplay_server.c: a listener, four client slots, and what
    start, process and stop do to them and to the kernel's descriptors. The results of system
    calls are parameters. Stale `fd` fields of freed slots are kept, as in the source; the loops
    that scan them are in AirplayServer.dfy. */
module ClientTable {
  import opened Descriptors

  const MAX_CLIENTS: nat := 4

  /** A client slot; `fd` and `peer` keep their last values after a disconnect. */
  datatype Slot = Slot(fd: int, connected: bool, peer: Address)

  datatype Server = Server(listener: int, slots: seq<Slot>, running: bool, kernel: Kernel)

  /** After `calloc`: every descriptor field is 0, which is not "none". */
  const CREATED := Server(0, [UNUSED, UNUSED, UNUSED, UNUSED], false, BOOT)

  const UNUSED := Slot(0, false, NO_ADDRESS)

  /** What the system calls of one `airplay_server_process` return. `received` and `answers`
      are indexed by slot: the result of `recv`, and whether the request is of a kind answered. */
  datatype Events = Events(
    selected: int,
    interrupted: bool,
    ready: set<int>,
    accepted: int,
    peer: Address,
    received: seq<int>,
    answers: seq<bool>)

  // ---------------------------------------------------------------- views

  /** Descriptors of connected slots, in slot order. */
  function Connected(slots: seq<Slot>): seq<int> {
    if slots == [] then []
    else
      var front, last := slots[..|slots| - 1], slots[|slots| - 1];
      if last.connected then Connected(front) + [last.fd] else Connected(front)
  }

  /** The listener, which is open while the server runs. */
  function Listening(s: Server): set<int> {
    if s.running then {s.listener} else {}
  }

  /** The set handed to `select`. */
  function Asked(s: Server): set<int> {
    {s.listener} + Elements(Connected(s.slots))
  }

  /** The first slot without a client, or the number of slots. */
  function FreeSlot(slots: seq<Slot>): (i: nat)
    ensures i <= |slots|
    ensures i < |slots| ==> !slots[i].connected
    ensures forall j :: 0 <= j < i ==> slots[j].connected
  {
    if slots == [] || !slots[0].connected then 0 else 1 + FreeSlot(slots[1..])
  }

  /** What `select` and `accept` guarantee. */
  predicate Plausible(s: Server, e: Events) {
    && |e.received| == MAX_CLIENTS && |e.answers| == MAX_CLIENTS
    && e.ready <= Asked(s)
    && Grants(s.kernel, e.accepted)
  }

  // ---------------------------------------------------------------- operations

  function Start(s: Server, sock: int, bound: bool, listening: bool, mdns: bool): (Server, int) {
    if sock < 0 then (s.(listener := sock), -1)
    else if !bound || !listening || !mdns then
      (s.(listener := sock, kernel := Close(Open(s.kernel, sock), sock)), -1)
    else (s.(listener := sock, running := true, kernel := Open(s.kernel, sock)), 0)
  }

  function Disconnect(slot: Slot): Slot {
    slot.(connected := false)
  }

  function Disconnected(slots: seq<Slot>): (r: seq<Slot>)
    ensures |r| == |slots| && forall i :: 0 <= i < |slots| ==> r[i] == Disconnect(slots[i])
  {
    seq(|slots|, i requires 0 <= i < |slots| => Disconnect(slots[i]))
  }

  function Stop(s: Server): Server {
    var k := CloseAll(s.kernel, Connected(s.slots));
    var listener := if s.listener >= 0 then -1 else s.listener;
    Server(listener, Disconnected(s.slots), false, if s.listener >= 0 then Close(k, s.listener) else k)
  }

  /** A new client takes the first free slot, or is turned away. */
  function Admit(s: Server, fd: int, peer: Address): Server {
    var i := FreeSlot(s.slots);
    var k := Open(s.kernel, fd);
    if i < |s.slots| then s.(slots := s.slots[i := Slot(fd, true, peer)], kernel := k)
    else s.(kernel := Close(k, fd))
  }

  predicate Due(slot: Slot, ready: set<int>) {
    slot.connected && slot.fd in ready
  }

  function ServeSlot(slot: Slot, ready: set<int>, received: int): Slot {
    if Due(slot, ready) && received <= 0 then Disconnect(slot) else slot
  }

  /** Receiving from a due client, then answering it or hanging up. */
  function ServeKernel(k: Kernel, slot: Slot, ready: set<int>, received: int, answer: bool): Kernel {
    if !Due(slot, ready) then k
    else if received <= 0 then Close(Receive(k, slot.fd), slot.fd)
    else if answer then SendTo(Receive(k, slot.fd), Datagram(slot.fd, NO_ADDRESS, []))
    else Receive(k, slot.fd)
  }

  /** The first `n` slots served. */
  function Serve(s: Server, e: Events, n: nat): (r: Server)
    requires n <= |s.slots| <= |e.received| && |s.slots| <= |e.answers|
    ensures |r.slots| == |s.slots| && forall i :: n <= i < |s.slots| ==> r.slots[i] == s.slots[i]
  {
    if n == 0 then s
    else
      var r := Serve(s, e, n - 1);
      var slot := r.slots[n - 1];
      r.(slots := r.slots[n - 1 := ServeSlot(slot, e.ready, e.received[n - 1])],
         kernel := ServeKernel(r.kernel, slot, e.ready, e.received[n - 1], e.answers[n - 1]))
  }

  function Process(s: Server, e: Events): (Server, int)
    requires |s.slots| == |e.received| == |e.answers|
  {
    if !s.running then (s, -1)
    else if e.selected < 0 then (s, if e.interrupted then 0 else -1)
    else if e.selected == 0 then (s, 0)
    else
      var admitted := if s.listener in e.ready && e.accepted >= 0 then Admit(s, e.accepted, e.peer) else s;
      (Serve(admitted, e, |s.slots|), 0)
  }
}

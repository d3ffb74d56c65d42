/** src/airplay_server.c: the slot array scanned and updated in place. The results of system calls
    are parameters; response texts, mDNS, logging and the server's configuration are not modelled. */
module AirplayServer {
  import opened Descriptors
  import opened ClientTable
  import opened ClientRuns

  class AirplayServer {
    var socketFd: int
    const clients: array<Slot>
    var running: bool
    ghost var kernel: Kernel

    /** `airplay_server_create`: all zero after `calloc`. */
    constructor ()
      ensures Sized() && State() == CREATED && fresh(clients)
    {
      socketFd, running, kernel := 0, false, BOOT;
      clients := new Slot[MAX_CLIENTS](_ => UNUSED);
    }

    predicate Sized() {
      clients.Length == MAX_CLIENTS
    }

    ghost function State(): (s: Server)
      requires Sized()
      reads this, clients
      ensures |s.slots| == MAX_CLIENTS
    {
      Server(socketFd, clients[..], running, kernel)
    }

    /** `airplay_server_start`, given what `socket`, `bind`, `listen` and the mDNS client return. */
    method Start(sock: int, bound: bool, listening: bool, mdns: bool) returns (status: int)
      requires Sized()
      modifies this
      ensures (State(), status) == ClientTable.Start(old(State()), sock, bound, listening, mdns)
    {
      socketFd := sock;
      if socketFd < 0 {
        return -1;
      }
      kernel := Open(kernel, socketFd);
      if !bound {
        kernel := Close(kernel, socketFd);
        return -1;
      }
      if !listening {
        kernel := Close(kernel, socketFd);
        return -1;
      }
      if !mdns {
        kernel := Close(kernel, socketFd);
        return -1;
      }
      running := true;
      return 0;
    }

    /** `airplay_server_stop`; `airplay_server_destroy` does the same before freeing. */
    method Stop() returns (status: int)
      requires Sized()
      modifies this, clients
      ensures State() == ClientTable.Stop(old(State())) && status == 0
    {
      running := false;
      CloseClients();
      if socketFd >= 0 {
        kernel := Close(kernel, socketFd);
        socketFd := -1;
      }
      return 0;
    }

    /** The first loop of `airplay_server_stop`. */
    method CloseClients()
      requires Sized()
      modifies this`kernel, clients
      ensures clients[..] == Disconnected(old(clients[..]))
      ensures kernel == CloseAll(old(kernel), Connected(old(clients[..])))
    {
      ghost var start, k := clients[..], kernel;
      assert Connected(start[..0]) == [] && CloseAll(k, []) == k;
      SweptEnds(start);
      hide Connected, CloseAll, Close, Swept, Disconnected;
      for i := 0 to MAX_CLIENTS
        invariant clients[..] == Swept(start, i)
        invariant kernel == CloseAll(k, Connected(start[..i]))
      {
        ConnectedOneMore(start, i);
        SweptOneMore(start, i);
        CloseAllAppend(k, Connected(start[..i]), start[i].fd);
        CloseClient(i);
      }
      assert start[..MAX_CLIENTS] == start;
    }

    /** A turn of that loop. */
    method CloseClient(i: nat)
      requires Sized() && i < MAX_CLIENTS
      modifies this`kernel, clients
      ensures clients[..] == old(clients[..])[i := Disconnect(old(clients[i]))]
      ensures kernel == if old(clients[i]).connected then Close(old(kernel), old(clients[i]).fd) else old(kernel)
    {
      if clients[i].connected {
        kernel := Close(kernel, clients[i].fd);
        clients[i] := clients[i].(connected := false);
      }
    }

    /** `airplay_server_process`. */
    method Process(e: Events) returns (status: int)
      requires Sized() && |e.received| == |e.answers| == MAX_CLIENTS
      requires running ==> Sound(State()) && Plausible(State(), e)
      modifies this`kernel, clients
      ensures (State(), status) == ClientTable.Process(old(State()), e)
    {
      if !running {
        return -1;
      }
      var asked := {socketFd};
      for i := 0 to MAX_CLIENTS
        invariant asked == {socketFd} + Elements(Connected(clients[..i]))
      {
        assert clients[..i + 1][..i] == clients[..i];
        if clients[i].connected {
          asked := asked + {clients[i].fd};
        }
      }
      assert clients[..MAX_CLIENTS] == clients[..];
      assert asked == Asked(State()) && e.ready <= asked;

      if e.selected < 0 {
        return if e.interrupted then 0 else -1;
      }
      if e.selected == 0 {
        return 0;
      }
      if socketFd in e.ready && e.accepted >= 0 {
        AcceptClient(e.accepted, e.peer);
      }
      ServeClients(e);
      return 0;
    }

    /** What follows a successful `accept`: the search for a free slot, then the search for the
        descriptor that decides whether to turn the client away. */
    method AcceptClient(clientFd: int, peer: Address)
      requires Sized() && Sound(State()) && clientFd >= 0 && clientFd !in kernel.open
      modifies this`kernel, clients
      ensures State() == Admit(old(State()), clientFd, peer)
    {
      ghost var start := State();
      RescanIsExact(start, clientFd, peer);
      kernel := Open(kernel, clientFd);
      var i := 0;
      while i < MAX_CLIENTS
        invariant i <= MAX_CLIENTS && clients[..] == start.slots
        invariant forall k :: 0 <= k < i ==> clients[k].connected
      {
        if !clients[i].connected {
          clients[i] := clients[i].(fd := clientFd, peer := peer, connected := true);
          break;
        }
        i := i + 1;
      }
      assert i == FreeSlot(start.slots);
      ghost var after := clients[..];

      var foundSlot := false;
      for k := 0 to MAX_CLIENTS
        invariant clients[..] == after
        invariant !foundSlot && forall m :: 0 <= m < k ==> after[m].fd != clientFd
      {
        if clients[k].fd == clientFd {
          foundSlot := true;
          break;
        }
      }
      if !foundSlot {
        kernel := Close(kernel, clientFd);
      }
    }

    /** The loop over ready clients. */
    method ServeClients(e: Events)
      requires Sized() && |e.received| == |e.answers| == MAX_CLIENTS
      modifies this`kernel, clients
      ensures State() == Serve(old(State()), e, MAX_CLIENTS)
    {
      ghost var start := State();
      for i := 0 to MAX_CLIENTS
        invariant State() == Serve(start, e, i)
      {
        if clients[i].connected && clients[i].fd in e.ready {
          var handled := HandleClientRequest(clients[i].fd, e.received[i], e.answers[i]);
          if handled < 0 {
            kernel := Close(kernel, clients[i].fd);
            clients[i] := clients[i].(connected := false);
          }
        }
        assert clients[..] == Serve(start, e, i + 1).slots;
      }
    }

    /** `handle_client_request`: one receive; an answer, or nothing, or -1 on end or error. */
    method HandleClientRequest(clientFd: int, received: int, answer: bool) returns (status: int)
      modifies this`kernel
      ensures status == if received <= 0 then -1 else 0
      ensures kernel == if received > 0 && answer
        then SendTo(Receive(old(kernel), clientFd), Datagram(clientFd, NO_ADDRESS, []))
        else Receive(old(kernel), clientFd)
    {
      kernel := Receive(kernel, clientFd);
      if received <= 0 {
        return -1;
      }
      if answer {
        kernel := SendTo(kernel, Datagram(clientFd, NO_ADDRESS, []));
      }
      return 0;
    }

    /** `airplay_server_is_connected`. */
    method IsConnected() returns (connected: bool)
      requires Sized()
      ensures connected <==> Connected(State().slots) != []
    {
      ConnectedMembers(clients[..]);
      for i := 0 to MAX_CLIENTS
        invariant forall k :: 0 <= k < i ==> !clients[k].connected
      {
        if clients[i].connected {
          return true;
        }
      }
      ConnectedNone(clients[..]);
      return false;
    }
  }
}

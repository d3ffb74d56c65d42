/** The descriptors one module obtains from the operating system. `open` holds those it was given
    and has not closed; the rest of the process may open and close its own meanwhile. A close, a
    send or a receive on a descriptor the module does not hold open is a fault. */
module Descriptors {

  const AF_INET: nat := 2

  /** A `struct sockaddr_in` whose address part is never set; all zero after `memset`. The port is
      kept in host order: `htons` is a fixed one-to-one map. */
  datatype Address = Address(family: nat, port: nat)

  const NO_ADDRESS := Address(0, 0)

  datatype Datagram = Datagram(fd: int, destination: Address, data: seq<nat>)

  datatype Kernel = Kernel(
    open: set<int>,
    granted: seq<int>,       // every descriptor handed out, in order
    closes: seq<int>,       // every close() argument, in order
    sends: seq<Datagram>,   // every sendto(), in order
    receives: seq<int>,     // every recv() argument, in order
    faults: nat)

  const BOOT := Kernel({}, [], [], [], [], 0)

  /** What `socket` or `accept` can return: an error, or a descriptor that is not open. */
  predicate Grants(k: Kernel, fd: int) {
    fd == -1 || (fd >= 0 && fd !in k.open)
  }

  function Open(k: Kernel, fd: int): Kernel {
    if fd < 0 then k else k.(open := k.open + {fd}, granted := k.granted + [fd])
  }

  function Fault(k: Kernel, fd: int): nat {
    if fd in k.open then 0 else 1
  }

  function Close(k: Kernel, fd: int): Kernel {
    k.(open := k.open - {fd}, closes := k.closes + [fd], faults := k.faults + Fault(k, fd))
  }

  function SendTo(k: Kernel, d: Datagram): Kernel {
    k.(sends := k.sends + [d], faults := k.faults + Fault(k, d.fd))
  }

  function Receive(k: Kernel, fd: int): Kernel {
    k.(receives := k.receives + [fd], faults := k.faults + Fault(k, fd))
  }

  function CloseAll(k: Kernel, fds: seq<int>): Kernel {
    if fds == [] then k else Close(CloseAll(k, fds[..|fds| - 1]), fds[|fds| - 1])
  }

  /** What was handed out has been closed as often, or is open. The only faults are the closes in
      `missed`, of descriptors not held open; by default there are none. */
  ghost predicate Balanced(k: Kernel, missed: multiset<int> := multiset{}) {
    k.faults == |missed| && multiset(k.granted) + missed == multiset(k.closes) + multiset(k.open)
  }

  predicate Distinct(s: seq<int>) {
    forall i, j :: 0 <= i < j < |s| ==> s[i] != s[j]
  }

  function Elements(s: seq<int>): set<int> {
    set x | x in s
  }

  lemma AddBoth(a: multiset<int>, b: multiset<int>, c: multiset<int>, d: multiset<int>, x: multiset<int>)
    requires a + b == c + d
    ensures (a + x) + b == c + (d + x)
    ensures a + (b + x) == (c + x) + d
  {
    var sum := (a + b) + x;
    assert (a + x) + b == sum && a + (b + x) == sum;
    assert c + (d + x) == (c + d) + x && (c + x) + d == (c + d) + x;
  }

  lemma OpenBalanced(k: Kernel, fd: int, missed: multiset<int> := multiset{})
    requires Balanced(k, missed) && Grants(k, fd)
    ensures Balanced(Open(k, fd), missed)
  {
    if fd >= 0 {
      assert multiset(k.open + {fd}) == multiset(k.open) + multiset{fd};
      AddBoth(multiset(k.granted), missed, multiset(k.closes), multiset(k.open), multiset{fd});
    }
  }

  lemma CloseBalanced(k: Kernel, fd: int, missed: multiset<int> := multiset{})
    requires Balanced(k, missed) && fd in k.open
    ensures Balanced(Close(k, fd), missed) && Close(k, fd).faults == k.faults
  {
  }

  lemma CloseMissed(k: Kernel, fd: int, missed: multiset<int>)
    requires Balanced(k, missed) && fd !in k.open
    ensures Balanced(Close(k, fd), missed + multiset{fd}) && Close(k, fd).open == k.open
  {
    assert k.open - {fd} == k.open;
    AddBoth(multiset(k.granted), missed, multiset(k.closes), multiset(k.open), multiset{fd});
  }

  lemma SplitLast(fds: seq<int>)
    requires fds != [] && Distinct(fds)
    ensures var front, last := fds[..|fds| - 1], fds[|fds| - 1];
            && fds == front + [last] && Distinct(front) && last !in Elements(front)
            && Elements(fds) == Elements(front) + {last}
  {
  }

  lemma CloseLast(k: Kernel, front: seq<int>, last: int, fds: seq<int>, missed: multiset<int>)
    requires fds == front + [last] && Elements(fds) == Elements(front) + {last}
    requires Balanced(k.(open := k.open - Elements(front), closes := k.closes + front), missed)
    requires last in k.open - Elements(front)
    ensures var k' := Close(k.(open := k.open - Elements(front), closes := k.closes + front), last);
            Balanced(k', missed) && k' == k.(open := k.open - Elements(fds), closes := k.closes + fds)
  {
  }

  /** Closing distinct open descriptors closes each once, in order. */
  lemma {:induction false} CloseAllEffect(k: Kernel, fds: seq<int>, missed: multiset<int> := multiset{})
    requires Balanced(k, missed) && Distinct(fds) && Elements(fds) <= k.open
    ensures Balanced(CloseAll(k, fds), missed)
    ensures CloseAll(k, fds) == k.(open := k.open - Elements(fds), closes := k.closes + fds)
    decreases |fds|
  {
    if fds == [] {
      assert k.closes + fds == k.closes && k.open - Elements(fds) == k.open;
    } else {
      hide Balanced, Distinct, Elements;
      var front, last := fds[..|fds| - 1], fds[|fds| - 1];
      SplitLast(fds);
      CloseAllEffect(k, front, missed);
      CloseLast(k, front, last, fds, missed);
    }
  }

  lemma CloseAllAppend(k: Kernel, fds: seq<int>, fd: int)
    ensures CloseAll(k, fds + [fd]) == Close(CloseAll(k, fds), fd)
  {
  }

  // ---------------------------------------------------------------- what the logs say

  /** The kernel went from `k` to `k'` by handing out, closing, sending and receiving just this,
      without fault. */
  ghost predicate Logged(k: Kernel, granted: seq<int>, closed: seq<int>, sent: seq<Datagram>, received: seq<int>,
                         k': Kernel) {
    && k'.granted == k.granted + granted && k'.closes == k.closes + closed
    && k'.sends == k.sends + sent && k'.receives == k.receives + received
    && k'.faults == k.faults
    && (forall fd :: fd in k'.open <==> (fd in k.open || fd in granted) && fd !in closed)
  }

  lemma LoggedOnce(k: Kernel, granted: seq<int>, closed: seq<int>, sent: seq<Datagram>, received: seq<int>,
                   a: Kernel, b: Kernel)
    requires Logged(k, granted, closed, sent, received, a) && Logged(k, granted, closed, sent, received, b)
    ensures a == b
  {
    forall fd ensures fd in a.open <==> fd in b.open {
      assert fd in a.open <==> (fd in k.open || fd in granted) && fd !in closed;
    }
    assert a.open == b.open;
  }

  /** What is open follows from the logs when nothing but `missed` is unaccounted for. */
  lemma OpenFromLogs(k: Kernel, granted: seq<int>, closed: seq<int>, k': Kernel, missed: multiset<int>, fd: int)
    requires Balanced(k, missed) && Balanced(k', missed)
    requires k'.granted == k.granted + granted && k'.closes == k.closes + closed
    requires |granted| <= 1 && forall i :: 0 <= i < |granted| ==> granted[i] !in k.open
    ensures fd in k'.open <==> (fd in k.open || fd in granted) && fd !in closed
  {
    assert (multiset(k.granted) + missed)[fd] == (multiset(k.closes) + multiset(k.open))[fd];
    assert (multiset(k'.granted) + missed)[fd] == (multiset(k'.closes) + multiset(k'.open))[fd];
    assert multiset(k.granted + granted)[fd] == multiset(k.granted)[fd] + multiset(granted)[fd];
    assert multiset(k.closes + closed)[fd] == multiset(k.closes)[fd] + multiset(closed)[fd];
    assert fd in granted <==> multiset(granted)[fd] == 1 by {
      assert granted == [] || granted == [granted[0]];
    }
    assert fd in closed <==> multiset(closed)[fd] > 0;
  }

  /** Descriptors outstanding is descriptors handed out less descriptors closed. */
  lemma BalancedCount(k: Kernel)
    requires Balanced(k)
    ensures |k.granted| - |k.closes| == |k.open|
  {
    assert |multiset(k.granted)| == |multiset(k.closes) + multiset(k.open)|;
    assert |multiset(k.open)| == |k.open|;
  }
}

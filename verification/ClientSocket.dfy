/**
 The client's descriptor: a failed transfer closes it and sets it to -1, and every later
 call is guarded by a test of its sign.
 */
module ClientSocket {
  /** What happens when the client connects. */
  datatype Connection = NoSocket | Refused | Connected

  /**
   The descriptor variable, whether the system still has the descriptor open, and how often
   it has been closed, and used after it had been closed.
   */
  datatype Socket = Socket(fd: int, isOpen: bool, closes: nat, stale: nat)

  /** connect_to_daemon with number n for the descriptor: a refused connection closes it but keeps the number. */
  function Connect(outcome: Connection, n: nat): Socket {
    match outcome
    case NoSocket => Socket(-1, false, 0, 0)
    case Refused => Socket(n, false, 1, 0)
    case Connected => Socket(n, true, 0, 0)
  }

  /** One SEND_DATA or RECEIVE_DATA; a closed descriptor makes both the transfer and the close hit a stale number. */
  function Transfer(s: Socket, ok: bool): Socket {
    if s.isOpen && ok then s
    else if s.isOpen then Socket(-1, false, s.closes + 1, s.stale)
    else Socket(-1, false, s.closes, s.stale + 2)
  }

  function TransferFails(s: Socket, ok: bool): bool {
    !s.isOpen || !ok
  }

  /** The transfers of one call up to the first that fails. */
  function Transfers(s: Socket, oks: seq<bool>): Socket {
    if oks == [] then s
    else if TransferFails(s, oks[0]) then Transfer(s, oks[0])
    else Transfers(Transfer(s, oks[0]), oks[1..])
  }

  /** A call that is made only while the descriptor is not negative. */
  function GuardedCall(s: Socket, oks: seq<bool>): Socket {
    if s.fd >= 0 then Transfers(s, oks) else s
  }

  function Calls(s: Socket, calls: seq<seq<bool>>): Socket
    decreases |calls|
  {
    if calls == [] then s else Calls(GuardedCall(s, calls[0]), calls[1..])
  }

  class Client {
    var socket: Socket

    constructor (outcome: Connection, n: nat)
      ensures socket.fd == (if outcome == NoSocket then -1 else n) && (socket.isOpen <==> outcome == Connected)
      ensures socket == Connect(outcome, n)
    {
      socket := Connect(outcome, n);
    }

    /** Returns whether all transfers of the call succeeded; a call that is not made fails. */
    method Call(oks: seq<bool>) returns (ok: bool)
      modifies this
      ensures socket == GuardedCall(old(socket), oks)
      ensures ok <==> old(socket).fd >= 0 && false !in oks && (old(socket).isOpen || oks == [])
      ensures ok || old(socket).fd < 0 ==> socket == old(socket)
      ensures !ok && old(socket).fd >= 0 ==> socket.fd == -1 && !socket.isOpen
      ensures !ok && old(socket).fd >= 0 ==> socket.closes == old(socket).closes + if old(socket).isOpen then 1 else 0
      ensures !ok && old(socket).fd >= 0 ==> socket.stale == old(socket).stale + if old(socket).isOpen then 0 else 2
    {
      if socket.fd < 0 {
        return false;
      }
      var k := 0;
      while k < |oks|
        invariant 0 <= k <= |oks|
        invariant Transfers(old(socket), oks) == Transfers(socket, oks[k..])
        invariant socket == old(socket) && false !in oks[..k] && (socket.isOpen || k == 0)
      {
        assert oks[k..][0] == oks[k] && oks[k..][1..] == oks[k + 1..];
        assert oks[..k + 1] == oks[..k] + [oks[k]];
        if TransferFails(socket, oks[k]) {
          socket := Transfer(socket, oks[k]);
          return false;
        }
        socket := Transfer(socket, oks[k]);
        k := k + 1;
      }
      return true;
    }
  }

  lemma {:induction false} TransfersOfOpen(s: Socket, oks: seq<bool>)
    requires s.isOpen
    ensures Transfers(s, oks) == if false in oks then Socket(-1, false, s.closes + 1, s.stale) else s
    decreases |oks|
  {
    if oks != [] && oks[0] {
      TransfersOfOpen(s, oks[1..]);
      assert oks == [oks[0]] + oks[1..];
    }
  }

  lemma {:induction false} CallsOfClosed(s: Socket, calls: seq<seq<bool>>)
    requires s.fd < 0
    ensures Calls(s, calls) == s
    decreases |calls|
  {
    if calls != [] {
      CallsOfClosed(s, calls[1..]);
    }
  }

  /**
   After a successful connect the descriptor is closed once, by the first transfer that fails,
   if any does; the calls before leave it alone, and the calls after never touch it.
   */
  lemma {:induction false} ClosedOnceAfterConnect(s: Socket, calls: seq<seq<bool>>)
    requires s.fd >= 0 && s.isOpen
    ensures Calls(s, calls) ==
      if exists c :: c in calls && false in c then Socket(-1, false, s.closes + 1, s.stale) else s
    decreases |calls|
  {
    if calls != [] {
      TransfersOfOpen(s, calls[0]);
      assert calls == [calls[0]] + calls[1..];
      if false in calls[0] {
        CallsOfClosed(GuardedCall(s, calls[0]), calls[1..]);
      } else {
        ClosedOnceAfterConnect(s, calls[1..]);
      }
    }
  }

  lemma {:induction false} ClosedStaysClosed(s: Socket, calls: seq<seq<bool>>)
    requires !s.isOpen
    ensures !Calls(s, calls).isOpen && Calls(s, calls).closes == s.closes
    decreases |calls|
  {
    if calls != [] {
      ClosedStaysClosed(GuardedCall(s, calls[0]), calls[1..]);
    }
  }

  /** Over its whole life a descriptor is closed once, or is still open, whatever became of the connection. */
  lemma OpenOrClosedOnce(outcome: Connection, n: nat, calls: seq<seq<bool>>)
    requires outcome != NoSocket
    ensures var t := Calls(Connect(outcome, n), calls);
      t.closes == if t.isOpen then 0 else 1
  {
    if outcome == Refused {
      ClosedStaysClosed(Connect(outcome, n), calls);
    } else {
      ClosedOnceAfterConnect(Connect(outcome, n), calls);
    }
  }

  /** No call ever uses a closed descriptor exactly when the connection was not refused. */
  lemma NeverStaleIff(outcome: Connection, n: nat)
    ensures (forall calls :: Calls(Connect(outcome, n), calls).stale == 0) <==> outcome != Refused
  {
    var s := Connect(outcome, n);
    match outcome
    case NoSocket =>
      forall calls
        ensures Calls(s, calls).stale == 0
      {
        CallsOfClosed(s, calls);
      }
    case Connected =>
      forall calls
        ensures Calls(s, calls).stale == 0
      {
        ClosedOnceAfterConnect(s, calls);
      }
    case Refused =>
      assert [[true]][1..] == [];
      assert Calls(s, [[true]]) == Calls(GuardedCall(s, [true]), []);
      assert Calls(s, [[true]]).stale == 2;
  }
}

/** The loop of ServerSocket.Accept, and the NewSocket it ends with. */
module AcceptOps {
  import opened Syscalls
  import opened TransferCalls
  import opened TransferOps

  /** How NewSocket fares: it makes the descriptor non-blocking, then an eventfd; an error number is never 0. */
  datatype Setup = Made(efd: int) | NonblockFailed(e: int) | NoEventFD(e: int)

  /** One accept system call: a connection, or an error number and, should Accept wait then, how the wait ends. */
  datatype Attempt = Accepted(fd: int, setup: Setup) | NotAccepted(answer: Answer, e: int, wait: Waited)

  /** `Blocked` is a call that has not returned when the attempts run out. */
  datatype Outcome = Connection(fd: int, efd: int) | Error(err: Err) | Blocked

  /** An attempt after which Accept tries again: a would-block, and a wait that ends with the socket ready. */
  predicate GoesOn(a: Attempt) {
    a.NotAccepted? && a.answer == Again && a.wait.SocketReady?
  }

  /** The first attempt after which Accept does not go on. */
  predicate FirstEnd(attempts: seq<Attempt>, i: int) {
    0 <= i < |attempts| && !GoesOn(attempts[i]) && forall k :: 0 <= k < i ==> GoesOn(attempts[k])
  }

  /** NewSocket on an open descriptor: the socket has that descriptor; on failure it does not close it. */
  method NewSocket(fd: int, setup: Setup, table: set<int>) returns (r: Outcome, open: set<int>)
    requires fd in table
    ensures r.Connection? <==> setup.Made?
    ensures setup.Made? ==> r.fd == fd && r.efd == setup.efd && open == table + {setup.efd}
    ensures setup.NonblockFailed? ==> r == Error(Errno(setup.e)) && open == table
    ensures setup.NoEventFD? ==> r == Error(Errno(setup.e)) && open == table
  {
    open := table;
    if setup.NonblockFailed? {
      return Error(Errno(setup.e)), open;
    }
    if setup.NoEventFD? {
      return Error(Errno(setup.e)), open;
    }
    open := open + {setup.efd};
    return Connection(fd, setup.efd), open;
  }

  /**
    Accept goes on only after a would-block that it waits out. Otherwise an accepted connection gives a
    socket with its own descriptor and a new eventfd, or NewSocket's error and a descriptor left open that
    nobody has; any other answer gives its error number, a wait told of the closing EBADF, and a failed
    poll the poll's error, all with no descriptor opened. It has left the gate exactly if it returned.
   */
  method AcceptConnection(gateOpen: bool, attempts: seq<Attempt>, users: nat, table: set<int>)
      returns (r: Outcome, usersAfter: nat, open: set<int>)
    requires forall i :: 0 <= i < |attempts| && attempts[i].NotAccepted? ==> attempts[i].answer != Ok
    ensures !gateOpen ==> r == Error(EBADF) && open == table
    ensures gateOpen && (forall k :: 0 <= k < |attempts| ==> GoesOn(attempts[k])) ==> r == Blocked && open == table
    ensures forall i | gateOpen && FirstEnd(attempts, i) && attempts[i].Accepted? ::
              match attempts[i].setup
              case Made(efd) =>
                r.Connection? && r.fd == attempts[i].fd && r.efd == efd && open == table + {attempts[i].fd, efd}
              case NonblockFailed(e) => r == Error(Errno(e)) && open == table + {attempts[i].fd}
              case NoEventFD(e) => r == Error(Errno(e)) && open == table + {attempts[i].fd}
    ensures forall i | gateOpen && FirstEnd(attempts, i) && attempts[i].NotAccepted? ::
              open == table
              && if attempts[i].answer != Again then r == Error(Errno(attempts[i].e))
                 else
                   match attempts[i].wait
                   case SocketClosing => r == Error(EBADF)
                   case PollError(p) => r == Error(Errno(p))
                   case StillWaiting => r == Blocked
                   case SocketReady => false
    ensures usersAfter == users + if r.Blocked? then 1 else 0
  {
    open := table;
    if !gateOpen {
      return Error(EBADF), users, open;
    }
    usersAfter := users + 1;
    for i := 0 to |attempts|
      invariant forall k :: 0 <= k < i ==> GoesOn(attempts[k])
      invariant usersAfter == users + 1 && open == table
    {
      match attempts[i] {
        case Accepted(fd, setup) =>
          r, open := NewSocket(fd, setup, open + {fd});
          return r, usersAfter - 1, open;
        case NotAccepted(answer, e, wait) =>
          if answer != Again {
            return Error(Errno(e)), usersAfter - 1, open;
          }
          match wait {
            case StillWaiting => return Blocked, usersAfter, open;
            case SocketClosing => return Error(EBADF), usersAfter - 1, open;
            case PollError(p) => return Error(Errno(p)), usersAfter - 1, open;
            case SocketReady =>
          }
      }
    }
    return Blocked, usersAfter, open;
  }

  /** When the loop ends is what the shared retry policy says of Accept. */
  lemma {:induction false} PolicyAgrees(attempts: seq<Attempt>, i: int)
    requires 0 <= i < |attempts| && (forall k :: 0 <= k < i ==> GoesOn(attempts[k]))
    requires attempts[i].NotAccepted? && attempts[i].answer != Ok
    ensures AfterSyscall(Accept, attempts[i].answer) != Retry
    ensures AfterSyscall(Accept, attempts[i].answer) == Quit ==> FirstEnd(attempts, i)
    ensures AfterSyscall(Accept, attempts[i].answer) == Block ==> (FirstEnd(attempts, i) <==> !attempts[i].wait.SocketReady?)
  {
  }
}

/** Sequences of calls on the descriptor tables.  For one live eventfd such a sequence
    is the sequence of the calls that name it, whatever happens to other
    descriptors in between. */
module TableRuns {
  import opened Options
  import opened Bits
  import opened EventFd
  import opened Descriptors
  import Epoll

  datatype Call =
    | CreateCall(initval: Flags, initFlags: Flags)
    | OpCall(fd: int, op: Op)
    | CloseCall(closed: int)
    | EpollCreateCall(epollFlags: Flags)
    | EpollCtlCall(epfd: int, control: Epoll.EpollOp, watched: int, event: Option<Epoll.Event>)
    | EpollWaitCall(waited: int, maxevents: nat)

  /** The calls that name fd. */
  function Named(calls: seq<Call>, fd: int): seq<Op> {
    if calls == [] then []
    else (if calls[0].OpCall? && calls[0].fd == fd then [calls[0].op] else []) + Named(calls[1..], fd)
  }

  /** No call closes fd. */
  predicate Keeps(calls: seq<Call>, fd: int) {
    forall i :: 0 <= i < |calls| ==> calls[i] != CloseCall(fd)
  }

  /** A read, readv, write or fcntl, passed on if the descriptor is no eventfd. */
  method PerformOp(table: Table, fd: int, op: Op) returns (values: seq<u64>)
    requires table.Valid()
    modifies table, table.eventfds, table.epolls
    ensures table.Valid()
    ensures var k := FindEvent(old(table.eventfds[..]), fd, 0);
      if k == EVENTFD_COUNT then table.eventfds[..] == old(table.eventfds[..])
      else
        && table.eventfds[..] == old(table.eventfds[..])[k := Step(old(table.eventfds[..])[k], op)]
        && Sum(values) == DeliveredBy(old(table.eventfds[..])[k], op)
  {
    values := [];
    match op {
      case ReadOp(b) =>
        var foreign, result;
        foreign, values, result := table.ReadFd(fd, b);
      case ReadvOp(iov) =>
        var k := table.EventFromFd(fd);
        if k < table.eventfds.Length {
          var result;
          values, result := table.ReadvFd(fd, iov);
        }
      case WriteOp(b, value) =>
        var foreign, result := table.WriteFd(fd, b, value);
      case FcntlOp(cmd, arg) =>
        var foreign, result := table.Fcntl(fd, cmd, arg);
    }
  }

  /** Any call leaves the entry of a descriptor it does not name as it was. */
  method Perform(table: Table, call: Call, ghost fd: int) returns (values: seq<u64>)
    requires table.Valid() && FindEvent(table.eventfds[..], fd, 0) < EVENTFD_COUNT && Keeps([call], fd)
    modifies table, table.eventfds, table.epolls
    ensures table.Valid()
    ensures var k := FindEvent(old(table.eventfds[..]), fd, 0); var e := old(table.eventfds[..])[k];
      && FindEvent(table.eventfds[..], fd, 0) == k
      && if call.OpCall? && call.fd == fd
         then table.eventfds[k] == Step(e, call.op) && Sum(values) == DeliveredBy(e, call.op)
         else table.eventfds[k] == e
  {
    ghost var k := FindEvent(table.eventfds[..], fd, 0);
    assert [call][0] == call;
    values := [];
    match call {
      case CreateCall(initval, flags) =>
        var created := table.Create(initval, flags);
      case OpCall(target, op) =>
        values := PerformOp(table, target, op);
        StepKeepsIdentity(old(table.eventfds[..])[k], op);
      case CloseCall(closed) =>
        var foreign := table.Close(closed);
      case EpollCreateCall(flags) =>
        var created := table.EpollCreate(flags);
      case EpollCtlCall(epfd, control, watched, event) =>
        var foreign, result := table.EpollCtl(epfd, control, watched, event);
      case EpollWaitCall(epfd, maxevents) =>
        var events := new Epoll.Event[maxevents](i => Epoll.Event(0, 0));
        var foreign, result := table.EpollWait(epfd, events, maxevents);
    }
    SameEntry(table.eventfds[..], fd, k);
  }

  lemma StepKeepsIdentity(e: EventFd, op: Op)
    ensures Step(e, op).used == e.used && Step(e, op).fd == e.fd
  {
    if op.ReadvOp? {
      ReadvKeepsIdentity(e, op.iov, 0);
    }
  }

  lemma {:induction false} ReadvKeepsIdentity(e: EventFd, iov: seq<Buffer>, total: nat)
    ensures ReadvFrom(e, iov, total).0.used == e.used && ReadvFrom(e, iov, total).0.fd == e.fd
    decreases |iov|
  {
    if iov != [] {
      if iov[0].len == 0 {
        ReadvKeepsIdentity(e, iov[1..], total);
      } else {
        ReadvKeepsIdentity(Read(e, iov[0]).0, iov[1..], total + 8);
      }
    }
  }

  /** What a sequence of calls does to an eventfd that none of them closes: its entry
      ends as the calls that name it leave it, the sum of what they hand out is what
      they deliver, and together with what was written nothing is lost. */
  method Run(table: Table, calls: seq<Call>, fd: int) returns (delivered: nat)
    requires table.Valid() && FindEvent(table.eventfds[..], fd, 0) < EVENTFD_COUNT && Keeps(calls, fd)
    modifies table, table.eventfds, table.epolls
    ensures table.Valid()
    ensures var k := FindEvent(old(table.eventfds[..]), fd, 0); var e := old(table.eventfds[..])[k];
      && FindEvent(table.eventfds[..], fd, 0) == k
      && table.eventfds[k] == Final(e, Named(calls, fd))
      && delivered == Delivered(e, Named(calls, fd))
      && (e.counter + Written(Named(calls, fd)) - delivered - table.eventfds[k].counter) % WORD == 0
    decreases |calls|
  {
    delivered := 0;
    ghost var k := FindEvent(table.eventfds[..], fd, 0);
    EventConservation(table.eventfds[k], Named(calls, fd));
    if calls == [] {
      return;
    }
    NamedStep(table.eventfds[k], calls, fd);
    var values := Perform(table, calls[0], fd);
    var rest := Run(table, calls[1..], fd);
    delivered := (if calls[0].OpCall? && calls[0].fd == fd then Sum(values) else 0) + rest;
  }

  lemma NamedStep(e: EventFd, calls: seq<Call>, fd: int)
    requires calls != [] && Keeps(calls, fd)
    ensures Keeps([calls[0]], fd) && Keeps(calls[1..], fd)
    ensures var named, rest := Named(calls, fd), Named(calls[1..], fd);
      if calls[0].OpCall? && calls[0].fd == fd then
        && Final(e, named) == Final(Step(e, calls[0].op), rest)
        && Delivered(e, named) == DeliveredBy(e, calls[0].op) + Delivered(Step(e, calls[0].op), rest)
      else named == rest
  {
    var named, rest := Named(calls, fd), Named(calls[1..], fd);
    if calls[0].OpCall? && calls[0].fd == fd {
      assert named == [calls[0].op] + rest;
      assert named[1..] == rest;
    }
  }
}

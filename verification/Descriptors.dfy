/** The tables of fake descriptors in ruby_syscall_poll.c, updated in place.
    A call on any other descriptor is passed on to the system and reports
    foreign. */
module Descriptors {
  import opened Errno
  import opened Options
  import opened Bits
  import opened EventFd
  import Epoll

  const EVENTFD_BASE: int := 1000
  const EVENTFD_COUNT: nat := 4
  const EPOLL_BASE: int := 1100
  const EPOLL_COUNT: nat := 2

  datatype EpollFd = EpollFd(used: bool, fd: int, flags: Flags, watches: Epoll.Watches)

  /** The entry for fd, or |es|: fake_eventfd_from_fd. */
  function FindEvent(es: seq<EventFd>, fd: int, from: nat): (i: nat)
    requires from <= |es|
    ensures from <= i <= |es|
    ensures i < |es| ==> es[i].used && es[i].fd == fd
    ensures forall j :: from <= j < i ==> !(es[j].used && es[j].fd == fd)
    decreases |es| - from
  {
    if from == |es| || (es[from].used && es[from].fd == fd) then from else FindEvent(es, fd, from + 1)
  }

  function FindEpoll(ps: seq<EpollFd>, fd: int, from: nat): (i: nat)
    requires from <= |ps|
    ensures from <= i <= |ps|
    ensures i < |ps| ==> ps[i].used && ps[i].fd == fd
    ensures forall j :: from <= j < i ==> !(ps[j].used && ps[j].fd == fd)
    decreases |ps| - from
  {
    if from == |ps| || (ps[from].used && ps[from].fd == fd) then from else FindEpoll(ps, fd, from + 1)
  }

  /** poll's notion of a readable descriptor other than stdin. */
  predicate Readable(es: seq<EventFd>, fd: int) {
    var i := FindEvent(es, fd, 0);
    i < |es| ==> es[i].counter > 0
  }

  // ----- readiness as epoll_wait sees it -----

  predicate WatchReady(w: Epoll.Watch, es: seq<EventFd>) {
    var k := FindEvent(es, w.fd, 0);
    w.used && k < |es| && es[k].counter > 0 && Has(w.event.events, Epoll.EPOLLIN)
  }

  predicate SlotReady(ws: Epoll.Watches, es: seq<EventFd>, i: nat)
    requires i < |ws|
  {
    WatchReady(ws[i], es)
  }

  function ReadySlots(ws: Epoll.Watches, es: seq<EventFd>, from: nat): (s: seq<nat>)
    requires from <= |ws|
    ensures forall k :: 0 <= k < |s| ==> from <= s[k] < |ws| && SlotReady(ws, es, s[k])
    ensures forall j, k :: 0 <= j < k < |s| ==> s[j] < s[k]
    decreases |ws| - from
  {
    if from == |ws| then []
    else if SlotReady(ws, es, from) then [from] + ReadySlots(ws, es, from + 1)
    else ReadySlots(ws, es, from + 1)
  }

  /** Every ready slot is listed; by the contract of ReadySlots only those are,
      each once and in slot order. */
  lemma {:induction false} ReadySlotsComplete(ws: Epoll.Watches, es: seq<EventFd>, from: nat, i: nat)
    requires from <= i < |ws| && SlotReady(ws, es, i)
    ensures i in ReadySlots(ws, es, from)
    decreases |ws| - from
  {
    if from < i {
      ReadySlotsComplete(ws, es, from + 1, i);
    }
  }

  /** The descriptors of a table belong to their places. */
  predicate Placed(es: seq<EventFd>) {
    forall i :: 0 <= i < |es| && es[i].used ==> es[i].fd == EVENTFD_BASE + i
  }

  /** What is listed: the slots in use that watch for input on an eventfd whose counter
      is not zero.  A deleted watch is not, nor one for other events. */
  lemma ReadySlotsExact(ws: Epoll.Watches, es: seq<EventFd>, i: nat)
    requires Placed(es)
    ensures i in ReadySlots(ws, es, 0) <==>
      && i < |ws| && ws[i].used && ws[i].event.events % 2 == 1
      && exists k :: 0 <= k < |es| && es[k].used && es[k].fd == ws[i].fd && es[k].counter > 0
  {
    if i < |ws| {
      if k :| 0 <= k < |es| && es[k].used && es[k].fd == ws[i].fd && es[k].counter > 0 {
        SameEntry(es, ws[i].fd, k);
      }
      if SlotReady(ws, es, i) {
        ReadySlotsComplete(ws, es, 0, i);
        var k := FindEvent(es, ws[i].fd, 0);
        assert es[k].used && es[k].fd == ws[i].fd && es[k].counter > 0;
      }
    }
  }

  lemma ReadyStep(ws: Epoll.Watches, es: seq<EventFd>, i: nat, taken: seq<nat>)
    requires i < |ws|
    ensures taken + ReadySlots(ws, es, i) ==
      (if SlotReady(ws, es, i) then taken + [i] else taken) + ReadySlots(ws, es, i + 1)
  {
    assert taken + ([i] + ReadySlots(ws, es, i + 1)) == (taken + [i]) + ReadySlots(ws, es, i + 1);
  }

  /** For a live eventfd the three ways to ask agree: an 8-byte read succeeds, poll
      finds it readable, and epoll_wait reports every watch on it for input. */
  lemma ReadinessAgrees(es: seq<EventFd>, i: nat, ws: Epoll.Watches, slot: nat)
    requires i < |es| && FindEvent(es, es[i].fd, 0) == i
    requires slot < |ws| && ws[slot].used && ws[slot].fd == es[i].fd && Has(ws[slot].event.events, Epoll.EPOLLIN)
    ensures Readable(es, es[i].fd) <==> Read(es[i], Buffer(false, 8)).2 == Reply(8, 0)
    ensures !Readable(es, es[i].fd) <==> Read(es[i], Buffer(false, 8)).2 == Reply(-1, EAGAIN)
    ensures Readable(es, es[i].fd) <==> slot in ReadySlots(ws, es, 0)
  {
    if SlotReady(ws, es, slot) {
      ReadySlotsComplete(ws, es, 0, slot);
    }
  }

  class Table {
    const eventfds: array<EventFd>
    const epolls: array<EpollFd>
    var errno: int

    ghost predicate Valid()
      reads this, eventfds, epolls
    {
      && eventfds.Length == EVENTFD_COUNT && epolls.Length == EPOLL_COUNT
      && (forall i :: 0 <= i < eventfds.Length && eventfds[i].used ==> eventfds[i].fd == EVENTFD_BASE + i)
      && (forall i :: 0 <= i < epolls.Length && epolls[i].used ==> epolls[i].fd == EPOLL_BASE + i)
      && (forall i :: 0 <= i < epolls.Length ==> Epoll.Valid(epolls[i].watches))
    }

    constructor ()
      ensures Valid() && fresh(eventfds) && fresh(epolls)
      ensures forall i :: 0 <= i < EVENTFD_COUNT ==> !eventfds[i].used
      ensures forall i :: 0 <= i < EPOLL_COUNT ==> !epolls[i].used
    {
      var none := Epoll.Watch(false, 0, Epoll.Event(0, 0));
      eventfds := new EventFd[EVENTFD_COUNT](i => EventFd(false, 0, 0, 0));
      epolls := new EpollFd[EPOLL_COUNT](i => EpollFd(false, 0, 0, seq(Epoll.WATCH_COUNT, j => none)));
      errno := 0;
    }

    method EventFromFd(fd: int) returns (i: nat)
      ensures i == FindEvent(eventfds[..], fd, 0)
    {
      i := 0;
      while i < eventfds.Length
        invariant 0 <= i <= eventfds.Length
        invariant FindEvent(eventfds[..], fd, 0) == FindEvent(eventfds[..], fd, i)
      {
        if eventfds[i].used && eventfds[i].fd == fd {
          return;
        }
        i := i + 1;
      }
    }

    method EpollFromFd(fd: int) returns (i: nat)
      requires Valid()
      ensures i == FindEpoll(epolls[..], fd, 0)
    {
      i := 0;
      while i < epolls.Length
        invariant 0 <= i <= epolls.Length
        invariant FindEpoll(epolls[..], fd, 0) == FindEpoll(epolls[..], fd, i)
      {
        if epolls[i].used && epolls[i].fd == fd {
          return;
        }
        i := i + 1;
      }
    }

    /** eventfd: the lowest free entry is taken; the new descriptor is distinct
        from every live one. */
    method Create(initval: u64, flags: Flags) returns (fd: int)
      requires Valid() && initval < 0x1_0000_0000
      modifies this`errno, eventfds
      ensures Valid()
      ensures fd == -1 ==> eventfds[..] == old(eventfds[..]) && errno == EMFILE
      ensures fd == -1 ==> forall i :: 0 <= i < EVENTFD_COUNT ==> eventfds[i].used
      ensures fd != -1 ==>
        var i := fd - EVENTFD_BASE;
        && 0 <= i < EVENTFD_COUNT && !old(eventfds[i].used)
        && eventfds[..] == old(eventfds[..])[i := EventFd(true, fd, flags, initval)]
        && (forall j :: 0 <= j < i ==> eventfds[j].used)
        && FindEvent(old(eventfds[..]), fd, 0) == EVENTFD_COUNT && FindEvent(eventfds[..], fd, 0) == i
    {
      var i := 0;
      while i < eventfds.Length
        invariant 0 <= i <= eventfds.Length
        invariant forall j :: 0 <= j < i ==> eventfds[j].used
      {
        if !eventfds[i].used {
          eventfds[i] := EventFd(true, EVENTFD_BASE + i, flags, initval);
          return EVENTFD_BASE + i;
        }
        i := i + 1;
      }
      errno := EMFILE;
      fd := -1;
    }

    method ReadFd(fd: int, b: Buffer) returns (foreign: bool, values: seq<u64>, result: int)
      requires Valid()
      modifies this`errno, eventfds
      ensures Valid()
      ensures foreign <==> FindEvent(old(eventfds[..]), fd, 0) == EVENTFD_COUNT
      ensures foreign ==> eventfds[..] == old(eventfds[..]) && errno == old(errno)
      ensures !foreign ==>
        var i := FindEvent(old(eventfds[..]), fd, 0);
        var (e, vs, reply) := Read(old(eventfds[..])[i], b);
        && eventfds[..] == old(eventfds[..])[i := e] && values == vs && result == reply.result
        && errno == if result < 0 then reply.errno else old(errno)
      // The whole counter, or a token of it; refusals change nothing.
      ensures !foreign ==>
        var i := FindEvent(old(eventfds[..]), fd, 0);
        var e := old(eventfds[..])[i];
        if b.isNull || b.len < 8 || e.counter == 0 then
          && result == -1 && values == [] && eventfds[..] == old(eventfds[..])
          && errno == if b.isNull || b.len < 8 then EINVAL else EAGAIN
        else
          var v := if e.flags % 2 == 1 then 1 else e.counter;
          && result == 8 && values == [v] && errno == old(errno)
          && eventfds[..] == old(eventfds[..])[i := e.(counter := e.counter - v)]
    {
      values, result := [], -1;
      var i := EventFromFd(fd);
      foreign := i == eventfds.Length;
      if foreign {
        return;
      }
      if b.isNull || b.len < 8 {
        errno := EINVAL;
      } else if eventfds[i].counter == 0 {
        errno := EAGAIN;
      } else {
        if Has(eventfds[i].flags, EFD_SEMAPHORE) {
          values := [1];
          eventfds[i] := eventfds[i].(counter := eventfds[i].counter - 1);
        } else {
          values := [eventfds[i].counter];
          eventfds[i] := eventfds[i].(counter := 0);
        }
        result := 8;
      }
    }

    /** readv on a live eventfd. */
    method ReadvFd(fd: int, iov: seq<Buffer>) returns (values: seq<u64>, result: int)
      requires Valid() && FindEvent(eventfds[..], fd, 0) < EVENTFD_COUNT
      modifies this`errno, eventfds
      ensures Valid()
      ensures var i := FindEvent(old(eventfds[..]), fd, 0);
        var (e, vs, reply) := Readv(old(eventfds[..])[i], iov);
        && eventfds[..] == old(eventfds[..])[i := e] && values == vs && result == reply.result
        && (result < 0 ==> errno == reply.errno)
    {
      ghost var k := FindEvent(eventfds[..], fd, 0);
      values, result := [], 0;
      var i := 0;
      assert iov[0..] == iov && [] + Readv(eventfds[k], iov).1 == Readv(eventfds[k], iov).1;
      while i < |iov|
        invariant 0 <= i <= |iov| && result >= 0
        invariant Valid() && eventfds[k].used && eventfds[k].fd == fd
        invariant eventfds[..] == old(eventfds[..])[k := eventfds[k]]
        invariant var (e, vs, reply) := ReadvFrom(eventfds[k], iov[i..], result);
          Readv(old(eventfds[..])[k], iov).0 == e && Readv(old(eventfds[..])[k], iov).1 == values + vs
          && Readv(old(eventfds[..])[k], iov).2 == reply
      {
        ghost var rest := iov[i..];
        assert rest[0] == iov[i] && rest[1..] == iov[i + 1..];
        ghost var more := ReadvFrom(Read(eventfds[k], iov[i]).0, iov[i + 1..], result + 8).1;
        assert (values + Read(eventfds[k], iov[i]).1) + more == values + (Read(eventfds[k], iov[i]).1 + more);
        if iov[i].len != 0 {
          SameEntry(eventfds[..], fd, k);
          var foreign, vs, n := ReadFd(fd, iov[i]);
          values := values + vs;
          if n < 0 {
            result := if result > 0 then result else -1;
            return;
          }
          result := result + n;
          if n != iov[i].len {
            return;
          }
        }
        i := i + 1;
      }
    }

    method WriteFd(fd: int, b: Buffer, value: u64) returns (foreign: bool, result: int)
      requires Valid()
      modifies this`errno, eventfds
      ensures Valid()
      ensures foreign <==> FindEvent(old(eventfds[..]), fd, 0) == EVENTFD_COUNT
      ensures foreign ==> eventfds[..] == old(eventfds[..]) && errno == old(errno)
      ensures !foreign ==>
        var i := FindEvent(old(eventfds[..]), fd, 0);
        var (e, reply) := Write(old(eventfds[..])[i], b, value);
        && eventfds[..] == old(eventfds[..])[i := e] && result == reply.result
        && errno == if result < 0 then reply.errno else old(errno)
      // A buffer that holds a value is never refused.
      ensures !foreign ==>
        var i := FindEvent(old(eventfds[..]), fd, 0);
        var e := old(eventfds[..])[i];
        if b.isNull || b.len < 8 then result == -1 && errno == EINVAL && eventfds[..] == old(eventfds[..])
        else
          && result == 8 && errno == old(errno)
          && eventfds[..] == old(eventfds[..])[i := e.(counter := (e.counter + value) % WORD)]
    {
      result := -1;
      var i := EventFromFd(fd);
      foreign := i == eventfds.Length;
      if foreign {
        return;
      }
      if b.isNull || b.len < 8 {
        errno := EINVAL;
        return;
      }
      eventfds[i] := eventfds[i].(counter := (eventfds[i].counter + value) % WORD);
      result := 8;
    }

    /** close: the watches of other epoll descriptors stay as they are. */
    method Close(fd: int) returns (foreign: bool)
      requires Valid()
      modifies eventfds, epolls
      ensures Valid()
      ensures var i, p := FindEvent(old(eventfds[..]), fd, 0), FindEpoll(old(epolls[..]), fd, 0);
        if i < EVENTFD_COUNT then
          !foreign && eventfds[..] == old(eventfds[..])[i := EventFd(false, -1, 0, 0)] && epolls[..] == old(epolls[..])
        else if p < EPOLL_COUNT then
          && !foreign && eventfds[..] == old(eventfds[..])
          && (forall q :: 0 <= q < EPOLL_COUNT && q != p ==> epolls[q] == old(epolls[q]))
          && !epolls[p].used && forall s :: 0 <= s < Epoll.WATCH_COUNT ==> !epolls[p].watches[s].used
        else foreign && eventfds[..] == old(eventfds[..]) && epolls[..] == old(epolls[..])
    {
      var i := EventFromFd(fd);
      var p := EpollFromFd(fd);
      foreign := false;
      if i < eventfds.Length {
        eventfds[i] := EventFd(false, -1, 0, 0);
      } else if p < epolls.Length {
        var none := Epoll.Watch(false, 0, Epoll.Event(0, 0));
        epolls[p] := EpollFd(false, -1, 0, seq(Epoll.WATCH_COUNT, j => none));
      } else {
        foreign := true;
      }
    }

    /** fcntl on an eventfd or, if there is none, on an epoll descriptor. */
    method Fcntl(fd: int, cmd: Command, arg: Flags) returns (foreign: bool, result: int)
      requires Valid()
      modifies this`errno, eventfds, epolls
      ensures Valid()
      ensures var i, p := FindEvent(old(eventfds[..]), fd, 0), FindEpoll(old(epolls[..]), fd, 0);
        && foreign == (i == EVENTFD_COUNT && p == EPOLL_COUNT)
        && eventfds[..] ==
             (if i == EVENTFD_COUNT then old(eventfds[..])
              else
                var e := old(eventfds[..])[i];
                old(eventfds[..])[i := e.(flags := FlagsAfter(e.flags, cmd, arg))])
        && epolls[..] ==
             (if i < EVENTFD_COUNT || p == EPOLL_COUNT then old(epolls[..])
              else
                var e := old(epolls[..])[p];
                old(epolls[..])[p := e.(flags := FlagsAfter(e.flags, cmd, arg))])
        && (!foreign ==>
              var flags := if i < EVENTFD_COUNT then old(eventfds[..])[i].flags else old(epolls[..])[p].flags;
              result == FcntlReply(flags, cmd).result && (result == -1 ==> errno == FcntlReply(flags, cmd).errno))
    {
      result := -1;
      var i := EventFromFd(fd);
      var p := EpollFromFd(fd);
      foreign := i == eventfds.Length && p == epolls.Length;
      if foreign {
        return;
      }
      var flags := if i < eventfds.Length then eventfds[i].flags else epolls[p].flags;
      match cmd {
        case GetFl =>
          result := flags;
        case SetFl =>
          flags, result := arg, 0;
        case GetFd =>
          result := if Has(flags, O_CLOEXEC) then FD_CLOEXEC else 0;
        case SetFd =>
          flags, result := WithCloexec(flags, Has(arg, FD_CLOEXEC)), 0;
        case DupFd =>
          errno := EMFILE;
        case DupFdCloexec =>
          errno := EMFILE;
        case OtherCommand =>
          errno := EINVAL;
      }
      if i < eventfds.Length {
        eventfds[i] := eventfds[i].(flags := flags);
      } else {
        epolls[p] := epolls[p].(flags := flags);
      }
    }

    method EpollCreate(flags: Flags) returns (fd: int)
      requires Valid()
      modifies this`errno, epolls
      ensures Valid()
      ensures fd == -1 ==> epolls[..] == old(epolls[..]) && errno == EMFILE
      ensures fd == -1 ==> forall i :: 0 <= i < EPOLL_COUNT ==> epolls[i].used
      ensures fd != -1 ==>
        var i := fd - EPOLL_BASE;
        && 0 <= i < EPOLL_COUNT && !old(epolls[i].used)
        && (forall j :: 0 <= j < EPOLL_COUNT && j != i ==> epolls[j] == old(epolls[j]))
        && epolls[i].used && epolls[i].fd == fd && epolls[i].flags == flags
        && Epoll.MapOf(epolls[i].watches) == map[]
        && FindEpoll(epolls[..], fd, 0) == i
    {
      var i := 0;
      while i < epolls.Length
        invariant 0 <= i <= epolls.Length
        invariant forall j :: 0 <= j < i ==> epolls[j].used
      {
        if !epolls[i].used {
          var none := Epoll.Watch(false, 0, Epoll.Event(0, 0));
          epolls[i] := EpollFd(true, EPOLL_BASE + i, flags, seq(Epoll.WATCH_COUNT, j => none));
          assert Epoll.MapOf(epolls[i].watches) == map[];
          return EPOLL_BASE + i;
        }
        i := i + 1;
      }
      errno := EMFILE;
      fd := -1;
    }

    method WatchSlot(ws: Epoll.Watches, fd: int) returns (i: nat)
      ensures i == Epoll.SlotFrom(ws, fd, 0)
    {
      i := 0;
      while i < |ws|
        invariant 0 <= i <= |ws|
        invariant Epoll.SlotFrom(ws, fd, 0) == Epoll.SlotFrom(ws, fd, i)
      {
        if ws[i].used && ws[i].fd == fd {
          return;
        }
        i := i + 1;
      }
    }

    method FreeSlot(ws: Epoll.Watches) returns (i: nat)
      ensures i == Epoll.FreeSlotFrom(ws, 0)
    {
      i := 0;
      while i < |ws|
        invariant 0 <= i <= |ws|
        invariant Epoll.FreeSlotFrom(ws, 0) == Epoll.FreeSlotFrom(ws, i)
      {
        if !ws[i].used {
          return;
        }
        i := i + 1;
      }
    }

    /** epoll_ctl acts on the map of watched descriptors and on nothing else. */
    method EpollCtl(epfd: int, op: Epoll.EpollOp, fd: int, event: Option<Epoll.Event>)
      returns (foreign: bool, result: int)
      requires Valid()
      modifies this`errno, epolls
      ensures Valid()
      ensures foreign <==> FindEpoll(old(epolls[..]), epfd, 0) == EPOLL_COUNT
      ensures foreign ==> epolls[..] == old(epolls[..])
      ensures !foreign ==>
        var p := FindEpoll(old(epolls[..]), epfd, 0);
        var (m, reply) := Epoll.MapControl(Epoll.MapOf(old(epolls[..])[p].watches), op, fd, event);
        && epolls[..] == old(epolls[..])[p := old(epolls[..])[p].(watches := epolls[p].watches)]
        && Epoll.MapOf(epolls[p].watches) == m
        && result == reply.result && (result == -1 ==> errno == reply.errno)
    {
      result := -1;
      var p := EpollFromFd(epfd);
      foreign := p == epolls.Length;
      if foreign {
        return;
      }
      Epoll.ControlRefines(epolls[p].watches, op, fd, event);
      var ws, reply := ControlWatches(epolls[p].watches, op, fd, event);
      epolls[p] := epolls[p].(watches := ws);
      result := reply.result;
      if result == -1 {
        errno := reply.errno;
      }
    }

    /** The switch of epoll_ctl, on the slots of one descriptor. */
    method ControlWatches(ws: Epoll.Watches, op: Epoll.EpollOp, fd: int, event: Option<Epoll.Event>)
      returns (ws': Epoll.Watches, reply: Reply)
      ensures (ws', reply) == Epoll.Control(ws, op, fd, event)
    {
      ws' := ws;
      var i := WatchSlot(ws, fd);
      match op {
        case Add =>
          var k := FreeSlot(ws);
          if event.None? {
            reply := Reply(-1, EINVAL);
          } else if i < |ws| {
            reply := Reply(-1, EEXIST);
          } else if k < |ws| {
            ws' := ws[k := Epoll.Watch(true, fd, event.value)];
            reply := Reply(0, 0);
          } else {
            reply := Reply(-1, ENOSPC);
          }
        case Mod =>
          if event.None? {
            reply := Reply(-1, EINVAL);
          } else if i < |ws| {
            ws' := ws[i := ws[i].(event := event.value)];
            reply := Reply(0, 0);
          } else {
            reply := Reply(-1, ENOENT);
          }
        case Del =>
          if i < |ws| {
            ws' := ws[i := ws[i].(used := false)];
            reply := Reply(0, 0);
          } else {
            reply := Reply(-1, ENOENT);
          }
        case OtherOp =>
          reply := Reply(-1, EINVAL);
      }
    }

    /** epoll_wait: the first ready watches in slot order, as many as fit; the
        tables do not change. */
    method EpollWait(epfd: int, events: array?<Epoll.Event>, maxevents: int) returns (foreign: bool, result: int)
      requires Valid() && (events != null ==> maxevents <= events.Length)
      modifies this`errno, events
      ensures Valid()
      ensures foreign <==> FindEpoll(epolls[..], epfd, 0) == EPOLL_COUNT
      ensures !foreign && (events == null || maxevents <= 0) ==> result == -1 && errno == EINVAL
      ensures !foreign && events != null && maxevents > 0 ==>
        var ws := epolls[FindEpoll(epolls[..], epfd, 0)].watches;
        var s := ReadySlots(ws, eventfds[..], 0);
        && result == (if |s| < maxevents then |s| else maxevents)
        && Copied(events[..], old(events[..]), ws, s[..result])
        && (forall k :: 0 <= k < result ==>
              events[k].events == Epoll.EPOLLIN && events[k].data == ws[s[k]].event.data)
        && (forall k :: result <= k < events.Length ==> events[k] == old(events[k]))
    {
      result := -1;
      var p := EpollFromFd(epfd);
      foreign := p == epolls.Length;
      if foreign {
        return;
      }
      if events == null || maxevents <= 0 {
        errno := EINVAL;
        return;
      }
      result := Collect(epolls[p].watches, events, maxevents);
    }

    method IsReady(w: Epoll.Watch) returns (reported: bool)
      ensures reported == WatchReady(w, eventfds[..])
    {
      reported := false;
      if w.used {
        var k := EventFromFd(w.fd);
        reported := k < eventfds.Length && eventfds[k].counter > 0 && Has(w.event.events, Epoll.EPOLLIN);
      }
    }

    method Collect(ws: Epoll.Watches, events: array<Epoll.Event>, maxevents: nat) returns (ready: nat)
      requires maxevents <= events.Length
      modifies events
      ensures var s := ReadySlots(ws, eventfds[..], 0);
        && ready == (if |s| < maxevents then |s| else maxevents)
        && Copied(events[..], old(events[..]), ws, s[..ready])
    {
      ghost var es := eventfds[..];
      ghost var taken: seq<nat> := [];
      ready := 0;
      var i := 0;
      while i < |ws| && ready < maxevents
        invariant 0 <= i <= |ws| && |taken| == ready <= maxevents
        invariant eventfds[..] == es
        invariant Collected(ws, es, i, taken, events[..], old(events[..]))
      {
        CollectedStep(ws, es, i, taken, events[..], old(events[..]));
        var reported := IsReady(ws[i]);
        if reported {
          events[ready] := ws[i].event.(events := Epoll.EPOLLIN);
          ready := ready + 1;
          taken := taken + [i];
        }
        i := i + 1;
      }
      CollectedEnd(ws, es, i, taken, events[..], old(events[..]));
    }
  }

  /** The state of epoll_wait's loop before slot i. */
  ghost predicate Collected(ws: Epoll.Watches, es: seq<EventFd>, i: nat, taken: seq<nat>,
                            ev: seq<Epoll.Event>, before: seq<Epoll.Event>)
    requires i <= |ws|
  {
    ReadySlots(ws, es, 0) == taken + ReadySlots(ws, es, i) && Copied(ev, before, ws, taken)
  }

  lemma CollectedStep(ws: Epoll.Watches, es: seq<EventFd>, i: nat, taken: seq<nat>,
                      ev: seq<Epoll.Event>, before: seq<Epoll.Event>)
    requires i < |ws| && Collected(ws, es, i, taken, ev, before) && |taken| < |ev|
    ensures if WatchReady(ws[i], es)
            then Collected(ws, es, i + 1, taken + [i], ev[|taken| := ws[i].event.(events := Epoll.EPOLLIN)], before)
            else Collected(ws, es, i + 1, taken, ev, before)
  {
    ReadyStep(ws, es, i, taken);
    CopiedStep(ev, before, ws, taken, i);
  }

  lemma CollectedEnd(ws: Epoll.Watches, es: seq<EventFd>, i: nat, taken: seq<nat>,
                     ev: seq<Epoll.Event>, before: seq<Epoll.Event>)
    requires i <= |ws| && Collected(ws, es, i, taken, ev, before)
    ensures var s := ReadySlots(ws, es, 0);
      && |taken| <= |s| && s[..|taken|] == taken && Copied(ev, before, ws, s[..|taken|])
      && (i == |ws| ==> |s| == |taken|)
  {
  }

  /** The caller's array holds the events of the taken slots, and beyond them what
      it held before. */
  ghost predicate Copied(ev: seq<Epoll.Event>, before: seq<Epoll.Event>, ws: Epoll.Watches, taken: seq<nat>) {
    && |taken| <= |ev| == |before|
    && (forall k :: 0 <= k < |taken| ==> taken[k] < |ws| && ev[k] == ws[taken[k]].event.(events := Epoll.EPOLLIN))
    && (forall k :: |taken| <= k < |ev| ==> ev[k] == before[k])
  }

  lemma CopiedStep(ev: seq<Epoll.Event>, before: seq<Epoll.Event>, ws: Epoll.Watches, taken: seq<nat>, i: nat)
    requires Copied(ev, before, ws, taken) && |taken| < |ev| && i < |ws|
    ensures Copied(ev[|taken| := ws[i].event.(events := Epoll.EPOLLIN)], before, ws, taken + [i])
  {
  }

  lemma SameEntry(es: seq<EventFd>, fd: int, k: nat)
    requires k < |es| && es[k].used && es[k].fd == fd && Placed(es)
    ensures FindEvent(es, fd, 0) == k
  {
  }
}

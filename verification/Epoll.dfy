/** The watch table of one fake epoll descriptor: eight slots that represent a
    finite map from watched descriptors to events. */
module Epoll {
  import opened Errno
  import opened Options
  import opened Bits
  import EventFd

  const WATCH_COUNT: nat := 8
  const EPOLLIN: EventFd.Flags := 0x1

  /** data is the caller's cookie. */
  datatype Event = Event(events: EventFd.Flags, data: u64)

  datatype Watch = Watch(used: bool, fd: int, event: Event)

  datatype EpollOp = Add | Mod | Del | OtherOp

  type Watches = seq<Watch>

  ghost predicate Valid(ws: Watches) {
    && |ws| == WATCH_COUNT
    && forall i, j :: 0 <= i < j < |ws| && ws[i].used && ws[j].used ==> ws[i].fd != ws[j].fd
  }

  ghost function WatchedBelow(ws: Watches, n: nat): set<int>
    requires n <= |ws|
  {
    set i | 0 <= i < n && ws[i].used :: ws[i].fd
  }

  /** The used slot that watches fd, or |ws|. */
  function SlotFrom(ws: Watches, fd: int, from: nat): (i: nat)
    requires from <= |ws|
    ensures from <= i <= |ws|
    ensures i < |ws| ==> ws[i].used && ws[i].fd == fd
    ensures forall j :: from <= j < i ==> !(ws[j].used && ws[j].fd == fd)
    decreases |ws| - from
  {
    if from == |ws| || (ws[from].used && ws[from].fd == fd) then from else SlotFrom(ws, fd, from + 1)
  }

  function FreeSlotFrom(ws: Watches, from: nat): (i: nat)
    requires from <= |ws|
    ensures from <= i <= |ws|
    ensures i < |ws| ==> !ws[i].used
    ensures forall j :: from <= j < i ==> ws[j].used
    decreases |ws| - from
  {
    if from == |ws| || !ws[from].used then from else FreeSlotFrom(ws, from + 1)
  }

  /** The finite map that the slots represent. */
  ghost function MapOf(ws: Watches): map<int, Event> {
    map fd | fd in WatchedBelow(ws, |ws|) :: ws[SlotFrom(ws, fd, 0)].event
  }

  lemma SlotOf(ws: Watches, i: nat)
    requires Valid(ws) && i < |ws| && ws[i].used
    ensures SlotFrom(ws, ws[i].fd, 0) == i
    ensures ws[i].fd in MapOf(ws) && MapOf(ws)[ws[i].fd] == ws[i].event
  {
    assert ws[i].fd in WatchedBelow(ws, |ws|);
  }

  lemma {:induction false} WatchedCount(ws: Watches, n: nat)
    requires Valid(ws) && n <= |ws|
    ensures |WatchedBelow(ws, n)| <= n
    ensures |WatchedBelow(ws, n)| == n <==> forall i :: 0 <= i < n ==> ws[i].used
  {
    if n > 0 {
      WatchedCount(ws, n - 1);
      if ws[n - 1].used {
        assert WatchedBelow(ws, n) == WatchedBelow(ws, n - 1) + {ws[n - 1].fd};
        assert ws[n - 1].fd !in WatchedBelow(ws, n - 1);
      } else {
        assert WatchedBelow(ws, n) == WatchedBelow(ws, n - 1);
      }
    }
  }

  /** The map never has more than eight entries, and has eight exactly when no
      slot is free. */
  lemma FullExactly(ws: Watches)
    requires Valid(ws)
    ensures |MapOf(ws)| <= WATCH_COUNT
    ensures |MapOf(ws)| == WATCH_COUNT <==> FreeSlotFrom(ws, 0) == |ws|
  {
    WatchedCount(ws, |ws|);
    assert MapOf(ws).Keys == WatchedBelow(ws, |ws|);
  }

  lemma InMapExactly(ws: Watches, fd: int)
    requires Valid(ws)
    ensures fd in MapOf(ws) <==> SlotFrom(ws, fd, 0) < |ws|
  {
  }

  /** epoll_ctl on the slots. */
  function Control(ws: Watches, op: EpollOp, fd: int, event: Option<Event>): (Watches, EventFd.Reply) {
    match op
    case Add =>
      if event.None? then (ws, EventFd.Reply(-1, EINVAL))
      else if SlotFrom(ws, fd, 0) < |ws| then (ws, EventFd.Reply(-1, EEXIST))
      else
        var i := FreeSlotFrom(ws, 0);
        if i < |ws| then (ws[i := Watch(true, fd, event.value)], EventFd.Reply(0, 0))
        else (ws, EventFd.Reply(-1, ENOSPC))
    case Mod =>
      if event.None? then (ws, EventFd.Reply(-1, EINVAL))
      else
        var i := SlotFrom(ws, fd, 0);
        if i < |ws| then (ws[i := ws[i].(event := event.value)], EventFd.Reply(0, 0))
        else (ws, EventFd.Reply(-1, ENOENT))
    case Del =>
      var i := SlotFrom(ws, fd, 0);
      if i < |ws| then (ws[i := ws[i].(used := false)], EventFd.Reply(0, 0))
      else (ws, EventFd.Reply(-1, ENOENT))
    case OtherOp => (ws, EventFd.Reply(-1, EINVAL))
  }

  /** epoll_ctl on the map, with the errors as the map dictates them. */
  ghost function MapControl(m: map<int, Event>, op: EpollOp, fd: int, event: Option<Event>)
    : (map<int, Event>, EventFd.Reply)
  {
    if op.OtherOp? || (!op.Del? && event.None?) then (m, EventFd.Reply(-1, EINVAL))
    else if op.Add? then
      if fd in m then (m, EventFd.Reply(-1, EEXIST))
      else if |m| == WATCH_COUNT then (m, EventFd.Reply(-1, ENOSPC))
      else (m[fd := event.value], EventFd.Reply(0, 0))
    else if fd !in m then (m, EventFd.Reply(-1, ENOENT))
    else if op.Mod? then (m[fd := event.value], EventFd.Reply(0, 0))
    else (m - {fd}, EventFd.Reply(0, 0))
  }

  /** The slots refine the map. */
  lemma ControlRefines(ws: Watches, op: EpollOp, fd: int, event: Option<Event>)
    requires Valid(ws)
    ensures var (ws', reply) := Control(ws, op, fd, event);
      Valid(ws') && (MapOf(ws'), reply) == MapControl(MapOf(ws), op, fd, event)
  {
    FullExactly(ws);
    InMapExactly(ws, fd);
    var i, k := SlotFrom(ws, fd, 0), FreeSlotFrom(ws, 0);
    match op
    case Add =>
      if event.Some? && i == |ws| && k < |ws| {
        SlotSet(ws, k, fd, event.value);
      }
    case Mod =>
      if event.Some? && i < |ws| {
        SlotSet(ws, i, fd, event.value);
        assert ws[i].(event := event.value) == Watch(true, fd, event.value);
      }
    case Del =>
      if i < |ws| {
        SlotRemoved(ws, i);
      }
    case OtherOp =>
  }

  /** What is accepted, and why the rest is refused. */
  lemma ControlExact(ws: Watches, op: EpollOp, fd: int, event: Option<Event>)
    requires Valid(ws)
    ensures var (ws', reply) := Control(ws, op, fd, event); var m, m' := MapOf(ws), MapOf(ws');
      var refused := op.OtherOp? || (!op.Del? && event.None?);
      var accepted := !refused && if op.Add? then fd !in m && |m| < WATCH_COUNT else fd in m;
      && |m| <= WATCH_COUNT
      && if accepted then reply == EventFd.Reply(0, 0) && m' == if op.Del? then m - {fd} else m[fd := event.value]
         else
           && reply.result == -1 && m' == m
           && reply.errno == if refused then EINVAL else if !op.Add? then ENOENT
                             else if fd in m then EEXIST else ENOSPC
  {
    ControlRefines(ws, op, fd, event);
    FullExactly(ws);
  }

  /** The map by slots: a descriptor is watched exactly if some used slot names it, and
      then for the event of that slot. */
  lemma MapExact(ws: Watches, fd: int)
    requires Valid(ws)
    ensures fd in MapOf(ws) <==> exists i :: 0 <= i < |ws| && ws[i].used && ws[i].fd == fd
    ensures forall i :: 0 <= i < |ws| && ws[i].used && ws[i].fd == fd ==>
      fd in MapOf(ws) && MapOf(ws)[fd] == ws[i].event
  {
    forall i | 0 <= i < |ws| && ws[i].used && ws[i].fd == fd
      ensures fd in MapOf(ws) && MapOf(ws)[fd] == ws[i].event
    {
      SlotOf(ws, i);
    }
  }

  lemma SlotSet(ws: Watches, i: nat, fd: int, event: Event)
    requires Valid(ws) && i < |ws|
    requires if ws[i].used then ws[i].fd == fd else fd !in MapOf(ws)
    ensures var ws' := ws[i := Watch(true, fd, event)]; Valid(ws') && MapOf(ws') == MapOf(ws)[fd := event]
  {
    var ws' := ws[i := Watch(true, fd, event)];
    SlotSetValid(ws, i, fd, event);
    SlotOf(ws', i);
    SameElsewhere(ws, ws', i, fd);
    SameElsewhere(ws', ws, i, fd);
  }

  lemma SlotSetValid(ws: Watches, i: nat, fd: int, event: Event)
    requires Valid(ws) && i < |ws|
    requires if ws[i].used then ws[i].fd == fd else fd !in MapOf(ws)
    ensures Valid(ws[i := Watch(true, fd, event)])
  {
    forall j | 0 <= j < |ws| && ws[j].used && j != i
      ensures ws[j].fd != fd
    {
      SlotOf(ws, j);
    }
  }

  lemma SlotRemoved(ws: Watches, i: nat)
    requires Valid(ws) && i < |ws| && ws[i].used
    ensures var ws' := ws[i := ws[i].(used := false)]; Valid(ws') && MapOf(ws') == MapOf(ws) - {ws[i].fd}
  {
    var ws' := ws[i := ws[i].(used := false)];
    assert Valid(ws');
    SameElsewhere(ws, ws', i, ws[i].fd);
    SameElsewhere(ws', ws, i, ws[i].fd);
    assert SlotFrom(ws', ws[i].fd, 0) == |ws'| by {
      var j := SlotFrom(ws', ws[i].fd, 0);
      if j < |ws'| {
        SlotOf(ws, j);
        SlotOf(ws, i);
      }
    }
    InMapExactly(ws', ws[i].fd);
  }

  /** Tables that differ only in slot i agree about every other descriptor. */
  lemma SameElsewhere(ws: Watches, ws': Watches, i: nat, fd: int)
    requires Valid(ws) && Valid(ws') && i < |ws| && ws' == ws[i := ws'[i]]
    requires (ws[i].used ==> ws[i].fd == fd) && (ws'[i].used ==> ws'[i].fd == fd)
    ensures forall g :: g in MapOf(ws) && g != fd ==> g in MapOf(ws') && MapOf(ws')[g] == MapOf(ws)[g]
  {
    forall g | g in MapOf(ws) && g != fd
      ensures g in MapOf(ws') && MapOf(ws')[g] == MapOf(ws)[g]
    {
      var j :| 0 <= j < |ws| && ws[j].used && ws[j].fd == g;
      SlotOf(ws, j);
      SlotOf(ws', j);
    }
  }
}

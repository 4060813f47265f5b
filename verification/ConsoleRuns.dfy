/** Sequences of calls on standard input, and what one call leaves for the next. */
module ConsoleRuns {
  import opened Bytes
  import opened SerialLink
  import opened Descriptors
  import opened Serial
  import EventFd

  datatype Call =
    | GetcharCall
    | ReadvCall(iov: seq<EventFd.Buffer>)
    | PollCall(entries: seq<PollFd>, timeout: int, timerWorks: bool)

  /** One call; output is what it hands to its caller. */
  method Perform(console: Console, table: Table, call: Call) returns (blocked: bool, output: seq<byte>)
    requires console.Valid() && table.Valid()
    modifies console
    ensures console.Valid() && table.Valid()
    ensures console.link.out == old(console.link.out) + output
  {
    output := [];
    match call {
      case GetcharCall =>
        var c;
        blocked, c := console.Getchar();
        if !blocked {
          output := [c];
        }
      case ReadvCall(iov) =>
        var result;
        blocked, output, result := console.SerialReadv(iov);
      case PollCall(entries, timeout, timerWorks) =>
        var fds := new PollFd[|entries|](i requires 0 <= i < |entries| => entries[i]);
        var result;
        ghost var seen, before;
        blocked, result, seen, before := console.PollFds(table, fds, fds.Length, timeout, timerWorks);
    }
  }

  /** Over any sequence of calls, in any environment, what the callers get, in order,
      is what was sent from the first unread byte on: nothing is lost, repeated or
      reordered.  The sequence ends early at a call that never returns. */
  method Run(console: Console, table: Table, calls: seq<Call>) returns (blocked: bool, output: seq<byte>)
    requires console.Valid() && table.Valid()
    modifies console
    ensures console.Valid() && table.Valid()
    ensures console.link.out == old(console.link.out) + output
    ensures console.link.sent == old(console.link.out) + output + Unread(console.link)
    decreases |calls|
  {
    UnreadIsRest(console.link);
    blocked, output := false, [];
    if calls == [] {
      return;
    }
    blocked, output := Perform(console, table, calls[0]);
    UnreadIsRest(console.link);
    if !blocked {
      var rest;
      blocked, rest := Run(console, table, calls[1..]);
      output := output + rest;
    }
  }

  /** From the start, the output is a prefix of what has been sent. */
  method RunFromStart(script: seq<Stimulus>, calls: seq<Call>) returns (output: seq<byte>, sent: seq<byte>)
    ensures output <= sent
  {
    var console := new Console(script);
    var table := new Table();
    var blocked;
    blocked, output := Run(console, table, calls);
    sent := console.link.sent;
  }

  /** When poll has reported input, a readv that follows enters no wait and delivers. */
  method PollThenReadv(console: Console, table: Table, timeout: int, timerWorks: bool, iov: seq<EventFd.Buffer>)
    returns (reported: bool, bytes: seq<byte>, ghost waited: nat)
    requires console.Valid() && table.Valid()
    requires var i := FirstRoom(iov, 0); i < |iov| && !iov[i].isNull
    modifies console
    ensures console.Valid()
    ensures reported ==> waited == 0 && bytes != [] && console.link.out == old(console.link.out) + bytes
  {
    var fds := new PollFd[1](i => PollFd(STDIN, POLLIN, 0));
    var blocked, result;
    ghost var seen, before;
    blocked, result, seen, before := console.PollFds(table, fds, 1, timeout, timerWorks);
    reported, bytes, waited := !blocked && result > 0, [], 0;
    if reported {
      assert Scanned(PollFd(STDIN, POLLIN, 0), fds[0], seen[0], table.eventfds[..], before, console.link);
      ghost var waits := console.waits;
      blocked, bytes, result := console.SerialReadv(iov);
      waited := console.waits - waits;
    }
  }

  /** The condition under which poll leaves no timer running is exact: from any other
      state, in an environment that does nothing, some call leaves one running. */
  method LeaveTimerRunning(console: Console, table: Table)
    requires console.Valid() && table.Valid() && console.script == []
    requires console.timerRunning || (console.link.timer && console.link.head == console.link.tail)
    modifies console
    ensures console.Valid() && console.timerRunning
    ensures console.link.out == old(console.link).out
  {
    var fds := new PollFd[1](i => PollFd(STDIN, POLLIN, 0));
    var timeout := if console.timerRunning then 0 else 1;
    assert WatchesStdin(fds[..][0]);
    var blocked, result;
    ghost var seen, before;
    blocked, result, seen, before := console.PollFds(table, fds, 1, timeout, true);
  }

  /** Such a state arises, step by step: a poll finds the ring empty and arms the timer;
      a key ends its wait; the timer expires just before the second scan, which finds
      the key, so that stopping the timer comes too late; the key is read.  The next
      poll takes the old notification for its own expiry. */
  method StaleNotification(c: byte, table: Table) returns (console: Console)
    requires table.Valid()
    ensures fresh(console) && console.Valid() && console.timerRunning && console.link.out == [c]
  {
    console := new Console([]);
    console.Do(Observe);
    console.timerRunning := true;
    KeyThenExpiry(console, c);
    console.timerRunning := false;
    ReadKey(console, c);
    LeaveTimerRunning(console, table);
  }

  method KeyThenExpiry(console: Console, c: byte)
    requires console.Valid() && console.link == Start.(idle := true)
    modifies console`link, console`history
    ensures console.Valid() && console.link.head == 0 && console.link.tail == 1
    ensures console.link.timer && console.link.out == [] && console.link.sent == [c]
  {
    console.Do(Push(c));
    console.Do(Wake);
    console.Do(Expire);
  }

  method ReadKey(console: Console, c: byte)
    requires console.Valid() && console.link.head == 0 && console.link.tail == 1
    requires console.link.timer && console.link.out == [] && console.link.sent == [c]
    modifies console`link, console`history
    ensures console.Valid() && console.link.head == console.link.tail && console.link.timer && console.link.out == [c]
  {
    console.Do(Observe);
    console.Do(Fetch);
    console.Do(Advance);
  }
}

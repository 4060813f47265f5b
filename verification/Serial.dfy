/** The client side of standard input: blocking reads and poll, interleaved with
    an arbitrary environment.  The environment is a finite script of key strokes
    and timer ticks; before every shared access any number of its steps may
    happen.  A call that waits when the script has run out is reported as
    blocked. */
module Serial {
  import opened Errno
  import opened Bytes
  import opened SerialLink
  import opened Descriptors
  import EventFd

  const STDIN: int := 0
  const POLLIN: EventFd.Flags := 0x1
  const POLLOUT: EventFd.Flags := 0x4

  datatype Stimulus = Key(c: byte) | Tick

  datatype PollFd = PollFd(fd: int, events: EventFd.Flags, revents: EventFd.Flags)

  /** What only the environment may change between two steps of the client. */
  predicate EnvironmentOnly(l: Link, l': Link) {
    && l'.head == l.head && l'.out == l.out && l'.held == l.held
    && l'.idle == l.idle && l'.filled == l.filled
    && l.sent <= l'.sent && (l.serial ==> l'.serial)
  }

  /** What is the same as long as the environment does nothing: the ring and the
      pending notification. */
  predicate SameRing(l: Link, l': Link) {
    l'.head == l.head && l'.tail == l.tail && l'.sent == l.sent && l'.serial == l.serial && l'.timer == l.timer
  }

  /** The first buffer with room, or |iov|. */
  function FirstRoom(iov: seq<EventFd.Buffer>, from: nat): (i: nat)
    requires from <= |iov|
    ensures from <= i <= |iov|
    ensures i < |iov| ==> iov[i].len > 0
    ensures forall j :: from <= j < i ==> iov[j].len == 0
    decreases |iov| - from
  {
    if from == |iov| || iov[from].len != 0 then from else FirstRoom(iov, from + 1)
  }

  /** The events poll grants an entry whose descriptor was found readable or not. */
  function Granted(entry: PollFd, readable: bool): EventFd.Flags {
    if entry.fd < 0 then 0
    else (if readable && EventFd.Has(entry.events, POLLIN) then POLLIN else 0)
         + (if EventFd.Has(entry.events, POLLOUT) then POLLOUT else 0)
  }

  /** What a scan has established about an entry: what it grants, and what it saw.
      A stdin found readable stays so until the client consumes. */
  ghost predicate Scanned(entry: PollFd, entry': PollFd, seen: bool, es: seq<EventFd.EventFd>,
                          before: Link, now: Link)
  {
    && entry' == entry.(revents := Granted(entry, seen))
    && (entry.fd > STDIN ==> seen == Readable(es, entry.fd))
    && (entry.fd == STDIN ==> if seen then now.filled else now.idle && before.sent == now.out)
  }

  ghost predicate AllScanned(s: seq<PollFd>, s': seq<PollFd>, seen: seq<bool>, es: seq<EventFd.EventFd>,
                             before: Link, now: Link)
  {
    && |s| == |s'| == |seen|
    && forall i :: 0 <= i < |s| ==> Scanned(s[i], s'[i], seen[i], es, before, now)
  }

  lemma StaysScanned(s: seq<PollFd>, s': seq<PollFd>, seen: seq<bool>, es: seq<EventFd.EventFd>,
                     before: Link, now: Link, later: Link)
    requires AllScanned(s, s', seen, es, before, now) && EnvironmentOnly(now, later)
    ensures AllScanned(s, s', seen, es, before, later)
  {
  }

  /** An entry for stdin is granted POLLIN only when the ring holds input, which
      stays there until the client takes it. */
  lemma ReportedInputIsThere(entry: PollFd, entry': PollFd, seen: bool, es: seq<EventFd.EventFd>,
                             before: Link, now: Link)
    requires Scanned(entry, entry', seen, es, before, now) && Inv(now) && entry.fd == STDIN
    ensures EventFd.Has(entry'.revents, POLLIN) <==> seen && EventFd.Has(entry.events, POLLIN)
    ensures EventFd.Has(entry'.revents, POLLOUT) <==> EventFd.Has(entry.events, POLLOUT)
    ensures EventFd.Has(entry'.revents, POLLIN) ==> now.filled && Unread(now) != []
  {
    if now.filled {
      EmptyExactly(now);
      Distance(now);
    }
  }

  function CountReady(s: seq<PollFd>): nat {
    if s == [] then 0 else CountReady(s[..|s| - 1]) + if s[|s| - 1].revents != 0 then 1 else 0
  }

  /** What poll answers for one entry, told on the tables and the ring: nothing for a
      negative descriptor; output whenever asked for; input, if asked for, always on a
      descriptor that is no eventfd, on an eventfd if its counter is not zero, and on
      stdin only if the ring holds some, which it did not when the scan began if none
      is reported. */
  ghost predicate Answers(entry: PollFd, answer: PollFd, es: seq<EventFd.EventFd>, before: Link, now: Link) {
    var input, output := EventFd.Has(answer.revents, POLLIN), EventFd.Has(answer.revents, POLLOUT);
    && answer.fd == entry.fd && answer.events == entry.events
    && answer.revents == (if input then 1 else 0) + (if output then 4 else 0)
    && (entry.fd < 0 ==> !input && !output)
    && (entry.fd >= 0 ==> (output <==> EventFd.Has(entry.events, POLLOUT)))
    && (input ==> EventFd.Has(entry.events, POLLIN))
    && (entry.fd > 0 && EventFd.Has(entry.events, POLLIN) ==>
          (input <==> forall k :: 0 <= k < |es| && es[k].used && es[k].fd == entry.fd ==> es[k].counter > 0))
    && (entry.fd == 0 && EventFd.Has(entry.events, POLLIN) ==>
          if input then now.head != now.tail else before.sent == now.out)
  }

  ghost predicate AllAnswer(s: seq<PollFd>, s': seq<PollFd>, es: seq<EventFd.EventFd>, before: Link, now: Link) {
    |s| == |s'| && forall i :: 0 <= i < |s| ==> Answers(s[i], s'[i], es, before, now)
  }

  lemma ScannedAnswers(s: seq<PollFd>, s': seq<PollFd>, seen: seq<bool>, es: seq<EventFd.EventFd>,
                       before: Link, now: Link)
    requires AllScanned(s, s', seen, es, before, now) && Placed(es) && Inv(now)
    ensures AllAnswer(s, s', es, before, now)
  {
    forall i | 0 <= i < |s|
      ensures Answers(s[i], s'[i], es, before, now)
    {
      ScannedAnswer(s[i], s'[i], seen[i], es, before, now);
    }
  }

  lemma ScannedAnswer(entry: PollFd, answer: PollFd, seen: bool, es: seq<EventFd.EventFd>, before: Link, now: Link)
    requires Scanned(entry, answer, seen, es, before, now) && Placed(es) && Inv(now)
    ensures Answers(entry, answer, es, before, now)
  {
    ReadableExactly(es, entry.fd);
  }

  lemma ReadableExactly(es: seq<EventFd.EventFd>, fd: int)
    requires Placed(es)
    ensures Readable(es, fd) <==> forall k :: 0 <= k < |es| && es[k].used && es[k].fd == fd ==> es[k].counter > 0
  {
    forall k | 0 <= k < |es| && es[k].used && es[k].fd == fd
      ensures FindEvent(es, fd, 0) == k
    {
      SameEntry(es, fd, k);
    }
  }

  /** Apart from input on stdin, no entry has anything to report. */
  ghost predicate Idle(s: seq<PollFd>, es: seq<EventFd.EventFd>) {
    forall i :: 0 <= i < |s| && s[i].fd >= 0 ==>
      && !EventFd.Has(s[i].events, POLLOUT)
      && (s[i].fd > 0 && EventFd.Has(s[i].events, POLLIN) ==>
            exists k :: 0 <= k < |es| && es[k].used && es[k].fd == s[i].fd && es[k].counter == 0)
  }

  lemma NothingMeansIdle(s: seq<PollFd>, s': seq<PollFd>, seen: seq<bool>, es: seq<EventFd.EventFd>,
                         before: Link, now: Link)
    requires AllScanned(s, s', seen, es, before, now) && Placed(es) && Inv(now) && CountReady(s') == 0
    ensures Idle(s, es)
  {
    NothingReady(s');
    ScannedAnswers(s, s', seen, es, before, now);
    forall i | 0 <= i < |s| && s[i].fd >= 0
      ensures !EventFd.Has(s[i].events, POLLOUT)
      ensures s[i].fd > 0 && EventFd.Has(s[i].events, POLLIN) ==>
        exists k :: 0 <= k < |es| && es[k].used && es[k].fd == s[i].fd && es[k].counter == 0
    {
      assert Answers(s[i], s'[i], es, before, now);
    }
  }

  /** Clearing the revents changes nothing that poll looks at. */
  lemma SameButRevents(s: seq<PollFd>, cleared: seq<PollFd>)
    requires |s| == |cleared| && forall i :: 0 <= i < |s| ==> cleared[i] == s[i].(revents := 0)
    ensures WatchesInput(cleared) <==> WatchesInput(s)
    ensures forall es :: Idle(cleared, es) <==> Idle(s, es)
    ensures forall es :: Silent(cleared, es, false) <==> Silent(s, es, false)
  {
  }

  /** The final entries, against those the caller passed. */
  lemma Answered(s: seq<PollFd>, cleared: seq<PollFd>, s': seq<PollFd>, seen: seq<bool>, es: seq<EventFd.EventFd>,
                 before: Link, now: Link, blocked: bool)
    requires Placed(es) && Inv(now) && |s| == |cleared|
    requires forall i :: 0 <= i < |s| ==> cleared[i] == s[i].(revents := 0)
    requires !blocked ==> AllScanned(cleared, s', seen, es, before, now)
    ensures !blocked ==> AllScanned(s, s', seen, es, before, now)
    ensures !blocked ==> AllAnswer(s, s', es, before, now)
    ensures CountReady(s') == |Reporting(s')|
  {
    CountIsCardinality(s');
    if !blocked {
      ScannedAnswers(s, s', seen, es, before, now);
    }
  }

  function Reporting(s: seq<PollFd>): set<int> {
    set i | 0 <= i < |s| && s[i].revents != 0
  }

  lemma {:induction false} CountIsCardinality(s: seq<PollFd>)
    ensures CountReady(s) == |Reporting(s)|
  {
    if s != [] {
      var t, n := s[..|s| - 1], |s| - 1;
      CountIsCardinality(t);
      assert Reporting(s) == if s[n].revents != 0 then Reporting(t) + {n} else Reporting(t);
    }
  }

  predicate WatchesStdin(entry: PollFd) {
    entry.fd == STDIN && EventFd.Has(entry.events, POLLIN)
  }

  predicate WatchesInput(s: seq<PollFd>) {
    exists i :: 0 <= i < |s| && WatchesStdin(s[i])
  }

  /** No entry has anything to report when the ring does or does not hold input. */
  ghost predicate Silent(s: seq<PollFd>, es: seq<EventFd.EventFd>, input: bool) {
    forall i :: 0 <= i < |s| ==> Granted(s[i], if s[i].fd == STDIN then input else Readable(es, s[i].fd)) == 0
  }

  /** What a scan that counted ready entries tells about the link it began with. */
  lemma ScanFacts(s: seq<PollFd>, s': seq<PollFd>, seen: seq<bool>, es: seq<EventFd.EventFd>, before: Link, now: Link)
    requires AllScanned(s, s', seen, es, before, now) && Inv(before) && Inv(now) && before.out == now.out && Placed(es)
    ensures CountReady(s') == 0 ==> Idle(s, es)
    ensures SameRing(before, now) && Silent(s, es, before.head != before.tail) ==> CountReady(s') == 0
    ensures CountReady(s') == 0 && WatchesInput(s) ==> before.sent == before.out
  {
    if SameRing(before, now) && Silent(s, es, before.head != before.tail) {
      QuietScan(s, s', seen, es, before, now);
    }
    if CountReady(s') == 0 {
      NothingMeansIdle(s, s', seen, es, before, now);
    }
    if CountReady(s') == 0 && WatchesInput(s) {
      NothingMeansEmpty(s, s', seen, es, before, now);
    }
  }

  /** While the environment does nothing, a scan reports what is there. */
  lemma QuietScan(s: seq<PollFd>, s': seq<PollFd>, seen: seq<bool>, es: seq<EventFd.EventFd>, before: Link, now: Link)
    requires AllScanned(s, s', seen, es, before, now)
    requires Inv(before) && Inv(now) && SameRing(before, now) && before.out == now.out
    requires Silent(s, es, before.head != before.tail)
    ensures CountReady(s') == 0
  {
    EmptyExactly(before);
    EmptyExactly(now);
    forall i | 0 <= i < |s|
      ensures s'[i].revents == 0
    {
      assert Scanned(s[i], s'[i], seen[i], es, before, now);
    }
    AllZero(s');
  }

  lemma {:induction false} AllZero(s: seq<PollFd>)
    requires forall i :: 0 <= i < |s| ==> s[i].revents == 0
    ensures CountReady(s) == 0
  {
    if s != [] {
      AllZero(s[..|s| - 1]);
    }
  }

  /** A scan that finds nothing for a watched stdin began on an empty ring. */
  lemma NothingMeansEmpty(s: seq<PollFd>, s': seq<PollFd>, seen: seq<bool>, es: seq<EventFd.EventFd>,
                          before: Link, now: Link)
    requires AllScanned(s, s', seen, es, before, now) && Inv(before) && before.out == now.out
    requires CountReady(s') == 0 && WatchesInput(s)
    ensures before.sent == before.out
  {
    NothingReady(s');
  }

  lemma {:induction false} AllowedAppend(l: Link, run: seq<Event>, e: Event)
    requires InRange(l) && Allowed(l, run) && Enabled(After(l, run), e)
    ensures Allowed(l, run + [e]) && After(l, run + [e]) == Apply(After(l, run), e)
    decreases |run|
  {
    if run == [] {
      assert run + [e] == [e] && [e][1..] == [];
    } else {
      AllowedAppend(Apply(l, run[0]), run[1..], e);
      assert (run + [e])[1..] == run[1..] + [e];
    }
  }

  class Console {
    var link: Link
    var script: seq<Stimulus>
    /** The one-shot timer of this component is running. */
    var timerRunning: bool
    var errno: int
    ghost var history: seq<Event>
    /** Bookkeeping of the timer: how often it was armed and stopped, and how
        often an expiry was acted on. */
    ghost var arms: nat
    ghost var stops: nat
    ghost var expiries: nat
    /** What had been sent when an expiry was last acted on. */
    ghost var sentAtExpiry: seq<byte>
    /** How many waits have been entered. */
    ghost var waits: nat

    /** The state of the link is always the outcome of an allowed run. */
    ghost predicate Valid()
      reads this
    {
      Allowed(Start, history) && link == After(Start, history) && Inv(link)
    }

    constructor (script: seq<Stimulus>)
      ensures Valid() && link == Start && this.script == script && !timerRunning
    {
      StartInv();
      link := Start;
      this.script := script;
      timerRunning, errno := false, 0;
      history := [];
      arms, stops, expiries, sentAtExpiry, waits := 0, 0, 0, [], 0;
    }

    method Do(e: Event)
      requires Valid() && Enabled(link, e)
      modifies this`link, this`history
      ensures Valid() && link == Apply(old(link), e)
    {
      AllowedAppend(Start, history, e);
      ApplyKeeps(link, e);
      link := Apply(link, e);
      history := history + [e];
    }

    /** The next step of the environment.  A key typed into a full ring is lost;
        a tick counts only while the timer runs. */
    method Stimulate()
      requires Valid() && script != []
      modifies this`link, this`history, this`script, this`timerRunning
      ensures Valid() && EnvironmentOnly(old(link), link) && script == old(script)[1..]
      ensures old(link).timer ==> link.timer
      ensures old(timerRunning) || !timerRunning
      ensures (link.timer && !old(link).timer) == (old(timerRunning) && !timerRunning && !old(link).timer)
    {
      match script[0] {
        case Key(c) =>
          if (link.tail + 1) % RING != link.head {
            Do(Push(c));
          }
        case Tick =>
          if timerRunning {
            Do(Expire);
            timerRunning := false;
          }
      }
      script := script[1..];
    }

    /** Any number of environment steps. */
    method Interfere()
      requires Valid()
      modifies this`link, this`history, this`script, this`timerRunning
      ensures Valid() && EnvironmentOnly(old(link), link) && |script| <= |old(script)|
      ensures |script| == |old(script)| ==> link == old(link) && timerRunning == old(timerRunning)
      ensures old(link).timer ==> link.timer
      ensures old(timerRunning) || !timerRunning
      ensures !old(link).timer ==> (link.timer <==> old(timerRunning) && !timerRunning)
    {
      var n: nat :| n <= |script|;
      while n > 0
        invariant n <= |script| <= |old(script)|
        invariant |script| == |old(script)| ==> link == old(link) && timerRunning == old(timerRunning)
        invariant Valid() && EnvironmentOnly(old(link), link)
        invariant old(link).timer ==> link.timer
        invariant old(timerRunning) || !timerRunning
        invariant !old(link).timer ==> (link.timer <==> old(timerRunning) && !timerRunning)
      {
        Stimulate();
        n := n - 1;
      }
    }

    /** seL4_Wait.  It may be entered only with the guarantee that input already
        in the ring has its notification pending; it returns the badge and clears
        it, or reports that no notification will ever come. */
    method Wait() returns (blocked: bool, timerBadge: bool)
      requires Valid() && link.idle
      modifies this`link, this`history, this`script, this`timerRunning, this`waits
      ensures Valid() && waits == old(waits) + 1
      ensures blocked ==> EnvironmentOnly(old(link), link) && script == [] && link.head == link.tail
      ensures blocked ==> !old(link).serial && !old(link).timer
      ensures !blocked ==>
        && link.head == old(link).head && link.out == old(link).out && link.held == old(link).held
        && link.filled == old(link).filled && old(link).sent <= link.sent && !link.idle && !link.timer
        && (|script| < |old(script)| || ((old(link).serial || old(link).timer) && |script| == |old(script)|))
        && !link.serial
      ensures |script| <= |old(script)|
      ensures |script| == |old(script)| ==>
        link.tail == old(link).tail && link.sent == old(link).sent && timerRunning == old(timerRunning)
      ensures !blocked ==> (timerBadge ==> old(link).timer || (old(timerRunning) && !timerRunning))
      ensures old(timerRunning) || !timerRunning
      ensures !blocked && (old(link).timer || (old(timerRunning) && !timerRunning)) ==> timerBadge
    {
      timerBadge := false;
      waits := waits + 1;
      Interfere();
      while !link.serial && !link.timer
        invariant Valid() && EnvironmentOnly(old(link), link) && |script| <= |old(script)| && waits == old(waits) + 1
        invariant old(link).timer ==> link.timer
        invariant link.timer ==> old(link).timer || (old(timerRunning) && !timerRunning)
        invariant old(timerRunning) || !timerRunning
        invariant old(timerRunning) && !timerRunning ==> link.timer
        invariant |script| == |old(script)| ==> link == old(link) && timerRunning == old(timerRunning)
        decreases |script|
      {
        if script == [] {
          return true, false;
        }
        Stimulate();
      }
      Interfere();
      blocked, timerBadge := false, link.timer;
      Do(Wake);
    }

    /** One comparison of head with tail. */
    method HasInput() returns (input: bool)
      requires Valid()
      modifies this`link, this`history, this`script, this`timerRunning
      ensures Valid() && |script| <= |old(script)|
      ensures |script| == |old(script)| ==> SameRing(old(link), link) && timerRunning == old(timerRunning)
      ensures link.head == old(link).head && link.out == old(link).out && old(link).sent <= link.sent
      ensures link.held == old(link).held && (old(link).idle ==> link.idle)
      ensures old(link).filled ==> link.filled && input
      ensures input ==> link.filled && link.head != link.tail
      ensures !input ==> link.idle && link.head == link.tail && link.sent == link.out
      ensures old(link).timer ==> link.timer
      ensures old(timerRunning) || !timerRunning
      ensures !old(link).timer ==> (link.timer <==> old(timerRunning) && !timerRunning)
    {
      Interfere();
      input := link.head != link.tail;
      EmptyExactly(link);
      Do(Observe);
    }

    /** serial_take: load the byte at head, then advance head. */
    method Take() returns (c: byte)
      requires Valid() && link.filled
      modifies this`link, this`history, this`script, this`timerRunning
      ensures Valid() && |script| <= |old(script)|
      ensures link.out == old(link).out + [c]
    {
      Interfere();
      Do(Fetch);
      c := link.held.value;
      Interfere();
      Do(Advance);
    }

    method Getchar() returns (blocked: bool, c: byte)
      requires Valid()
      modifies this`link, this`history, this`script, this`timerRunning, this`waits
      ensures Valid()
      ensures !blocked ==> link.out == old(link).out + [c]
      ensures blocked ==> link.out == old(link).out && link.head == link.tail && script == []
      ensures old(link).filled ==> !blocked && waits == old(waits)
    {
      c := 0;
      var input := HasInput();
      while !input
        invariant Valid() && link.out == old(link).out
        invariant old(link).filled ==> input && waits == old(waits)
        invariant if input then link.filled else link.idle
        decreases |script|, if link.serial || link.timer then 1 else 0
      {
        var badge;
        blocked, badge := Wait();
        if blocked {
          return;
        }
        input := HasInput();
      }
      c := Take();
      blocked := false;
    }
  
    /** readv on stdin: wait for one byte, then hand over what else is there, up
        to the first buffer's size; stop short only on finding the ring empty. */
    method SerialReadv(iov: seq<EventFd.Buffer>) returns (blocked: bool, bytes: seq<byte>, result: int)
      requires Valid()
      modifies this`link, this`history, this`script, this`timerRunning, this`errno, this`waits
      ensures Valid()
      ensures var i := FirstRoom(iov, 0);
        if i == |iov| then !blocked && bytes == [] && result == 0 && link == old(link)
        else if iov[i].isNull then !blocked && bytes == [] && result == -1 && errno == EFAULT && link == old(link)
        else if blocked then bytes == [] && link.out == old(link).out && link.head == link.tail && script == []
        else
          && link.out == old(link).out + bytes
          && 1 <= result == |bytes| <= iov[i].len
          && (result < iov[i].len ==> link.head == link.tail)
      // Input that poll has reported is there: no wait is entered.
      ensures old(link).filled ==> !blocked && waits == old(waits)
    {
      blocked, bytes, result := false, [], 0;
      var i := 0;
      while i < |iov| && iov[i].len == 0
        invariant 0 <= i <= |iov| && FirstRoom(iov, 0) == FirstRoom(iov, i)
      {
        i := i + 1;
      }
      if i == |iov| {
        return;
      }
      if iov[i].isNull {
        errno := EFAULT;
        return false, [], -1;
      }
      var c;
      blocked, c := Getchar();
      if blocked {
        return;
      }
      bytes := [c];
      var more := true;
      while more && |bytes| < iov[i].len
        invariant Valid() && 1 <= |bytes| <= iov[i].len && link.out == old(link).out + bytes
        invariant old(link).filled ==> waits == old(waits)
        invariant !more ==> link.head == link.tail
        decreases iov[i].len - |bytes|, more
      {
        more := HasInput();
        if more {
          c := Take();
          bytes := bytes + [c];
        }
      }
      result := |bytes|;
    }

    /** The body of the scan for one entry whose revents are zero. */
    method ScanEntry(table: Table, entry: PollFd) returns (entry': PollFd, readable: bool)
      requires Valid() && table.Valid() && entry.revents == 0
      modifies this`link, this`history, this`script, this`timerRunning
      ensures Valid() && |script| <= |old(script)|
      ensures |script| == |old(script)| ==> SameRing(old(link), link) && timerRunning == old(timerRunning)
      ensures link.out == old(link).out && old(link).sent <= link.sent && link.head == old(link).head
      ensures (old(link).filled ==> link.filled) && (old(link).idle ==> link.idle)
      ensures old(link).timer ==> link.timer
      ensures old(timerRunning) || !timerRunning
      ensures !old(link).timer ==> (link.timer <==> old(timerRunning) && !timerRunning)
      ensures Scanned(entry, entry', readable, table.eventfds[..], old(link), link)
    {
      entry', readable := entry, false;
      if entry.fd < 0 {
        return;
      }
      if entry.fd == STDIN {
        readable := HasInput();
      } else {
        var k := table.EventFromFd(entry.fd);
        readable := if k < table.eventfds.Length then table.eventfds[k].counter > 0 else true;
      }
      if readable && EventFd.Has(entry.events, POLLIN) {
        entry' := entry'.(revents := EventFd.With(entry'.revents, POLLIN));
      }
      if EventFd.Has(entry.events, POLLOUT) {
        entry' := entry'.(revents := EventFd.With(entry'.revents, POLLOUT));
      }
    }

    /** The scan loop of poll, over entries whose revents are all zero. */
    method ScanEntries(table: Table, fds: array<PollFd>) returns (ready: nat, ghost seen: seq<bool>)
      requires Valid() && table.Valid()
      requires forall i :: 0 <= i < fds.Length ==> fds[i].revents == 0
      modifies this`link, this`history, this`script, this`timerRunning, fds
      ensures Valid() && |script| <= |old(script)|
      ensures |script| == |old(script)| ==> SameRing(old(link), link) && timerRunning == old(timerRunning)
      ensures link.out == old(link).out && old(link).sent <= link.sent
      ensures old(link).timer ==> link.timer
      ensures old(timerRunning) || !timerRunning
      ensures !old(link).timer ==> (link.timer <==> old(timerRunning) && !timerRunning)
      ensures |seen| == fds.Length && ready == CountReady(fds[..])
      ensures forall i :: 0 <= i < fds.Length ==>
        Scanned(old(fds[i]), fds[i], seen[i], table.eventfds[..], old(link), link)
    {
      ready, seen := 0, [];
      var i := 0;
      while i < fds.Length
        invariant 0 <= i <= fds.Length && |seen| == i
        invariant Valid() && |script| <= |old(script)|
        invariant |script| == |old(script)| ==> SameRing(old(link), link) && timerRunning == old(timerRunning)
        invariant link.out == old(link).out && old(link).sent <= link.sent
        invariant old(link).timer ==> link.timer
        invariant old(timerRunning) || !timerRunning
        invariant !old(link).timer ==> (link.timer <==> old(timerRunning) && !timerRunning)
        invariant ready == CountReady(fds[..i])
        invariant forall j :: i <= j < fds.Length ==> fds[j] == old(fds[j])
        invariant forall j :: 0 <= j < i ==>
          Scanned(old(fds[j]), fds[j], seen[j], table.eventfds[..], old(link), link)
      {
        var entry, readable := ScanEntry(table, fds[i]);
        fds[i] := entry;
        if entry.revents != 0 {
          ready := ready + 1;
        }
        seen := seen + [readable];
        assert fds[..i + 1][..i] == fds[..i];
        i := i + 1;
      }
      assert fds[..i] == fds[..];
    }

    /** One scan of poll.  If it finds nothing, every revents is still zero, and a
        watched stdin was empty. */
    method Scan(table: Table, fds: array<PollFd>) returns (ready: nat, ghost seen: seq<bool>)
      requires Valid() && table.Valid()
      requires forall i :: 0 <= i < fds.Length ==> fds[i].revents == 0
      modifies this`link, this`history, this`script, this`timerRunning, fds
      ensures Valid() && |script| <= |old(script)|
      ensures |script| == |old(script)| ==> SameRing(old(link), link) && timerRunning == old(timerRunning)
      ensures link.out == old(link).out && old(link).sent <= link.sent
      ensures old(link).timer ==> link.timer
      ensures old(timerRunning) || !timerRunning
      ensures !old(link).timer ==> (link.timer <==> old(timerRunning) && !timerRunning)
      ensures ready == CountReady(fds[..])
      ensures AllScanned(old(fds[..]), fds[..], seen, table.eventfds[..], old(link), link)
      ensures ready == 0 ==> fds[..] == old(fds[..])
      ensures ready == 0 ==> Idle(fds[..], table.eventfds[..])
      ensures ready == 0 && WatchesInput(fds[..]) ==> link.idle && old(link).sent == old(link).out
      // While the environment does nothing, silence stays silence.
      ensures |script| == |old(script)| && Silent(old(fds[..]), table.eventfds[..], old(link.head != link.tail)) ==>
        ready == 0
    {
      ready, seen := ScanEntries(table, fds);
      ScanFacts(old(fds[..]), fds[..], seen, table.eventfds[..], old(link), link);
      if ready == 0 {
        NothingReady(fds[..]);
        forall k | 0 <= k < fds.Length
          ensures fds[k] == old(fds[k])
        {
          assert fds[..][k].revents == 0;
        }
      }
    }

    /** poll: null fds with a non-zero count is refused.  blocked reports a wait
        that nothing will end.  seen and before describe the last scan: what it
        found for each entry, and the link as it was when it began. */
    method PollFds(table: Table, fds: array?<PollFd>, nfds: nat, timeout: int, timerWorks: bool)
      returns (blocked: bool, result: int, ghost seen: seq<bool>, ghost before: Link)
      requires Valid() && table.Valid() && (fds != null ==> nfds == fds.Length)
      modifies this`link, this`history, this`script, this`timerRunning, fds
      modifies this`arms, this`stops, this`expiries, this`sentAtExpiry, this`waits
      ensures Valid() && link.out == old(link).out && old(link).sent <= link.sent
      ensures fds == null && nfds != 0 ==> !blocked && result == -EFAULT && link == old(link)
      // The last scan decides: every entry and the count.
      ensures fds != null && !blocked ==>
        result == CountReady(fds[..]) && AllScanned(old(fds[..]), fds[..], seen, table.eventfds[..], before, link)
      ensures fds != null && !blocked ==>
        && result == |Reporting(fds[..])|
        && AllAnswer(old(fds[..]), fds[..], table.eventfds[..], before, link)
      // While nothing is reported, all revents are zero.
      ensures fds != null && blocked ==> forall i :: 0 <= i < fds.Length ==> fds[i] == old(fds[i]).(revents := 0)
      // Nothing ready is reported only when the caller did not want to wait longer.
      ensures fds != null && !blocked && result == 0 ==>
        || timeout == 0 || !old(WatchesInput(fds[..]))
        || expiries == old(expiries) + 1 || (timeout > 0 && !timerWorks)
      ensures blocked ==> script == [] && link.head == link.tail
      // The timer: armed at most once, and matched by one stop or one expiry; the
      // last scan began after the expiry.
      ensures old(arms) <= arms <= old(arms) + 1 && (timeout <= 0 ==> arms == old(arms))
      ensures !blocked ==> arms - old(arms) == (stops - old(stops)) + (expiries - old(expiries))
      ensures stops >= old(stops) && expiries >= old(expiries)
      ensures expiries > old(expiries) ==> sentAtExpiry <= before.sent
      // A timer is left running only if one was running before, or if this call armed
      // it and took the notification of an earlier one for its expiry.
      ensures !blocked && timerRunning ==>
        old(timerRunning) || (arms > old(arms) && old(link).timer && old(link).head == old(link).tail)
      // In an environment that does nothing, exactly a timer that ran or was armed, and
      // was not stopped, is left running; a stale notification leads there.
      ensures old(script) == [] && !blocked ==>
        (timerRunning <==> (old(timerRunning) || arms > old(arms)) && stops == old(stops))
      ensures fds != null && timeout > 0 && timerWorks && old(Stale(fds[..], table.eventfds[..])) ==>
        !blocked && result == 0 && timerRunning
      ensures fds == null || timeout == 0 || !old(WatchesInput(fds[..])) ==>
        !blocked && waits == old(waits) && arms == old(arms) && stops == old(stops)
      // A wait is entered only for input on stdin, and only if there was nothing at all
      // to report; a call that would have to wait for it returns nothing only at once,
      // after an expiry, or for want of a timer.
      ensures blocked || waits > old(waits) ==>
        && fds != null && Idle(old(fds[..]), table.eventfds[..]) && old(link).sent == old(link).out
        && exists i :: 0 <= i < fds.Length && fds[i].fd == 0 && EventFd.Has(fds[i].events, POLLIN)
      ensures fds != null && !blocked && result == 0 && timeout != 0
              && (exists i :: 0 <= i < fds.Length && fds[i].fd == 0 && EventFd.Has(fds[i].events, POLLIN)) ==>
        timeout > 0 && (expiries == old(expiries) + 1 || !timerWorks)
    {
      blocked, result, seen, before := false, 0, [], link;
      if fds == null {
        result := if nfds != 0 then -EFAULT else 0;
        return;
      }
      ghost var entries := fds[..];
      var watching := Reset(fds);
      ghost var cleared := fds[..];
      SameButRevents(entries, cleared);
      blocked, result, seen, before := PollLoop(table, fds, timeout, timerWorks, watching);
      Answered(entries, cleared, fds[..], seen, table.eventfds[..], before, link, blocked);
    }

    /** The second loop of poll, on entries whose revents are zero. */
    method PollLoop(table: Table, fds: array<PollFd>, timeout: int, timerWorks: bool, watching: bool)
      returns (blocked: bool, result: int, ghost seen: seq<bool>, ghost before: Link)
      requires Valid() && table.Valid()
      requires forall i :: 0 <= i < fds.Length ==> fds[i].revents == 0
      requires watching <==> WatchesInput(fds[..])
      modifies this`link, this`history, this`script, this`timerRunning, fds
      modifies this`arms, this`stops, this`expiries, this`sentAtExpiry, this`waits
      ensures Valid() && link.out == old(link).out && old(link).sent <= link.sent
      ensures !blocked ==> result == CountReady(fds[..])
      ensures !blocked ==> AllScanned(old(fds[..]), fds[..], seen, table.eventfds[..], before, link)
      ensures blocked ==> fds[..] == old(fds[..]) && script == [] && link.head == link.tail
      ensures !blocked && result == 0 ==>
        timeout == 0 || !watching || expiries == old(expiries) + 1 || (timeout > 0 && !timerWorks)
      ensures old(arms) <= arms <= old(arms) + 1 && (timeout <= 0 ==> arms == old(arms))
      ensures !blocked ==> arms - old(arms) == (stops - old(stops)) + (expiries - old(expiries))
      ensures stops >= old(stops) && expiries >= old(expiries)
      ensures expiries > old(expiries) ==> !blocked && sentAtExpiry <= before.sent
      ensures !blocked && timerRunning ==>
        old(timerRunning) || (arms > old(arms) && old(link).timer && old(link).head == old(link).tail)
      ensures old(script) == [] && !blocked ==>
        (timerRunning <==> (old(timerRunning) || arms > old(arms)) && stops == old(stops))
      ensures timeout > 0 && timerWorks && old(Stale(fds[..], table.eventfds[..])) ==>
        !blocked && result == 0 && timerRunning
      ensures timeout == 0 || !watching ==>
        !blocked && waits == old(waits) && arms == old(arms) && stops == old(stops)
      ensures blocked || waits > old(waits) ==>
        Idle(old(fds[..]), table.eventfds[..]) && watching && old(link).sent == old(link).out
    {
      EmptyExactly(link);
      var armed, expired;
      blocked, armed, expired, result, seen, before := Await(table, fds, timeout, timerWorks, watching);
      if !blocked {
        ghost var s, now := fds[..], link;
        StopTimer(armed);
        StaysScanned(old(fds[..]), s, seen, table.eventfds[..], before, now, link);
      }
    }

    /** The loop itself: scan and wait until there is a result.  The timer may still be
        armed then. */
    method Await(table: Table, fds: array<PollFd>, timeout: int, timerWorks: bool, watching: bool)
      returns (blocked: bool, armed: bool, expired: bool, ready: nat, ghost seen: seq<bool>, ghost before: Link)
      requires Valid() && table.Valid()
      requires forall i :: 0 <= i < fds.Length ==> fds[i].revents == 0
      requires watching <==> WatchesInput(fds[..])
      modifies this`link, this`history, this`script, this`timerRunning, fds
      modifies this`arms, this`expiries, this`sentAtExpiry, this`waits
      ensures Valid() && link.out == old(link).out && old(link).sent <= link.sent
      ensures !blocked ==> ready == CountReady(fds[..])
      ensures !blocked ==> AllScanned(old(fds[..]), fds[..], seen, table.eventfds[..], before, link)
      ensures blocked ==> fds[..] == old(fds[..]) && script == [] && link.head == link.tail
      ensures !blocked && ready == 0 ==> timeout == 0 || !watching || expired || (timeout > 0 && !timerWorks)
      ensures TimerAccount(old(arms), old(expiries), armed, expired)
      ensures armed || expired ==> timeout > 0 && watching && old(link).sent == old(link).out
      ensures expired ==> !blocked && sentAtExpiry <= before.sent
      ensures !blocked && !old(timerRunning) && !old(link).timer ==> TimerMatches(armed)
      ensures timerRunning ==> old(timerRunning) || armed || expired
      ensures |script| <= |old(script)|
      ensures old(script) == [] ==> (timerRunning <==> old(timerRunning) || armed || expired)
      ensures timeout > 0 && timerWorks && old(Stale(fds[..], table.eventfds[..])) ==> expired && ready == 0
      ensures timeout == 0 || !watching ==> !blocked && waits == old(waits)
      ensures blocked || waits > old(waits) ==>
        Idle(old(fds[..]), table.eventfds[..]) && watching && old(link).sent == old(link).out
    {
      blocked, armed, expired, ready, seen, before := false, false, false, 0, [], link;
      ghost var entries, es := fds[..], table.eventfds[..];
      ghost var stale := timeout > 0 && timerWorks && Stale(entries, es);
      var again := true;
      while again
        invariant Valid() && link.out == old(link).out && old(link).sent <= link.sent
        invariant |script| <= |old(script)| && table.eventfds[..] == es
        invariant again ==> fds[..] == entries && !blocked && (expired ==> sentAtExpiry <= link.sent)
        invariant armed || expired ==> timeout > 0 && watching && old(link).sent == old(link).out
        invariant timerRunning ==> old(timerRunning) || armed || expired
        invariant old(script) == [] ==> (timerRunning <==> old(timerRunning) || armed || expired)
        invariant TimerAccount(old(arms), old(expiries), armed, expired)
        invariant !blocked && !old(timerRunning) && !old(link).timer ==> TimerMatches(armed)
        // What has been found out when the loop ends.
        invariant blocked ==> fds[..] == entries && script == [] && link.head == link.tail && !expired
        invariant !again && !blocked ==>
          && ready == CountReady(fds[..]) && AllScanned(entries, fds[..], seen, es, before, link)
          && (ready == 0 ==> timeout == 0 || !watching || expired || (timeout > 0 && !timerWorks))
          && (expired ==> sentAtExpiry <= before.sent)
        invariant stale ==> !armed && !blocked && if again then link.head == link.tail && (expired || link.timer)
                                                  else expired && ready == 0
        invariant timeout == 0 || !watching ==> !blocked && waits == old(waits)
        invariant blocked || waits > old(waits) ==> Idle(entries, es) && watching && old(link).sent == old(link).out
        decreases again, |script|, if link.serial || link.timer then 1 else 0
      {
        again, blocked, armed, expired, ready, seen, before :=
          Turn(table, fds, timeout, timerWorks, watching, armed, expired);
      }
    }

    /** One turn of the loop: scan, and unless there is a result, wait. */
    method Turn(table: Table, fds: array<PollFd>, timeout: int, timerWorks: bool, watching: bool,
                armed: bool, expired: bool)
      returns (again: bool, blocked: bool, armed': bool, expired': bool,
               ready: nat, ghost seen: seq<bool>, ghost before: Link)
      requires Valid() && table.Valid()
      requires forall i :: 0 <= i < fds.Length ==> fds[i].revents == 0
      requires watching <==> WatchesInput(fds[..])
      requires !(armed && expired) && (armed || expired ==> timeout > 0 && watching)
      modifies this`link, this`history, this`script, this`timerRunning, fds
      modifies this`arms, this`expiries, this`sentAtExpiry, this`waits
      ensures Valid() && link.out == old(link).out && old(link).sent <= link.sent && |script| <= |old(script)|
      // A result.
      ensures !again && !blocked ==>
        ready == CountReady(fds[..]) && AllScanned(old(fds[..]), fds[..], seen, table.eventfds[..], before, link)
      ensures !again && !blocked ==>
        && before == old(link) && armed' == armed && expired' == expired
        && arms == old(arms) && expiries == old(expiries) && sentAtExpiry == old(sentAtExpiry) && waits == old(waits)
        && (timerRunning ==> old(timerRunning)) && (|script| == |old(script)| ==> timerRunning == old(timerRunning))
      ensures !again && !blocked && ready == 0 ==>
        timeout == 0 || !watching || expired || (timeout > 0 && !timerWorks)
      // A wait.
      ensures again || blocked ==>
        && fds[..] == old(fds[..]) && watching && timeout != 0 && !expired && old(link).sent == old(link).out
        && (armed' || expired' <==> timeout > 0) && !(armed' && expired')
        && arms == old(arms) + (if timeout > 0 && !armed then 1 else 0)
        && expiries == old(expiries) + (if expired' then 1 else 0)
        && (timerRunning ==> old(timerRunning) || arms > old(arms))
        && (|script| == |old(script)| ==> (timerRunning <==> old(timerRunning) || arms > old(arms)))
      ensures blocked ==> !again && script == [] && link.head == link.tail && !expired' && !old(link).timer
      ensures again ==> !link.serial && !link.timer && (expired' ==> sentAtExpiry == link.sent)
      ensures again ==>
        |script| < |old(script)| || ((old(link).serial || old(link).timer) && |script| == |old(script)|)
      ensures again && old(link).timer && timeout > 0 ==> expired'
      ensures again || blocked ==> Idle(fds[..], table.eventfds[..])
      ensures again && |script| == |old(script)| ==> link.head == link.tail
      ensures !blocked && old(TimerMatches(armed)) ==> TimerMatches(armed')
      // While the environment does nothing, silence stays silence.
      ensures |script| == |old(script)| && old(link.head == link.tail) ==>
        Silent(old(fds[..]), table.eventfds[..], false) ==> ready == 0
    {
      before := link;
      armed', expired', again, blocked := armed, expired, false, false;
      ready, seen := Scan(table, fds);
      if ready > 0 || expired || timeout == 0 || !watching {
        return;
      }
      ghost var now := link;
      var refused;
      refused, blocked, armed', expired' := ArmAndWait(timeout, timerWorks, armed);
      if refused {
        StaysScanned(old(fds[..]), fds[..], seen, table.eventfds[..], before, now, link);
      }
      again := !refused && !blocked;
    }

    /** Stop the timer if it is armed. */
    method StopTimer(armed: bool)
      requires Valid()
      modifies this`link, this`history, this`script, this`timerRunning, this`stops
      ensures Valid() && EnvironmentOnly(old(link), link)
      ensures if armed then !timerRunning && stops == old(stops) + 1
              else timerRunning == old(timerRunning) && stops == old(stops)
    {
      if armed {
        Interfere();
        timerRunning := false;
        stops := stops + 1;
      }
    }

    /** The script has ended, the notification of an earlier timer is pending, and poll
        on these entries has only stdin to wait for. */
    ghost predicate Stale(entries: seq<PollFd>, es: seq<EventFd.EventFd>)
      reads this
    {
      && script == [] && link.timer && link.head == link.tail
      && WatchesInput(entries) && Silent(entries, es, false)
    }

    ghost predicate TimerAccount(arms0: int, expiries0: int, armed: bool, expired: bool)
      reads this
    {
      && arms == arms0 + (if armed || expired then 1 else 0)
      && expiries == expiries0 + (if expired then 1 else 0)
      && !(armed && expired)
    }

    /** While armed, either the timer runs or its tick is pending; otherwise
        neither. */
    ghost predicate TimerMatches(armed: bool)
      reads this
    {
      if armed then timerRunning != link.timer else !timerRunning && !link.timer
    }

    /** Arm the timer if need be, wait, and read the badge; without a timer to wait
        for, refuse. */
    method ArmAndWait(timeout: int, timerWorks: bool, armed: bool)
      returns (refused: bool, blocked: bool, armed': bool, expired: bool)
      requires Valid() && link.idle && (armed ==> timeout > 0)
      modifies this`link, this`history, this`script, this`timerRunning, this`arms, this`expiries, this`sentAtExpiry
      modifies this`waits
      ensures Valid() && link.out == old(link).out && old(link).sent <= link.sent && link.head == old(link).head
      ensures refused <==> timeout > 0 && !armed && !timerWorks
      ensures refused ==> !blocked && !armed' && !expired && EnvironmentOnly(old(link), link)
      ensures refused ==> waits == old(waits) && sentAtExpiry == old(sentAtExpiry)
      ensures blocked ==> script == [] && link.head == link.tail && !expired
      ensures !refused ==> (armed' || expired <==> timeout > 0)
      ensures expired ==> sentAtExpiry == link.sent
      ensures !refused && !blocked ==> !link.serial && !link.timer
      ensures !refused && !blocked ==>
        |script| < |old(script)| || ((old(link).serial || old(link).timer) && |script| == |old(script)|)
      ensures TimerAccount(old(arms) - (if armed then 1 else 0), old(expiries), armed', expired)
      ensures !blocked && old(TimerMatches(armed)) ==> TimerMatches(armed')
      ensures timerRunning ==> old(timerRunning) || arms > old(arms)
      ensures !refused && old(link).timer ==> !blocked && (timeout > 0 ==> expired)
      ensures |script| <= |old(script)|
      ensures |script| == |old(script)| ==>
        link.tail == old(link).tail && (timerRunning <==> old(timerRunning) || arms > old(arms))
    {
      refused, blocked, armed', expired := false, false, armed, false;
      if timeout > 0 && !armed {
        Interfere();
        if !timerWorks {
          refused := true;
          return;
        }
        timerRunning, armed' := true, true;
        arms := arms + 1;
      }
      var badge;
      blocked, badge := Wait();
      if !blocked && armed' && badge {
        expired, armed' := true, false;
        expiries := expiries + 1;
        sentAtExpiry := link.sent;
      }
    }

    /** The first loop of poll. */
    method Reset(fds: array<PollFd>) returns (watching: bool)
      modifies fds
      ensures forall i :: 0 <= i < fds.Length ==> fds[i] == old(fds[i]).(revents := 0)
      ensures watching <==> WatchesInput(fds[..])
    {
      watching := false;
      var i := 0;
      while i < fds.Length
        invariant 0 <= i <= fds.Length
        invariant forall j :: 0 <= j < i ==> fds[j] == old(fds[j]).(revents := 0)
        invariant forall j :: i <= j < fds.Length ==> fds[j] == old(fds[j])
        invariant watching <==> exists j :: 0 <= j < i && WatchesStdin(fds[j])
      {
        fds[i] := fds[i].(revents := 0);
        if WatchesStdin(fds[i]) {
          watching := true;
        }
        i := i + 1;
      }
    }
  }

  /** A count of zero means that no entry has anything to report. */
  lemma {:induction false} NothingReady(s: seq<PollFd>)
    requires CountReady(s) == 0
    ensures forall i :: 0 <= i < |s| ==> s[i].revents == 0
  {
    if s != [] {
      NothingReady(s[..|s| - 1]);
    }
  }
}

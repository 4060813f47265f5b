/** The link between SerialServer (the producer) and this component (the client):
    a shared ring of 4088 bytes and a notification.  Every shared access is one
    event, so a run is any interleaving of the two sides.

    The producer's contract is assumed: it stores at tail and never into a full
    ring, and it signals when head differs from the head it saw at its previous
    signal.  Its store, comparison and signal form one event. */
module SerialLink {
  import opened Options
  import opened Bytes

  const RING: nat := 4088

  /** head, tail and buf are the shared memory; last is the producer's memory of
      head (-1 before the first signal); serial and timer are the bits of the
      pending notification.  idle: the client has found the ring empty since it
      last waited or consumed.  filled: it has found input since it last consumed.
      held: the byte it has loaded but not yet consumed.  sent and out are the
      histories of stored and consumed bytes, and mark is |out| as it was at the
      last signal. */
  datatype Link = Link(
    head: nat, tail: nat, buf: seq<byte>, last: int, serial: bool, timer: bool,
    idle: bool, filled: bool, held: Option<byte>,
    sent: seq<byte>, out: seq<byte>, mark: int)

  datatype Event = Push(c: byte) | Expire | Observe | Fetch | Advance | Wake

  const Start: Link := Link(0, 0, Zeros(RING), -1, false, false, false, false, None, [], [], -1)

  predicate Enabled(l: Link, e: Event) {
    match e
    case Push(c) => (l.tail + 1) % RING != l.head
    case Expire => true
    case Observe => true
    case Fetch => l.filled
    case Advance => l.held.Some?
    case Wake => l.idle && (l.serial || l.timer)
  }

  /** The indices stay inside the array. */
  predicate InRange(l: Link) {
    |l.buf| == RING && l.head < RING && l.tail < RING
  }

  function Apply(l: Link, e: Event): (l': Link)
    requires Enabled(l, e) && InRange(l)
    ensures InRange(l')
  {
    match e
    case Push(c) =>
      var stored := l.(buf := l.buf[l.tail := c], tail := (l.tail + 1) % RING, sent := l.sent + [c]);
      if l.last != l.head then stored.(serial := true, last := l.head, mark := |l.out|) else stored
    case Expire => l.(timer := true)
    case Observe => if l.head == l.tail then l.(idle := true) else l.(filled := true)
    case Fetch => l.(held := Some(l.buf[l.head]))
    case Advance =>
      l.(head := (l.head + 1) % RING, out := l.out + [l.held.value], held := None, filled := false, idle := false)
    case Wake => l.(serial := false, timer := false, idle := false)
  }

  /** Distances are kept unwrapped in the histories: head and tail are the numbers
      of bytes consumed and stored, modulo the ring size. */
  ghost predicate Inv(l: Link) {
    && |l.buf| == RING
    && |l.out| <= |l.sent| <= |l.out| + RING - 1
    && l.head == |l.out| % RING && l.tail == |l.sent| % RING
    && l.out == l.sent[..|l.out|]
    && (forall j :: |l.out| <= j < |l.sent| ==> l.buf[j % RING] == l.sent[j])
    && MarkInv(l)
    && (l.filled ==> l.head != l.tail)
    && (l.held.Some? ==> l.filled && l.held.value == l.buf[l.head])
    && (l.idle && l.head != l.tail ==> l.serial)
  }

  /** What the producer remembers: fewer than a ring of bytes have been stored
      since the consumption count it last signalled at. */
  ghost predicate MarkInv(l: Link) {
    if l.mark == -1 then l.last == -1 && l.sent == []
    else 0 <= l.mark <= |l.out| && l.mark < |l.sent| <= l.mark + RING - 1 && l.last == l.mark % RING
  }

  lemma SameSlot(i: nat, j: nat)
    requires i <= j < i + RING && i % RING == j % RING
    ensures i == j
  {
  }

  lemma EmptyExactly(l: Link)
    requires Inv(l)
    ensures l.head == l.tail <==> |l.out| == |l.sent|
    ensures (l.tail + 1) % RING == l.head <==> |l.sent| == |l.out| + RING - 1
  {
    if l.head == l.tail {
      SameSlot(|l.out|, |l.sent|);
    }
    if (l.tail + 1) % RING == l.head {
      assert (|l.sent| + 1) % RING == (|l.out| + RING) % RING;
      SameSlot(|l.sent| + 1, |l.out| + RING);
    }
  }

  /** The comparison modulo the ring size never mistakes a changed head for an
      unchanged one. */
  lemma ComparisonExact(l: Link)
    requires Inv(l)
    ensures l.last != l.head <==> l.mark != |l.out|
  {
    if l.mark != -1 && l.last == l.head {
      SameSlot(l.mark, |l.out|);
    }
  }

  lemma NextSlot(n: nat)
    ensures (n % RING + 1) % RING == (n + 1) % RING
  {
  }

  lemma PushKeeps(l: Link, c: byte)
    requires Inv(l) && Enabled(l, Push(c))
    ensures Inv(Apply(l, Push(c)))
  {
    EmptyExactly(l);
    ComparisonExact(l);
    NextSlot(|l.sent|);
    var l' := Apply(l, Push(c));
    forall j | |l'.out| <= j < |l'.sent|
      ensures l'.buf[j % RING] == l'.sent[j]
    {
      if j < |l.sent| {
        if j % RING == l.tail {
          SameSlot(j, |l.sent|);
        }
      }
    }
    EmptyAfterPush(l, l');
  }

  lemma EmptyAfterPush(l: Link, l': Link)
    requires |l'.sent| == |l.sent| + 1 && l'.out == l.out && |l.out| <= |l.sent| < |l.out| + RING - 1
    requires l'.head == |l'.out| % RING && l'.tail == |l'.sent| % RING
    ensures l'.head != l'.tail
  {
    if l'.head == l'.tail {
      SameSlot(|l'.out|, |l'.sent|);
    }
  }

  lemma AdvanceKeeps(l: Link)
    requires Inv(l) && Enabled(l, Advance)
    ensures Inv(Apply(l, Advance))
  {
    EmptyExactly(l);
    NextSlot(|l.out|);
    var l' := Apply(l, Advance);
    var n := |l.out|;
    assert l.buf[n % RING] == l.sent[n];
    assert l'.out == l.sent[..n + 1];
  }

  lemma ApplyKeeps(l: Link, e: Event)
    requires Inv(l) && Enabled(l, e)
    ensures Inv(Apply(l, e))
  {
    match e
    case Push(c) => PushKeeps(l, c);
    case Advance => AdvanceKeeps(l);
    case Expire =>
    case Observe =>
    case Fetch =>
    case Wake =>
  }

  // ----- runs -----

  predicate Allowed(l: Link, run: seq<Event>)
    requires InRange(l)
    decreases |run|
  {
    run != [] ==> Enabled(l, run[0]) && Allowed(Apply(l, run[0]), run[1..])
  }

  function After(l: Link, run: seq<Event>): (r: Link)
    requires InRange(l) && Allowed(l, run)
    ensures InRange(r)
    decreases |run|
  {
    if run == [] then l else After(Apply(l, run[0]), run[1..])
  }

  /** The invariant holds in every state that a run reaches. */
  lemma {:induction false} ReachableInv(l: Link, run: seq<Event>)
    requires Inv(l) && Allowed(l, run)
    ensures Inv(After(l, run))
    decreases |run|
  {
    if run != [] {
      ApplyKeeps(l, run[0]);
      ReachableInv(Apply(l, run[0]), run[1..]);
    }
  }

  lemma StartInv()
    ensures Inv(Start)
  {
  }

  /** The bytes from head to tail, around the ring. */
  function Unread(l: Link): (s: seq<byte>)
    requires |l.buf| == RING
    ensures |s| == (l.tail - l.head) % RING
  {
    seq((l.tail - l.head) % RING, j requires 0 <= j => l.buf[(l.head + j) % RING])
  }

  /** First in, first out: whatever the interleaving, the bytes stored are the
      bytes consumed followed by those still in the ring. */
  lemma Fifo(run: seq<Event>)
    requires Allowed(Start, run)
    ensures var l := After(Start, run); l.sent == l.out + Unread(l)
  {
    StartInv();
    ReachableInv(Start, run);
    UnreadIsRest(After(Start, run));
  }

  lemma UnreadIsRest(l: Link)
    requires Inv(l)
    ensures l.sent == l.out + Unread(l)
  {
    Distance(l);
    forall j: nat | j < |l.sent| - |l.out|
      ensures Unread(l)[j] == l.sent[|l.out| + j]
    {
      UnreadByte(l, j);
    }
  }

  lemma Distance(l: Link)
    requires Inv(l)
    ensures (l.tail - l.head) % RING == |l.sent| - |l.out|
  {
  }

  lemma UnreadByte(l: Link, j: nat)
    requires Inv(l) && j < |l.sent| - |l.out| == (l.tail - l.head) % RING
    ensures Unread(l)[j] == l.sent[|l.out| + j]
  {
    assert (l.head + j) % RING == (|l.out| + j) % RING;
    assert l.buf[(|l.out| + j) % RING] == l.sent[|l.out| + j];
  }

  /** No lost wakeup: a client that has found the ring empty and is waiting, or
      about to, has a notification pending as soon as the ring is not empty. */
  lemma NoLostWakeup(run: seq<Event>)
    requires Allowed(Start, run)
    ensures var l := After(Start, run); l.idle && l.head != l.tail ==> Enabled(l, Wake)
    ensures var l := After(Start, run);
      l.idle && !Enabled(l, Wake) ==> forall c :: Enabled(l, Push(c)) && Enabled(Apply(l, Push(c)), Wake)
  {
    StartInv();
    ReachableInv(Start, run);
    var l := After(Start, run);
    if l.idle && !Enabled(l, Wake) {
      EmptyExactly(l);
      forall c: byte
        ensures Enabled(l, Push(c)) && Enabled(Apply(l, Push(c)), Wake)
      {
        PushKeeps(l, c);
        EmptyExactly(Apply(l, Push(c)));
      }
    }
  }

  // ----- why the producer's step has to be atomic -----

  /** The two halves of a push, had the producer been interruptible. */
  function StoreHalf(l: Link, c: byte): Link
    requires InRange(l)
  {
    l.(buf := l.buf[l.tail := c], tail := (l.tail + 1) % RING, sent := l.sent + [c])
  }

  function SignalHalf(l: Link): Link {
    if l.last != l.head then l.(serial := true, last := l.head, mark := |l.out|) else l
  }

  function Consume(l: Link): Link
    requires InRange(l) && l.head != l.tail
  {
    Apply(Apply(Apply(l, Observe), Fetch), Advance)
  }

  function SleepAndWake(l: Link): Link
    requires InRange(l) && l.head == l.tail && l.serial
  {
    Apply(Apply(l, Observe), Wake)
  }

  /** If the client drains the ring between the two halves, the late comparison
      remembers a head that has no byte behind it; the next byte then goes
      unsignalled, and the client waits on a ring that is not empty. */
  lemma SplitPushLosesWakeup(a: byte, b: byte, c: byte)
    ensures var l1 := Consume(SignalHalf(StoreHalf(Start, a)));
      var l2 := SleepAndWake(Consume(StoreHalf(l1, b)));
      var l3 := Apply(SleepAndWake(SignalHalf(l2)), Observe);
      var l4 := SignalHalf(StoreHalf(l3, c));
      l4.idle && l4.head != l4.tail && !Enabled(l4, Wake)
  {
  }
}

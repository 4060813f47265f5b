/** One fake eventfd: a 64-bit counter with a semaphore mode. */
module EventFd {
  import opened Errno
  import opened Bits

  /** A C int used as a set of bits. */
  type Flags = x: int | 0 <= x < 0x1_0000_0000

  const EFD_SEMAPHORE: Flags := 0x1
  const O_CLOEXEC: Flags := 0x8_0000
  const FD_CLOEXEC: Flags := 0x1

  /** Test, set and clear the bit of value bit, a power of two. */
  predicate Has(flags: Flags, bit: Flags)
    requires bit > 0
  {
    flags / bit % 2 == 1
  }

  function With(flags: Flags, bit: Flags): int
    requires bit > 0
  {
    if Has(flags, bit) then flags else flags + bit
  }

  function Without(flags: Flags, bit: Flags): int
    requires bit > 0
  {
    if Has(flags, bit) then flags - bit else flags
  }

  function WithCloexec(flags: Flags, on: bool): Flags {
    if on then With(flags, O_CLOEXEC) else Without(flags, O_CLOEXEC)
  }

  datatype EventFd = EventFd(used: bool, fd: int, flags: Flags, counter: u64)

  /** A buffer handed to read or readv. */
  datatype Buffer = Buffer(isNull: bool, len: nat)

  datatype Command = GetFl | SetFl | GetFd | SetFd | DupFd | DupFdCloexec | OtherCommand

  /** result is what the call returns; errno is meaningful when it is -1. */
  datatype Reply = Reply(result: int, errno: int)

  predicate Semaphore(e: EventFd) {
    Has(e.flags, EFD_SEMAPHORE)
  }

  /** read: the values delivered (at most one), with the reply. */
  function Read(e: EventFd, b: Buffer): (EventFd, seq<u64>, Reply) {
    if b.isNull || b.len < 8 then (e, [], Reply(-1, EINVAL))
    else if e.counter == 0 then (e, [], Reply(-1, EAGAIN))
    else if Semaphore(e) then (e.(counter := e.counter - 1), [1], Reply(8, 0))
    else (e.(counter := 0), [e.counter], Reply(8, 0))
  }

  /** readv from the given buffer on, when total bytes have been delivered. */
  function ReadvFrom(e: EventFd, iov: seq<Buffer>, total: nat): (EventFd, seq<u64>, Reply)
    decreases |iov|
  {
    if iov == [] then (e, [], Reply(total, 0))
    else if iov[0].len == 0 then ReadvFrom(e, iov[1..], total)
    else
      var (e1, vs, reply) := Read(e, iov[0]);
      if reply.result < 0 then (e1, vs, if total > 0 then Reply(total, 0) else reply)
      else if iov[0].len != 8 then (e1, vs, Reply(total + 8, 0))
      else
        var (e2, ws, last) := ReadvFrom(e1, iov[1..], total + 8);
        (e2, vs + ws, last)
  }

  function Readv(e: EventFd, iov: seq<Buffer>): (EventFd, seq<u64>, Reply) {
    ReadvFrom(e, iov, 0)
  }

  function Write(e: EventFd, b: Buffer, value: u64): (EventFd, Reply) {
    if b.isNull || b.len < 8 then (e, Reply(-1, EINVAL))
    else (e.(counter := (e.counter + value) % WORD), Reply(8, 0))
  }

  function FlagsAfter(flags: Flags, cmd: Command, arg: Flags): Flags {
    match cmd
    case SetFl => arg
    case SetFd => WithCloexec(flags, Has(arg, FD_CLOEXEC))
    case _ => flags
  }

  function FcntlReply(flags: Flags, cmd: Command): Reply {
    match cmd
    case GetFl => Reply(flags, 0)
    case SetFl => Reply(0, 0)
    case GetFd => Reply(if Has(flags, O_CLOEXEC) then FD_CLOEXEC else 0, 0)
    case SetFd => Reply(0, 0)
    case DupFd => Reply(-1, EMFILE)
    case DupFdCloexec => Reply(-1, EMFILE)
    case OtherCommand => Reply(-1, EINVAL)
  }

  // ----- flags -----

  lemma FlagPowers()
    ensures Pow2(19) == O_CLOEXEC && Pow2(20) == 2 * O_CLOEXEC && Pow2(32) == 0x1_0000_0000
  {
    assert Pow2(8) == 256;
    Pow2Sum(8, 8);
    Pow2Sum(16, 3);
    Pow2Sum(16, 16);
  }

  lemma FlagBit(k: nat)
    requires k < 32
    ensures 0 < Pow2(k) < 0x1_0000_0000
  {
    FlagPowers();
    Pow2Monotone(k, 32);
  }

  lemma ClearedBit(flags: Flags)
    requires Has(flags, O_CLOEXEC)
    ensures flags >= O_CLOEXEC && !Has(flags - O_CLOEXEC, O_CLOEXEC)
  {
  }

  lemma CloexecSet(flags: Flags, on: bool)
    ensures Has(WithCloexec(flags, on), O_CLOEXEC) == on
  {
  }

  lemma Shifted(x: int, b: int, q: int)
    requires b > 0
    ensures (x + q * b) / b == x / b + q
  {
    var d, r := x / b, x % b;
    assert x + q * b == (d + q) * b + r by {
      assert (d + q) * b == d * b + q * b;
    }
    DivModUnique(x + q * b, b, d + q, r);
  }

  lemma BitBelow(x: nat, b: nat, h: nat, c: nat)
    requires b > 0 && c == 2 * (h * b)
    ensures x / b % 2 == (x + c) / b % 2
  {
    assert c == (2 * h) * b;
    Shifted(x, b, 2 * h);
  }

  lemma BitAbove(x: nat, t: nat, c: nat)
    requires t > 0 && c > 0 && x / c % 2 == 0
    ensures t * (2 * c) > 0 && x / (t * (2 * c)) == (x + c) / (t * (2 * c))
  {
    SameHalf(x, c);
    Quotients(x, 2 * c, t);
    Quotients(x + c, 2 * c, t);
  }

  lemma SameHalf(x: nat, c: nat)
    requires c > 0 && x / c % 2 == 0
    ensures (x + c) / (2 * c) == x / (2 * c)
  {
    var m, r := x / c / 2, x % c;
    assert x == m * (2 * c) + r by {
      assert x == (x / c) * c + r && x / c == 2 * m;
      assert (2 * m) * c == m * (2 * c);
    }
    DivModUnique(x, 2 * c, m, r);
    DivModUnique(x + c, 2 * c, m, r + c);
  }

  /** A number whose bit 19 is clear has the same other bits with and without it. */
  lemma OtherBit(low: nat, k: nat)
    requires low / O_CLOEXEC % 2 == 0 && k < 32 && k != 19
    ensures Pow2(k) > 0 && low / Pow2(k) % 2 == (low + O_CLOEXEC) / Pow2(k) % 2
  {
    FlagPowers();
    if k < 19 {
      Pow2Sum(18 - k, k);
      BitBelow(low, Pow2(k), Pow2(18 - k), O_CLOEXEC);
    } else {
      Pow2Sum(k - 20, 20);
      BitAbove(low, Pow2(k - 20), O_CLOEXEC);
    }
  }

  lemma Regrouped(s: nat, t: nat, u: nat, a: nat)
    ensures (s * t + u) * a == s * (t * a) + u * a
  {
  }

  lemma BelowProduct(u: nat, t: nat, a: nat, r: nat)
    requires u < t && r < a
    ensures u * a + r < t * a
  {
    ProductMonotone(u + 1, t, a);
    assert (u + 1) * a == u * a + a;
  }

  lemma QuotientIs(x: nat, a: nat, t: nat, q: nat, r: nat, s: nat, u: nat)
    requires x == q * a + r && r < a && q == s * t + u && u < t
    ensures t * a > 0 && x / (t * a) == s
  {
    Regrouped(s, t, u, a);
    BelowProduct(u, t, a, r);
    DivModUnique(x, t * a, s, u * a + r);
  }

  lemma Quotients(x: nat, a: nat, t: nat)
    requires a > 0 && t > 0
    ensures t * a > 0 && x / (t * a) == x / a / t
  {
    QuotientIs(x, a, t, x / a, x % a, x / a / t, x / a % t);
  }

  lemma CloexecElsewhere(flags: Flags, on: bool, k: nat)
    requires k < 32 && k != 19
    ensures Pow2(k) > 0 && WithCloexec(flags, on) / Pow2(k) % 2 == flags / Pow2(k) % 2
  {
    FlagBit(k);
    if Has(flags, O_CLOEXEC) && !on {
      ClearedBit(flags);
      OtherBit(flags - O_CLOEXEC, k);
    } else if !Has(flags, O_CLOEXEC) && on {
      OtherBit(flags, k);
    }
  }

  /** Setting or clearing close-on-exec is seen in that flag and in no other. */
  lemma CloexecExact(flags: Flags, on: bool, k: nat)
    requires k < 32
    ensures 0 < Pow2(k) < 0x1_0000_0000
    ensures Has(WithCloexec(flags, on), Pow2(k)) <==> if k == 19 then on else Has(flags, Pow2(k))
  {
    FlagBit(k);
    if k == 19 {
      FlagPowers();
      CloexecSet(flags, on);
    } else {
      CloexecElsewhere(flags, on, k);
    }
  }

  /** What fcntl does: F_SETFL is read back by F_GETFL, F_SETFD by F_GETFD, and neither
      disturbs the rest; the other commands leave the flags as they are. */
  lemma FcntlExact(flags: Flags, cmd: Command, arg: Flags, k: nat)
    requires k < 32
    ensures FcntlReply(FlagsAfter(flags, SetFl, arg), GetFl) == Reply(arg, 0)
    ensures FcntlReply(FlagsAfter(flags, SetFd, arg), GetFd) == Reply(arg % 2, 0)
    ensures 0 < Pow2(k) < 0x1_0000_0000 &&
      (Has(FlagsAfter(flags, SetFd, arg), Pow2(k)) <==> if k == 19 then arg % 2 == 1 else Has(flags, Pow2(k)))
    ensures cmd != SetFl && cmd != SetFd ==> FlagsAfter(flags, cmd, arg) == flags
    ensures FcntlReply(flags, SetFl) == FcntlReply(flags, SetFd) == Reply(0, 0)
    ensures FcntlReply(flags, DupFd) == FcntlReply(flags, DupFdCloexec) == Reply(-1, EMFILE)
    ensures FcntlReply(flags, OtherCommand) == Reply(-1, EINVAL)
  {
    CloexecExact(flags, Has(arg, FD_CLOEXEC), k);
  }

  // ----- conservation over a descriptor's lifetime -----

  datatype Op =
    | ReadOp(buffer: Buffer)
    | ReadvOp(iov: seq<Buffer>)
    | WriteOp(target: Buffer, value: u64)
    | FcntlOp(cmd: Command, arg: Flags)

  function Step(e: EventFd, op: Op): EventFd {
    match op
    case ReadOp(b) => Read(e, b).0
    case ReadvOp(iov) => Readv(e, iov).0
    case WriteOp(b, v) => Write(e, b, v).0
    case FcntlOp(cmd, arg) => e.(flags := FlagsAfter(e.flags, cmd, arg))
  }

  function Sum(vs: seq<u64>): nat {
    if vs == [] then 0 else vs[0] + Sum(vs[1..])
  }

  function DeliveredBy(e: EventFd, op: Op): nat {
    match op
    case ReadOp(b) => Sum(Read(e, b).1)
    case ReadvOp(iov) => Sum(Readv(e, iov).1)
    case _ => 0
  }

  /** What a call adds: the value, if the buffer holds one. */
  function WrittenBy(op: Op): nat {
    if op.WriteOp? && !op.target.isNull && op.target.len >= 8 then op.value else 0
  }

  function Final(e: EventFd, ops: seq<Op>): EventFd
    decreases |ops|
  {
    if ops == [] then e else Final(Step(e, ops[0]), ops[1..])
  }

  function Delivered(e: EventFd, ops: seq<Op>): nat
    decreases |ops|
  {
    if ops == [] then 0 else DeliveredBy(e, ops[0]) + Delivered(Step(e, ops[0]), ops[1..])
  }

  function Written(ops: seq<Op>): nat {
    if ops == [] then 0 else WrittenBy(ops[0]) + Written(ops[1..])
  }

  lemma {:induction false} SumAppend(vs: seq<u64>, ws: seq<u64>)
    ensures Sum(vs + ws) == Sum(vs) + Sum(ws)
  {
    if vs == [] {
      assert vs + ws == ws;
    } else {
      SumAppend(vs[1..], ws);
      assert (vs + ws)[1..] == vs[1..] + ws;
    }
  }

  /** A scatter read takes from the counter exactly what it delivers. */
  lemma {:induction false} ReadvTakes(e: EventFd, iov: seq<Buffer>, total: nat)
    ensures var (e', vs, reply) := ReadvFrom(e, iov, total); e.counter == e'.counter + Sum(vs)
    decreases |iov|
  {
    if iov != [] {
      if iov[0].len == 0 {
        ReadvTakes(e, iov[1..], total);
      } else {
        var (e1, vs, reply) := Read(e, iov[0]);
        ReadTakes(e, iov[0]);
        if reply.result >= 0 && iov[0].len == 8 {
          ReadvTakes(e1, iov[1..], total + 8);
          SumAppend(vs, ReadvFrom(e1, iov[1..], total + 8).1);
        }
      }
    }
  }

  lemma ReadTakes(e: EventFd, b: Buffer)
    ensures e.counter == Read(e, b).0.counter + Sum(Read(e, b).1)
  {
    assert Sum([1]) == 1 + Sum([]);
    assert Sum([e.counter]) == e.counter + Sum([]);
  }

  /** Over any mix of calls, whatever modes they run in, the initial value plus
      everything written equals everything delivered plus the counter, modulo
      2^64. */
  lemma {:induction false} EventConservation(e: EventFd, ops: seq<Op>)
    ensures (e.counter + Written(ops) - Delivered(e, ops) - Final(e, ops).counter) % WORD == 0
    decreases |ops|
  {
    if ops != [] {
      var e1 := Step(e, ops[0]);
      EventConservation(e1, ops[1..]);
      StepConserves(e, ops[0]);
      CongruencesAdd(e.counter + WrittenBy(ops[0]) - DeliveredBy(e, ops[0]) - e1.counter,
                     e1.counter + Written(ops[1..]) - Delivered(e1, ops[1..]) - Final(e, ops).counter);
    }
  }

  lemma CongruencesAdd(x: int, y: int)
    requires x % WORD == 0 && y % WORD == 0
    ensures (x + y) % WORD == 0
  {
  }

  lemma StepConserves(e: EventFd, op: Op)
    ensures (e.counter + WrittenBy(op) - DeliveredBy(e, op) - Step(e, op).counter) % WORD == 0
  {
    match op
    case ReadOp(b) => ReadTakes(e, b);
    case ReadvOp(iov) => ReadvTakes(e, iov, 0);
    case WriteOp(b, v) =>
    case FcntlOp(cmd, arg) =>
  }

  /** How many values the buffers can take before one stops the scatter read. */
  function Slots(iov: seq<Buffer>): nat {
    if iov == [] then 0
    else if iov[0].len == 0 then Slots(iov[1..])
    else if iov[0].isNull || iov[0].len < 8 then 0
    else if iov[0].len == 8 then 1 + Slots(iov[1..])
    else 1
  }

  /** How many values a scatter read delivers: the whole counter is one value, a
      semaphore gives tokens. */
  function Count(e: EventFd, iov: seq<Buffer>): nat {
    if Semaphore(e) then if e.counter < Slots(iov) then e.counter else Slots(iov)
    else if e.counter > 0 && Slots(iov) > 0 then 1 else 0
  }

  /** A scatter read, complete: the values, the counter that is left, the reply. */
  lemma {:induction false} ReadvExact(e: EventFd, iov: seq<Buffer>, total: nat)
    ensures var (e', vs, reply) := ReadvFrom(e, iov, total); var k := Count(e, iov);
      && |vs| == k && (forall i :: 0 <= i < k ==> vs[i] == if Semaphore(e) then 1 else e.counter)
      && e' == e.(counter := if Semaphore(e) then e.counter - k else if k == 1 then 0 else e.counter)
      && reply == if total + k > 0 then Reply(total + 8 * k, 0)
                  else if forall i :: 0 <= i < |iov| ==> iov[i].len == 0 then Reply(0, 0)
                  else if Slots(iov) == 0 then Reply(-1, EINVAL) else Reply(-1, EAGAIN)
    decreases |iov|
  {
    if iov != [] {
      if iov[0].len == 0 {
        ReadvExact(e, iov[1..], total);
        assert forall i :: 0 <= i < |iov| - 1 ==> iov[1..][i] == iov[i + 1];
      } else if !iov[0].isNull && iov[0].len == 8 && e.counter > 0 {
        ReadvExact(Read(e, iov[0]).0, iov[1..], total + 8);
      }
    }
  }

  /** In semaphore mode a scatter read over m whole buffers takes one token for
      each, as long as there are tokens. */
  lemma {:induction false} SemaphoreReadv(e: EventFd, iov: seq<Buffer>, total: nat)
    requires Semaphore(e)
    requires forall i :: 0 <= i < |iov| ==> iov[i] == Buffer(false, 8)
    ensures var (e', vs, reply) := ReadvFrom(e, iov, total); var k := if e.counter < |iov| then e.counter else |iov|;
      && |vs| == k && (forall i :: 0 <= i < k ==> vs[i] == 1)
      && e'.counter == e.counter - k
      && (total + k > 0 || iov == [] ==> reply == Reply(total + 8 * k, 0))
      && (total + k == 0 && iov != [] ==> reply == Reply(-1, EAGAIN))
    decreases |iov|
  {
    if iov != [] && e.counter > 0 {
      SemaphoreReadv(e.(counter := e.counter - 1), iov[1..], total + 8);
    }
  }

  /** Buffer i can hold a value and all before it are empty. */
  predicate FirstUsable(iov: seq<Buffer>, i: nat)
    requires i < |iov|
  {
    !iov[i].isNull && iov[i].len >= 8 && forall j :: 0 <= j < i ==> iov[j].len == 0
  }

  /** Without it, the first buffer that can hold a value gets everything. */
  lemma {:induction false} PlainReadv(e: EventFd, iov: seq<Buffer>)
    requires !Semaphore(e) && e.counter > 0
    requires exists i :: 0 <= i < |iov| && FirstUsable(iov, i)
    ensures var (e', vs, reply) := Readv(e, iov);
      vs == [e.counter] && e'.counter == 0 && reply == Reply(8, 0)
    decreases |iov|
  {
    if iov[0].len == 0 {
      var i :| 0 <= i < |iov| && FirstUsable(iov, i);
      assert FirstUsable(iov[1..], i - 1);
      PlainReadv(e, iov[1..]);
    } else if iov[0].len == 8 {
      EmptyReadv(e.(counter := 0), iov[1..], 8);
      assert [e.counter] + [] == [e.counter];
    }
  }

  lemma {:induction false} EmptyReadv(e: EventFd, iov: seq<Buffer>, total: nat)
    requires e.counter == 0 && total > 0
    ensures ReadvFrom(e, iov, total) == (e, [], Reply(total, 0))
    decreases |iov|
  {
    if iov != [] && iov[0].len == 0 {
      EmptyReadv(e, iov[1..], total);
    }
  }
}

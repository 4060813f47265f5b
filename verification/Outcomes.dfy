/** What every allocator call returns and what it leaves, told on the blocks, the
    free list and the offset alone: when a request is refused, which address it
    gets, and what happens to the list. */
module Outcomes {
  import opened Bits
  import opened Bytes
  import opened Allocator
  import opened Runs

  predicate Holds(b: Block, n: nat, a: nat)
    requires a > 0
  {
    n <= b.capacity && b.addr % a == 0
  }

  /** Position k of the free list is the first whose block holds the request. */
  ghost predicate FirstHolding(h: Heap, k: nat, n: nat, a: nat)
    requires ValidFree(h) && a > 0
  {
    && k < |h.free| && Holds(h.blocks[h.free[k]], n, a)
    && forall j :: 0 <= j < k ==> !Holds(h.blocks[h.free[j]], n, a)
  }

  /** An aligned address with room for a header below it. */
  predicate Above(h: Heap, p: nat, a: nat)
    requires a > 0
  {
    h.base + h.offset + HEADER <= p && p % a == 0
  }

  /** No listed block holds the request and every aligned address is too high. */
  ghost predicate NoRoom(h: Heap, n: nat, a: nat)
    requires ValidFree(h) && a > 0
  {
    && (forall k :: 0 <= k < |h.free| ==> !Holds(h.blocks[h.free[k]], n, a))
    && (forall p: nat :: Above(h, p, a) ==> h.base + ARENA_SIZE < p + n)
  }

  /** The address a request gets: none exactly if there is no room, otherwise that of
      the first listed block that holds it, or the lowest fresh one. */
  ghost predicate Serves(h: Heap, n: nat, a: nat, p: nat)
    requires ValidFree(h) && a > 0
  {
    && (p == 0 <==> NoRoom(h, n, a))
    && (forall k: nat :: FirstHolding(h, k, n, a) ==> p == h.blocks[h.free[k]].addr)
    && (p != 0 && (forall k :: 0 <= k < |h.free| ==> !Holds(h.blocks[h.free[k]], n, a)) ==>
          Above(h, p, a) && forall q: nat :: Above(h, q, a) ==> p <= q)
  }

  /** How the layout changes with it: a listed block leaves its place in the list and
      records the size; a fresh one is appended and the offset moves to its end.  Of the
      served block only the bytes are left open. */
  ghost predicate Placed(h: Heap, g: Heap, n: nat, a: nat, p: nat)
    requires ValidFree(h) && a > 0
  {
    g.base == h.base && (FreshAt(h, g, n, a, p) || exists k: nat :: TakenAt(h, g, k, n, a))
  }

  ghost predicate FreshAt(h: Heap, g: Heap, n: nat, a: nat, p: nat) {
    && p >= h.base && g.offset == p + n - h.base && g.free == h.free && |g.blocks| == |h.blocks| + 1
    && (forall j :: 0 <= j < |h.blocks| ==> g.blocks[j] == h.blocks[j])
    && Fresh(g.blocks[|h.blocks|], p, n, a)
  }

  ghost predicate TakenAt(h: Heap, g: Heap, k: nat, n: nat, a: nat)
    requires ValidFree(h) && a > 0
  {
    && FirstHolding(h, k, n, a) && g.offset == h.offset && |g.blocks| == |h.blocks|
    && g.free == h.free[..k] + h.free[k + 1..]
    && (forall j :: 0 <= j < |h.blocks| && j != h.free[k] ==> g.blocks[j] == h.blocks[j])
    && Resized(h.blocks[h.free[k]], g.blocks[h.free[k]], n)
  }

  predicate Resized(b: Block, c: Block, n: nat) {
    c.addr == b.addr && c.capacity == b.capacity && c.align == b.align && c.size == n
  }

  predicate Fresh(b: Block, p: nat, n: nat, a: nat) {
    b.addr == p && b.capacity == b.size == n && b.align == a
  }

  // ----- the requests -----

  function Max(x: nat, y: nat): nat {
    if x < y then y else x
  }

  /** The call asks the arena for memory, if its arguments are good. */
  predicate Allocating(h: Heap, op: Op) {
    match op
    case MallocOp(n) => true
    case CallocOp(count, n) => true
    case ReallocOp(q, n) => q == 0 || (LiveAt(h, q) && n > h.blocks[IndexOf(h, q)].capacity)
    case MemalignOp(a, n) => true
    case AlignedOp(a, n) => true
    case MmapOp(length, image) => true
    case _ => false
  }

  ghost predicate BadArguments(op: Op) {
    match op
    case CallocOp(count, n) => count * n >= WORD
    case MemalignOp(a, n) => a < 8 || !Power(a)
    case AlignedOp(a, n) => !Power(a)
    case MmapOp(length, image) => length == 0 || length > WORD - PAGE
    case _ => false
  }

  /** Bytes and alignment asked for; a mapping takes the least number of whole pages. */
  function Size(op: Op): nat {
    match op
    case MallocOp(n) => Max(n, 1)
    case CallocOp(count, n) => Max(count * n, 1)
    case ReallocOp(q, n) => Max(n, 1)
    case MemalignOp(a, n) => Max(n, 1)
    case AlignedOp(a, n) => Max(n, 1)
    case MmapOp(length, image) => RoundUp(length, PAGE)
    case _ => 0
  }

  function Alignment(op: Op): (a: nat)
    ensures a >= DEFAULT_ALIGNMENT
  {
    match op
    case MemalignOp(a, n) => Max(a, DEFAULT_ALIGNMENT)
    case AlignedOp(a, n) => Max(a, DEFAULT_ALIGNMENT)
    case MmapOp(length, image) => PAGE
    case _ => DEFAULT_ALIGNMENT
  }

  // ----- the arena -----

  lemma Served(h: Heap, size: nat, alignment: nat)
    requires Valid(h) && Power(Max(alignment, DEFAULT_ALIGNMENT))
    ensures var n, a := Max(size, 1), Max(alignment, DEFAULT_ALIGNMENT);
      Serves(h, n, a, ArenaAlloc(h, size, alignment).1)
  {
    var n, a := Max(size, 1), Max(alignment, DEFAULT_ALIGNMENT);
    FailsExactly(h, size, alignment);
    RefusalOnPositions(h, n, a);
    ServedAddress(h, n, a);
  }

  lemma ServedAddress(h: Heap, n: nat, a: nat)
    requires Valid(h) && Power(a) && a >= DEFAULT_ALIGNMENT && n > 0
    ensures var p := ArenaAlloc(h, n, a).1;
      && (forall k: nat :: FirstHolding(h, k, n, a) ==> p == h.blocks[h.free[k]].addr)
      && (p != 0 && (forall k :: 0 <= k < |h.free| ==> !Holds(h.blocks[h.free[k]], n, a)) ==>
            Above(h, p, a) && forall q: nat :: Above(h, q, a) ==> p <= q)
  {
    RoundUpLeast(h.base + h.offset + HEADER, a);
    forall k: nat | FirstHolding(h, k, n, a)
      ensures FirstFit(h, n, a, 0) == k
    {
      FirstIsFirstFit(h, k, n, a);
    }
  }

  lemma RefusalOnPositions(h: Heap, n: nat, a: nat)
    requires Valid(h) && a > 0
    ensures NoRoom(h, n, a) <==>
      && (forall i :: i in h.free ==> !BlockMatches(h.blocks[i], n, a))
      && (forall p: nat :: p >= h.base + h.offset + HEADER && p % a == 0 ==> p + n > h.base + ARENA_SIZE)
  {
    forall i | i in h.free && NoRoom(h, n, a)
      ensures !BlockMatches(h.blocks[i], n, a)
    {
      var k :| 0 <= k < |h.free| && h.free[k] == i;
      assert !Holds(h.blocks[h.free[k]], n, a);
    }
    forall p: nat | NoRoom(h, n, a) && p >= h.base + h.offset + HEADER && p % a == 0
      ensures p + n > h.base + ARENA_SIZE
    {
      assert Above(h, p, a);
    }
  }

  lemma FirstIsFirstFit(h: Heap, k: nat, n: nat, a: nat)
    requires Valid(h) && a > 0 && FirstHolding(h, k, n, a)
    ensures FirstFit(h, n, a, 0) == k
  {
    assert ListedFits(h, k, n, a);
    assert forall j :: 0 <= j < k ==> !ListedFits(h, j, n, a);
  }

  lemma ArenaPlaced(h: Heap, size: nat, alignment: nat)
    requires Valid(h) && ArenaAlloc(h, size, alignment).1 != 0
    ensures var (g, p) := ArenaAlloc(h, size, alignment);
      Valid(g) && Placed(h, g, Max(size, 1), Max(alignment, DEFAULT_ALIGNMENT), p)
  {
    ArenaAllocValid(h, size, alignment);
    var n, a := Max(size, 1), Max(alignment, DEFAULT_ALIGNMENT);
    var k := FirstFit(h, n, a, 0);
    if k < |h.free| {
      forall j | 0 <= j < k
        ensures !Holds(h.blocks[h.free[j]], n, a)
      {
        assert !ListedFits(h, j, n, a);
      }
      assert TakenAt(h, Reuse(h, k, n), k, n, a);
    } else {
      RoundUpLeast(h.base + h.offset + HEADER, a);
    }
  }

  /** Writing to the served block leaves the layout as it is. */
  lemma WritePlaced(h: Heap, g: Heap, n: nat, a: nat, p: nat, bs: seq<byte>)
    requires Valid(h) && Valid(g) && a > 0 && Placed(h, g, n, a, p) && Serves(h, n, a, p)
    ensures Valid(Write(g, p, 0, bs)) && Placed(h, Write(g, p, 0, bs), n, a, p)
  {
    WriteValid(g, p, 0, bs);
    if k: nat :| TakenAt(h, g, k, n, a) {
      assert p == h.blocks[h.free[k]].addr;
      TakenWrite(h, g, k, n, a, bs);
    } else {
      FreshWrite(h, g, n, a, p, bs);
    }
  }

  lemma TakenWrite(h: Heap, g: Heap, k: nat, n: nat, a: nat, bs: seq<byte>)
    requires Valid(h) && Valid(g) && a > 0 && TakenAt(h, g, k, n, a)
    ensures TakenAt(h, Write(g, h.blocks[h.free[k]].addr, 0, bs), k, n, a)
    ensures Write(g, h.blocks[h.free[k]].addr, 0, bs).base == g.base
  {
    IndexOfBlock(g, h.free[k]);
  }

  lemma FreshWrite(h: Heap, g: Heap, n: nat, a: nat, p: nat, bs: seq<byte>)
    requires Valid(g) && FreshAt(h, g, n, a, p)
    ensures FreshAt(h, Write(g, p, 0, bs), n, a, p) && Write(g, p, 0, bs).base == g.base
  {
    IndexOfBlock(g, |h.blocks|);
  }

  // ----- every allocating call -----

  /** One request to the arena and writes to what it returns. */
  ghost predicate Allocated(h: Heap, g: Heap, n: nat, a: nat, p: nat)
    requires ValidFree(h) && a > 0
  {
    Serves(h, n, a, p) && if p == 0 then g == h else Placed(h, g, n, a, p)
  }

  lemma ArenaAllocated(h: Heap, size: nat, alignment: nat)
    requires Valid(h) && Power(Max(alignment, DEFAULT_ALIGNMENT))
    ensures var (g, p) := ArenaAlloc(h, size, alignment);
      && Valid(g) && Allocated(h, g, Max(size, 1), Max(alignment, DEFAULT_ALIGNMENT), p)
  {
    Served(h, size, alignment);
    if ArenaAlloc(h, size, alignment).1 == 0 {
      NullOnlyOnRefusal(h, size, alignment);
    } else {
      ArenaPlaced(h, size, alignment);
    }
  }

  lemma WriteAllocated(h: Heap, g: Heap, n: nat, a: nat, p: nat, bs: seq<byte>)
    requires Valid(h) && Valid(g) && a > 0 && Allocated(h, g, n, a, p) && p != 0
    ensures Valid(Write(g, p, 0, bs)) && Allocated(h, Write(g, p, 0, bs), n, a, p)
  {
    WritePlaced(h, g, n, a, p, bs);
  }

  /** The result and the layout after each call that asks for memory, other than a
      realloc that moves. */
  lemma AllocationExact(h: Heap, op: Op)
    requires Valid(h) && Legal(h, op) && Allocating(h, op) && !(op.ReallocOp? && op.ptr != 0)
    ensures var (g, p) := Step(h, op);
      if BadArguments(op) then p == 0 && g == h else Allocated(h, g, Size(op), Alignment(op), p)
  {
    SixteenAndPage();
    match op
    case MallocOp(n) => ArenaAllocated(h, n, DEFAULT_ALIGNMENT);
    case CallocOp(count, n) =>
      if count * n < WORD {
        ArenaAllocated(h, count * n, DEFAULT_ALIGNMENT);
        var (g, p) := ArenaAlloc(h, count * n, DEFAULT_ALIGNMENT);
        if p != 0 {
          WriteAllocated(h, g, Size(op), DEFAULT_ALIGNMENT, p, Zeros(count * n));
        }
      }
    case ReallocOp(q, n) => ArenaAllocated(h, n, DEFAULT_ALIGNMENT);
    case MemalignOp(a, n) =>
      if !BadArguments(op) {
        PowerOfMax(a);
        ArenaAllocated(h, n, a);
      }
    case AlignedOp(a, n) =>
      if !BadArguments(op) {
        PowerOfMax(a);
        ArenaAllocated(h, n, a);
      }
    case MmapOp(length, image) => MmapAllocated(h, length, image);
  }

  lemma SixteenAndPage()
    ensures Power(DEFAULT_ALIGNMENT) && Power(PAGE)
  {
    Pow2Of64();
  }

  lemma PowerOfMax(a: nat)
    requires Power(a)
    ensures Power(Max(a, DEFAULT_ALIGNMENT))
  {
    SixteenAndPage();
  }

  lemma MmapAllocated(h: Heap, length: nat, image: seq<byte>)
    requires Valid(h) && length < WORD
    ensures var (g, p) := Mmap(h, length, image);
      if length == 0 || length > WORD - PAGE then p == 0 && g == h
      else Allocated(h, g, RoundUp(length, PAGE), PAGE, p)
  {
    var r := RoundUp(length, PAGE);
    WrapsExactly(length);
    if 0 < length <= WORD - PAGE {
      SixteenAndPage();
      ArenaAllocated(h, r, PAGE);
      var (g, p) := ArenaAlloc(h, r, PAGE);
      if p != 0 {
        WriteAllocated(h, g, r, PAGE, p, Zeros(r));
        WriteAllocated(h, Write(g, p, 0, Zeros(r)), r, PAGE, p, image);
      }
    }
  }

  lemma WrapsExactly(length: nat)
    requires length < WORD
    ensures RoundUp(length, PAGE) >= WORD <==> length > WORD - PAGE
    ensures length > 0 ==> RoundUp(length, PAGE) > 0
  {
    RoundUpLeast(length, PAGE);
    assert WORD % PAGE == 0;
  }

  // ----- realloc -----

  /** Within the capacity realloc returns the pointer and records the size; nothing
      else changes. */
  lemma ReallocInPlace(h: Heap, i: nat, n: nat)
    requires Valid(h) && i < |h.blocks| && i !in h.free && 0 < n <= h.blocks[i].capacity
    ensures Step(h, ReallocOp(h.blocks[i].addr, n)) ==
      (h.(blocks := h.blocks[i := h.blocks[i].(size := n)]), h.blocks[i].addr)
  {
    IndexOfBlock(h, i);
    AddressIsNotNull(h, i);
  }

  lemma AddressIsNotNull(h: Heap, i: nat)
    requires Valid(h) && i < |h.blocks|
    ensures h.blocks[i].addr > 0
  {
    Disjointness(h);
  }

  /** Beyond the capacity it is a malloc of the new size; if that succeeds, the old
      block, unchanged, goes to the front of the list. */
  lemma ReallocMoves(h: Heap, i: nat, n: nat)
    requires Valid(h) && i < |h.blocks| && i !in h.free && n > h.blocks[i].capacity
    ensures var (g, p) := Step(h, ReallocOp(h.blocks[i].addr, n));
      && Serves(h, n, DEFAULT_ALIGNMENT, p)
      && if p == 0 then g == h
         else g.free != [] && g.free[0] == i
              && Placed(h, g.(free := g.free[1..]), n, DEFAULT_ALIGNMENT, p) && g.blocks[i] == h.blocks[i]
  {
    IndexOfBlock(h, i);
    AddressIsNotNull(h, i);
    SixteenAndPage();
    ArenaAllocated(h, n, DEFAULT_ALIGNMENT);
    var (g, p) := ArenaAlloc(h, n, DEFAULT_ALIGNMENT);
    if p != 0 {
      var kept := Contents(h.blocks[i]);
      WriteAllocated(h, g, n, DEFAULT_ALIGNMENT, p, kept);
      OldStays(h, Write(g, p, 0, kept), i, n, p);
    }
  }

  lemma OldStays(h: Heap, g: Heap, i: nat, n: nat, p: nat)
    requires Valid(h) && Valid(g) && i < |h.blocks| && i !in h.free
    requires Placed(h, g, n, DEFAULT_ALIGNMENT, p)
    ensures i < |g.blocks| && g.blocks[i] == h.blocks[i]
    ensures Free(g, h.blocks[i].addr) == g.(free := [i] + g.free)
  {
    if k: nat :| TakenAt(h, g, k, n, DEFAULT_ALIGNMENT) {
      RemoveAt(h.free, k);
    }
    IndexOfBlock(g, i);
  }

  // ----- free -----

  /** A block in use goes to the front of the list, whichever call releases it and
      whatever length munmap is given; a listed one, and NULL, change nothing. */
  lemma ReleaseExact(h: Heap, i: nat, length: nat)
    requires Valid(h) && i < |h.blocks|
    ensures var p := h.blocks[i].addr; var g := if i in h.free then h else h.(free := [i] + h.free);
      && Step(h, FreeOp(p)) == (g, 0) && Step(h, MunmapOp(p, length)) == (g, 0)
      && (i !in h.free ==> Step(h, ReallocOp(p, 0)) == (g, 0))
    ensures Step(h, FreeOp(0)) == (h, 0) && Step(h, MunmapOp(0, length)) == (h, 0)
  {
    IndexOfBlock(h, i);
    Disjointness(h);
    assert forall j :: 0 <= j < |h.blocks| ==> h.blocks[j].addr != 0;
  }
}

/** Whole runs of allocator calls.  The concrete layout refines an abstract heap
    that knows nothing of headers, lists or offsets: a map from the pointers the
    clients hold to the bytes of their objects. */
module Runs {
  import opened Bits
  import opened Bytes
  import opened Allocator
  import opened Bump

  datatype Op =
    | MallocOp(size: nat)
    | CallocOp(count: nat, size: nat)
    | ReallocOp(ptr: nat, size: nat)
    | MemalignOp(alignment: nat, size: nat)
    | AlignedOp(alignment: nat, size: nat)
    | MmapOp(length: nat, image: seq<byte>)
    | FreeOp(ptr: nat)
    | MunmapOp(ptr: nat, length: nat)
    | StoreOp(ptr: nat, at: nat, bs: seq<byte>)

  ghost function Step(h: Heap, op: Op): (Heap, nat) {
    match op
    case MallocOp(n) => Malloc(h, n)
    case CallocOp(count, n) => Calloc(h, count, n)
    case ReallocOp(p, n) => Realloc(h, p, n)
    case MemalignOp(a, n) => PosixMemalign(h, a, n)
    case AlignedOp(a, n) => AlignedAlloc(h, a, n)
    case MmapOp(length, image) => Mmap(h, length, image)
    case FreeOp(p) => (Free(h, p), 0)
    case MunmapOp(p, length) => (Free(h, p), 0)
    case StoreOp(p, at, bs) => (Write(h, p, at, bs), 0)
  }

  predicate LiveAt(h: Heap, p: nat) {
    IndexOf(h, p) < |h.blocks| && IndexOf(h, p) !in h.free
  }

  /** p lies inside block i and does not look like the start of a block in use. */
  predicate Interior(h: Heap, i: nat, p: nat) {
    && i < |h.blocks| && |h.blocks[i].bytes| == h.blocks[i].capacity
    && h.blocks[i].addr < p <= End(h.blocks[i]) && Ignored(h.blocks[i], p)
  }

  ghost predicate Freeable(h: Heap, p: nat) {
    p == 0 || IndexOf(h, p) < |h.blocks| || exists i :: Interior(h, i, p)
  }

  /** What the C code demands of its callers. */
  ghost predicate Legal(h: Heap, op: Op) {
    match op
    case MallocOp(n) => n < WORD && Handled(h, n, DEFAULT_ALIGNMENT)
    case CallocOp(count, n) =>
      count < WORD && n < WORD && (count * n >= WORD || Handled(h, count * n, DEFAULT_ALIGNMENT))
    case ReallocOp(p, n) => n < WORD && Handled(h, n, DEFAULT_ALIGNMENT) && (p == 0 || LiveAt(h, p))
    case MemalignOp(a, n) => a < WORD && n < WORD && Handled(h, n, a)
    case AlignedOp(a, n) => a < WORD && n < WORD && Handled(h, n, a)
    case MmapOp(length, image) => length < WORD && |image| <= length
    case FreeOp(p) => Freeable(h, p)
    case MunmapOp(p, length) => Freeable(h, p)
    case StoreOp(p, at, bs) => LiveAt(h, p) && at + |bs| <= |h.blocks[IndexOf(h, p)].bytes|
  }

  ghost function Exec(h: Heap, ops: seq<Op>): Heap
    decreases |ops|
  {
    if ops == [] then h else Exec(Step(h, ops[0]).0, ops[1..])
  }

  ghost function Results(h: Heap, ops: seq<Op>): (r: seq<nat>)
    ensures |r| == |ops|
    decreases |ops|
  {
    if ops == [] then [] else [Step(h, ops[0]).1] + Results(Step(h, ops[0]).0, ops[1..])
  }

  ghost predicate LegalRun(h: Heap, ops: seq<Op>)
    decreases |ops|
  {
    ops != [] ==> Legal(h, ops[0]) && LegalRun(Step(h, ops[0]).0, ops[1..])
  }

  // ----- the abstract heap -----

  type Objects = map<nat, seq<byte>>

  function LivePointers(h: Heap): set<nat> {
    set i | 0 <= i < |h.blocks| && i !in h.free :: h.blocks[i].addr
  }

  function Live(h: Heap): Objects {
    map p | p in LivePointers(h) :: Contents(h.blocks[IndexOf(h, p)])
  }

  /** A new n-byte object at p, aligned to a, disjoint from every other object,
      with its first bytes known; nothing else changes.  Refusal changes nothing. */
  ghost predicate Allocates(H: Objects, n: nat, a: nat, known: seq<byte>, p: nat, H': Objects)
    requires a > 0
  {
    if p == 0 then H' == H
    else
      && Unused(H, p, n, a)
      && p in H' && |H'[p]| == n && known <= H'[p]
      && H' == H[p := H'[p]]
  }

  ghost predicate Unused(H: Objects, p: nat, n: nat, a: nat)
    requires a > 0
  {
    && p % a == 0 && p !in H
    && forall q :: q in H ==> q + |H[q]| <= p || p + n <= q
  }

  /** The n bytes at p overlap no object other than the one at p. */
  ghost predicate Apart(H: Objects, p: nat, n: nat) {
    forall q :: q in H && q != p ==> q + |H[q]| <= p || p + n <= q
  }

  predicate SamePrefix(s: seq<byte>, t: seq<byte>) {
    forall k :: 0 <= k < |s| && k < |t| ==> s[k] == t[k]
  }

  ghost predicate Reallocates(H: Objects, q: nat, n: nat, p: nat, H': Objects) {
    && q in H
    && if p == 0 then H' == H
       else
         && p in H' && |H'[p]| == n && SamePrefix(H[q], H'[p])
         && H' == (H - {q})[p := H'[p]]
         && Apart(H, p, n)
         && (p != q ==> n > |H[q]| && Unused(H, p, n, DEFAULT_ALIGNMENT))
  }

  function Overlay(s: seq<byte>, at: nat, bs: seq<byte>): seq<byte> {
    seq(|s|, k requires 0 <= k < |s| => if at <= k < at + |bs| then bs[k - at] else s[k])
  }

  ghost predicate AbstractStep(H: Objects, op: Op, p: nat, H': Objects) {
    match op
    case MallocOp(n) => Allocates(H, ActualSize(n), DEFAULT_ALIGNMENT, [], p, H')
    case CallocOp(count, n) =>
      if count * n >= WORD then p == 0 && H' == H
      else Allocates(H, ActualSize(count * n), DEFAULT_ALIGNMENT, Zeros(count * n), p, H')
    case ReallocOp(q, n) =>
      if q == 0 then Allocates(H, ActualSize(n), DEFAULT_ALIGNMENT, [], p, H')
      else if n == 0 then p == 0 && H' == H - {q}
      else Reallocates(H, q, n, p, H')
    case MemalignOp(a, n) =>
      if a < 8 || !Power(a) then p == 0 && H' == H
      else Allocates(H, ActualSize(n), ActualAlignment(a), [], p, H')
    case AlignedOp(a, n) =>
      if !Power(a) then p == 0 && H' == H
      else Allocates(H, ActualSize(n), ActualAlignment(a), [], p, H')
    case MmapOp(length, image) =>
      if length == 0 || RoundUp(length, PAGE) >= WORD then p == 0 && H' == H
      else
        && |image| <= RoundUp(length, PAGE)
        && Allocates(H, RoundUp(length, PAGE), PAGE, image + Zeros(RoundUp(length, PAGE) - |image|), p, H')
    case FreeOp(q) => p == 0 && H' == H - {q}
    case MunmapOp(q, length) => p == 0 && H' == H - {q}
    case StoreOp(q, at, bs) => p == 0 && q in H && H' == H[q := Overlay(H[q], at, bs)]
  }

  ghost predicate AbstractRun(H: Objects, ops: seq<Op>, results: seq<nat>, H': Objects)
    requires |results| == |ops|
    decreases |ops|
  {
    if ops == [] then H' == H
    else exists M: Objects ::
        AbstractStep(H, ops[0], results[0], M) && AbstractRun(M, ops[1..], results[1..], H')
  }

  // ----- what the abstract heap shows of a concrete one -----

  lemma LiveObject(h: Heap, i: nat)
    requires Valid(h) && i < |h.blocks| && i !in h.free
    ensures h.blocks[i].addr in Live(h) && Live(h)[h.blocks[i].addr] == h.blocks[i].bytes[..h.blocks[i].size]
    ensures LiveAt(h, h.blocks[i].addr)
  {
    IndexOfBlock(h, i);
    assert ValidBlock(h.blocks[i]);
    assert h.blocks[i].addr in LivePointers(h);
  }

  lemma LiveIndex(h: Heap, p: nat) returns (i: nat)
    requires Valid(h) && p in Live(h)
    ensures i < |h.blocks| && i !in h.free && h.blocks[i].addr == p && i == IndexOf(h, p)
    ensures Live(h)[p] == h.blocks[i].bytes[..h.blocks[i].size]
    ensures |Live(h)[p]| == h.blocks[i].size <= h.blocks[i].capacity
  {
    i :| 0 <= i < |h.blocks| && i !in h.free && h.blocks[i].addr == p;
    LiveObject(h, i);
    IndexOfBlock(h, i);
    assert ValidBlock(h.blocks[i]);
  }

  lemma LiveApart(h: Heap, i: nat)
    requires Valid(h) && i < |h.blocks|
    ensures Apart(Live(h), h.blocks[i].addr, h.blocks[i].capacity)
  {
    forall q | q in Live(h) && q != h.blocks[i].addr
      ensures q + |Live(h)[q]| <= h.blocks[i].addr || End(h.blocks[i]) <= q
    {
      var j := LiveIndex(h, q);
      Disjointness(h);
    }
  }

  /** The objects of a heap are non-null, pairwise disjoint and inside the arena. */
  lemma LiveObjectsApart(h: Heap)
    requires Valid(h)
    ensures forall p :: p in Live(h) ==>
      Apart(Live(h), p, |Live(h)[p]|) && h.base + HEADER <= p && p + |Live(h)[p]| <= h.base + ARENA_SIZE
  {
    forall p | p in Live(h)
      ensures Apart(Live(h), p, |Live(h)[p]|)
      ensures h.base + HEADER <= p && p + |Live(h)[p]| <= h.base + ARENA_SIZE
    {
      var i := LiveIndex(h, p);
      LiveApart(h, i);
      Disjointness(h);
    }
  }

  lemma LiveAtIsLive(h: Heap, p: nat)
    requires Valid(h) && LiveAt(h, p)
    ensures p in Live(h)
  {
    LiveObject(h, IndexOf(h, p));
  }

  /** A heap whose block i is live and whose other blocks are those of h shows
      the objects of h with the one at block i replaced. */
  lemma LiveUpdated(h: Heap, g: Heap, i: nat)
    requires Valid(h) && Valid(g) && |h.blocks| <= |g.blocks| <= |h.blocks| + 1 && i < |g.blocks| && i !in g.free
    requires |g.blocks| == |h.blocks| + 1 ==> i == |h.blocks|
    requires i < |h.blocks| ==> g.blocks[i].addr == h.blocks[i].addr
    requires forall j :: 0 <= j < |h.blocks| && j != i ==> g.blocks[j] == h.blocks[j]
    requires forall j :: 0 <= j < |h.blocks| && j != i ==> (j in g.free <==> j in h.free)
    ensures Live(g) == Live(h)[g.blocks[i].addr := g.blocks[i].bytes[..g.blocks[i].size]]
    ensures (i in h.free || i == |h.blocks|) ==> g.blocks[i].addr !in Live(h)
  {
    var p := g.blocks[i].addr;
    LiveObject(g, i);
    forall q | q in Live(g)
      ensures q == p || (q in Live(h) && Live(g)[q] == Live(h)[q])
    {
      WasLiveUnchanged(h, g, i, q);
    }
    forall q | q in Live(h)
      ensures q in Live(g)
      ensures i in h.free || i == |h.blocks| ==> q != p
    {
      StaysLive(h, g, i, q);
    }
    MapUpdated(Live(g), Live(h), p);
  }

  lemma MapUpdated(G: Objects, H: Objects, p: nat)
    requires p in G && forall q :: q in G ==> q == p || (q in H && G[q] == H[q])
    requires forall q :: q in H ==> q in G
    ensures G == H[p := G[p]]
  {
  }

  lemma WasLiveUnchanged(h: Heap, g: Heap, i: nat, q: nat)
    requires Valid(h) && Valid(g) && |h.blocks| <= |g.blocks| <= |h.blocks| + 1 && i < |g.blocks| && q in Live(g)
    requires |g.blocks| == |h.blocks| + 1 ==> i == |h.blocks|
    requires forall j :: 0 <= j < |h.blocks| && j != i ==> g.blocks[j] == h.blocks[j]
    requires forall j :: 0 <= j < |h.blocks| && j != i ==> (j in g.free <==> j in h.free)
    ensures q == g.blocks[i].addr || (q in Live(h) && Live(g)[q] == Live(h)[q])
  {
    var j := LiveIndex(g, q);
    if j != i {
      LiveObject(h, j);
    }
  }

  lemma StaysLive(h: Heap, g: Heap, i: nat, q: nat)
    requires Valid(h) && Valid(g) && |h.blocks| <= |g.blocks| && i < |g.blocks| && i !in g.free && q in Live(h)
    requires i < |h.blocks| ==> g.blocks[i].addr == h.blocks[i].addr
    requires forall j :: 0 <= j < |h.blocks| && j != i ==> g.blocks[j] == h.blocks[j]
    requires forall j :: 0 <= j < |h.blocks| && j != i ==> (j in g.free <==> j in h.free)
    ensures q in Live(g)
    ensures (i in h.free || i == |h.blocks|) ==> q != g.blocks[i].addr
  {
    var j := LiveIndex(h, q);
    LiveObject(g, i);
    if j != i {
      LiveObject(g, j);
      IndexOfBlock(g, j);
      IndexOfBlock(g, i);
    }
  }

  lemma FreeMembers(h: Heap, p: nat)
    ensures Free(h, p).blocks == h.blocks && Free(h, p).base == h.base
    ensures forall j :: 0 <= j < |h.blocks| ==> (j in Free(h, p).free <==> j in h.free || j == IndexOf(h, p))
  {
  }

  lemma FreeRefines(h: Heap, p: nat)
    requires Valid(h)
    ensures Valid(Free(h, p)) && Live(Free(h, p)) == Live(h) - {p}
  {
    FreeValid(h, p);
    FreeMembers(h, p);
    FreedObjects(h, Free(h, p), p);
  }

  lemma FreedObjects(h: Heap, g: Heap, p: nat)
    requires Valid(h) && Valid(g) && g.blocks == h.blocks
    requires forall j :: 0 <= j < |h.blocks| ==> (j in g.free <==> j in h.free || j == IndexOf(h, p))
    ensures Live(g) == Live(h) - {p}
  {
    forall q | q in Live(g)
      ensures q != p && q in Live(h) && Live(g)[q] == Live(h)[q]
    {
      WasLive(h, g, p, q);
    }
    forall q | q in Live(h) && q != p
      ensures q in Live(g)
    {
      StillLive(h, g, p, q);
    }
  }

  lemma WasLive(h: Heap, g: Heap, p: nat, q: nat)
    requires Valid(h) && Valid(g) && g.blocks == h.blocks && q in Live(g)
    requires forall j :: 0 <= j < |h.blocks| ==> (j in g.free <==> j in h.free || j == IndexOf(h, p))
    ensures q != p && q in Live(h) && Live(g)[q] == Live(h)[q]
  {
    var j := LiveIndex(g, q);
    LiveObject(h, j);
    IndexOfBlock(h, j);
  }

  lemma StillLive(h: Heap, g: Heap, p: nat, q: nat)
    requires Valid(h) && Valid(g) && g.blocks == h.blocks && q in Live(h) && q != p
    requires forall j :: 0 <= j < |h.blocks| ==> (j in g.free <==> j in h.free || j == IndexOf(h, p))
    ensures q in Live(g)
  {
    var j := LiveIndex(h, q);
    LiveObject(g, j);
  }

  lemma ArenaAllocRefines(h: Heap, size: nat, alignment: nat)
    requires Valid(h)
    ensures var (g, p) := ArenaAlloc(h, size, alignment);
      && Valid(g)
      && Allocates(Live(h), ActualSize(size), ActualAlignment(alignment), [], p, Live(g))
  {
    ArenaAllocValid(h, size, alignment);
    var (g, p) := ArenaAlloc(h, size, alignment);
    if p == 0 {
      NullOnlyOnRefusal(h, size, alignment);
    } else {
      var i := AllocatedBlock(h, size, alignment);
      AllocatedCount(h, size, alignment);
      LiveUpdated(h, g, i);
      forall q | q in Live(h)
        ensures q + |Live(h)[q]| <= p || p + ActualSize(size) <= q
      {
        NewApart(h, g, i, q);
      }
    }
  }

  /** A block that was not live lies apart from every object. */
  lemma NewApart(h: Heap, g: Heap, i: nat, q: nat)
    requires Valid(h) && Valid(g) && q in Live(h) && i < |g.blocks| && |h.blocks| <= |g.blocks|
    requires i in h.free || i == |h.blocks|
    requires forall j :: 0 <= j < |h.blocks| && j != i ==> g.blocks[j] == h.blocks[j]
    ensures q + |Live(h)[q]| <= g.blocks[i].addr || End(g.blocks[i]) <= q
  {
    var j := LiveIndex(h, q);
    Disjointness(g);
    assert g.blocks[j] == h.blocks[j];
  }

  lemma AllocatedCount(h: Heap, size: nat, alignment: nat)
    ensures |h.blocks| <= |ArenaAlloc(h, size, alignment).0.blocks| <= |h.blocks| + 1
    ensures |ArenaAlloc(h, size, alignment).0.blocks| == |h.blocks| + 1 ==>
      ArenaAlloc(h, size, alignment).0 == Carve(h, ActualSize(size), ActualAlignment(alignment))
      && forall k :: 0 <= k < |h.free| ==> !ListedFits(h, k, ActualSize(size), ActualAlignment(alignment))
  {
  }

  lemma NullOnlyOnRefusal(h: Heap, size: nat, alignment: nat)
    requires Valid(h) && ArenaAlloc(h, size, alignment).1 == 0
    ensures ArenaAlloc(h, size, alignment).0 == h
  {
    var n, a := ActualSize(size), ActualAlignment(alignment);
    if Power(a) {
      var k := FirstFit(h, n, a, 0);
      Disjointness(h);
      RoundUpLeast(h.base + h.offset + HEADER, a);
    }
  }

  /** A write inside a live block overlays its object. */
  lemma WriteRefines(h: Heap, p: nat, at: nat, bs: seq<byte>)
    requires Valid(h) && LiveAt(h, p) && at + |bs| <= |h.blocks[IndexOf(h, p)].bytes|
    ensures Valid(Write(h, p, at, bs)) && p in Live(h)
    ensures Live(Write(h, p, at, bs)) == Live(h)[p := Overlay(Live(h)[p], at, bs)]
    ensures LiveAt(Write(h, p, at, bs), p) && IndexOf(Write(h, p, at, bs), p) == IndexOf(h, p)
  {
    WriteValid(h, p, at, bs);
    var i, g := IndexOf(h, p), Write(h, p, at, bs);
    LiveObject(h, i);
    LiveUpdated(h, g, i);
    IndexOfBlock(g, i);
    var b := h.blocks[i];
    assert ValidBlock(b);
    assert Splice(b.bytes, at, bs)[..b.size] == Overlay(b.bytes[..b.size], at, bs);
  }

  // ----- one step refines the abstract heap -----

  /** Allocating and then filling gives an object with known first bytes. */
  lemma Filled(H: Objects, n: nat, a: nat, known: seq<byte>, p: nat, M: Objects, bs: seq<byte>, H': Objects)
    requires a > 0 && p != 0 && Allocates(H, n, a, known, p, M) && |bs| <= n
    requires H' == M[p := Overlay(M[p], 0, bs)]
    ensures Allocates(H, n, a, bs, p, H')
    ensures |known| == n ==> Allocates(H, n, a, bs + known[|bs|..], p, H')
  {
    assert bs <= H'[p];
    assert H' == H[p := H'[p]];
    if |known| == n {
      assert H'[p] == bs + known[|bs|..];
    }
  }

  lemma CallocRefines(h: Heap, count: nat, size: nat)
    requires Valid(h) && Legal(h, CallocOp(count, size))
    ensures var (g, p) := Calloc(h, count, size);
      Valid(g) && AbstractStep(Live(h), CallocOp(count, size), p, Live(g))
  {
    var total := count * size;
    if total < WORD {
      if Malloc(h, total).1 != 0 {
        AllocWriteRefines(h, total, DEFAULT_ALIGNMENT, Zeros(total));
      }
      ArenaAllocRefines(h, total, DEFAULT_ALIGNMENT);
    }
  }

  lemma AllocWriteRefines(h: Heap, size: nat, alignment: nat, bs: seq<byte>)
    requires Valid(h) && |bs| <= ActualSize(size) && ArenaAlloc(h, size, alignment).1 != 0
    ensures var (g, p) := ArenaAlloc(h, size, alignment); var g' := Write(g, p, 0, bs);
      && Valid(g') && LiveAt(g', p) && |g'.blocks[IndexOf(g', p)].bytes| >= ActualSize(size)
      && Allocates(Live(h), ActualSize(size), ActualAlignment(alignment), bs, p, Live(g'))
  {
    var (g, p) := ArenaAlloc(h, size, alignment);
    var n, a := ActualSize(size), ActualAlignment(alignment);
    ArenaAllocRefines(h, size, alignment);
    var i := AllocatedBlock(h, size, alignment);
    WriteRefines(g, p, 0, bs);
    Filled(Live(h), n, a, [], p, Live(g), bs, Live(Write(g, p, 0, bs)));
  }

  lemma MmapRefines(h: Heap, length: nat, image: seq<byte>)
    requires Valid(h) && Legal(h, MmapOp(length, image))
    ensures var (g, p) := Mmap(h, length, image);
      Valid(g) && AbstractStep(Live(h), MmapOp(length, image), p, Live(g))
  {
    RoundUpLeast(length, PAGE);
    var n := RoundUp(length, PAGE);
    if length > 0 && n < WORD {
      WholePagesRefine(h, n, image);
    }
  }

  lemma WholePagesRefine(h: Heap, n: nat, image: seq<byte>)
    requires Valid(h) && n > 0 && |image| <= n
    ensures var (g, p) := ArenaAlloc(h, n, PAGE);
      var g' := if p == 0 then g else Write(Write(g, p, 0, Zeros(n)), p, 0, image);
      Valid(g') && Allocates(Live(h), n, PAGE, image + Zeros(n - |image|), p, Live(g'))
  {
    if ArenaAlloc(h, n, PAGE).1 != 0 {
      MappedRefines(h, n, image);
    } else {
      ArenaAllocRefines(h, n, PAGE);
    }
  }

  lemma MappedRefines(h: Heap, n: nat, image: seq<byte>)
    requires Valid(h) && n > 0 && |image| <= n && ArenaAlloc(h, n, PAGE).1 != 0
    ensures var (g, p) := ArenaAlloc(h, n, PAGE); var g' := Write(Write(g, p, 0, Zeros(n)), p, 0, image);
      Valid(g') && Allocates(Live(h), n, PAGE, image + Zeros(n - |image|), p, Live(g'))
  {
    var (g, p) := ArenaAlloc(h, n, PAGE);
    AllocWriteRefines(h, n, PAGE, Zeros(n));
    var g1 := Write(g, p, 0, Zeros(n));
    WriteRefines(g1, p, 0, image);
    Filled(Live(h), n, PAGE, Zeros(n), p, Live(g1), image, Live(Write(g1, p, 0, image)));
    assert Zeros(n)[|image|..] == Zeros(n - |image|);
  }

  lemma ResizeRefines(h: Heap, p: nat, size: nat)
    requires Valid(h) && p != 0 && LiveAt(h, p) && 1 <= size <= h.blocks[IndexOf(h, p)].capacity
    ensures var g := Resize(h, IndexOf(h, p), size);
      Valid(g) && Reallocates(Live(h), p, size, p, Live(g))
  {
    var i := IndexOf(h, p);
    var g := Resize(h, i, size);
    ResizeValid(h, i, size);
    LiveObject(h, i);
    LiveUpdated(h, g, i);
    assert ValidBlock(h.blocks[i]);
    PrefixesAgree(h.blocks[i].bytes, h.blocks[i].size, size);
    LiveApart(h, i);
    ReplacedObject(Live(h), p, Live(g));
  }

  lemma PrefixesAgree(s: seq<byte>, m: nat, n: nat)
    requires m <= |s| && n <= |s|
    ensures SamePrefix(s[..m], s[..n])
  {
  }

  lemma ReplacedObject(H: Objects, p: nat, H': Objects)
    requires p in H' && H' == H[p := H'[p]]
    ensures H' == (H - {p})[p := H'[p]]
  {
  }

  lemma MoveRefines(h: Heap, q: nat, size: nat)
    requires Valid(h) && q != 0 && LiveAt(h, q) && size > h.blocks[IndexOf(h, q)].capacity
    ensures var (g, p) := Realloc(h, q, size);
      Valid(g) && Reallocates(Live(h), q, size, p, Live(g))
  {
    LiveAtIsLive(h, q);
    var j := LiveIndex(h, q);
    var kept := Contents(h.blocks[j]);
    var (g, p) := Malloc(h, size);
    if p == 0 {
      ArenaAllocRefines(h, size, DEFAULT_ALIGNMENT);
    } else {
      AllocWriteRefines(h, size, DEFAULT_ALIGNMENT, kept);
      var g1 := Write(g, p, 0, kept);
      FreeRefines(g1, q);
      Moved(Live(h), size, q, p, Live(g1), Live(Free(g1, q)));
    }
  }

  lemma Moved(H: Objects, n: nat, q: nat, p: nat, M: Objects, H': Objects)
    requires q in H && p != 0 && n > |H[q]| && Allocates(H, n, DEFAULT_ALIGNMENT, H[q], p, M) && H' == M - {q}
    ensures Reallocates(H, q, n, p, H')
  {
    assert H' == (H - {q})[p := H'[p]];
  }

  lemma StepRefines(h: Heap, op: Op)
    requires Valid(h) && Legal(h, op)
    ensures Valid(Step(h, op).0)
    ensures AbstractStep(Live(h), op, Step(h, op).1, Live(Step(h, op).0))
  {
    match op
    case MallocOp(n) => ArenaAllocRefines(h, n, DEFAULT_ALIGNMENT);
    case CallocOp(count, n) => CallocRefines(h, count, n);
    case ReallocOp(q, n) =>
      if q == 0 {
        ArenaAllocRefines(h, n, DEFAULT_ALIGNMENT);
      } else if n == 0 {
        FreeRefines(h, q);
      } else if h.blocks[IndexOf(h, q)].capacity >= n {
        ResizeRefines(h, q, n);
      } else {
        MoveRefines(h, q, n);
      }
    case MemalignOp(a, n) => ArenaAllocRefines(h, n, a);
    case AlignedOp(a, n) => ArenaAllocRefines(h, n, a);
    case MmapOp(length, image) => MmapRefines(h, length, image);
    case FreeOp(p) => FreeRefines(h, p);
    case MunmapOp(p, length) => FreeRefines(h, p);
    case StoreOp(p, at, bs) => WriteRefines(h, p, at, bs);
  }

  /** Every legal run of the allocator is a run of the abstract heap with the
      same results. */
  lemma {:induction false} RunRefines(h: Heap, ops: seq<Op>)
    requires Valid(h) && LegalRun(h, ops)
    ensures Valid(Exec(h, ops))
    ensures AbstractRun(Live(h), ops, Results(h, ops), Live(Exec(h, ops)))
    decreases |ops|
  {
    if ops != [] {
      StepRefines(h, ops[0]);
      var g := Step(h, ops[0]).0;
      RunRefines(g, ops[1..]);
      assert Results(h, ops)[1..] == Results(g, ops[1..]);
    }
  }

  // ----- conservation -----

  function TotalCapacity(h: Heap, n: nat): nat
    requires n <= |h.blocks|
  {
    if n == 0 then 0 else TotalCapacity(h, n - 1) + h.blocks[n - 1].capacity
  }

  function LiveCapacity(h: Heap, n: nat): nat
    requires n <= |h.blocks|
  {
    if n == 0 then 0
    else LiveCapacity(h, n - 1) + if n - 1 in h.free then 0 else h.blocks[n - 1].capacity
  }

  /** The capacities along a free list. */
  function ListedCapacity(h: Heap, free: seq<nat>): nat
    requires forall k :: 0 <= k < |free| ==> free[k] < |h.blocks|
  {
    if free == [] then 0 else h.blocks[free[0]].capacity + ListedCapacity(h, free[1..])
  }

  /** The gap between the end of a block and the header of the next. */
  function Padding(h: Heap, i: nat): int
    requires i < |h.blocks|
  {
    h.blocks[i].addr - HEADER - Start(h, i)
  }

  function TotalPadding(h: Heap, n: nat): int
    requires n <= |h.blocks|
  {
    if n == 0 then 0 else TotalPadding(h, n - 1) + Padding(h, n - 1)
  }

  /** Capacity of the first n blocks that are on the given list. */
  function FreeBelow(h: Heap, free: seq<nat>, n: nat): nat
    requires n <= |h.blocks|
  {
    if n == 0 then 0
    else FreeBelow(h, free, n - 1) + if n - 1 in free then h.blocks[n - 1].capacity else 0
  }

  lemma {:induction false} FreeBelowHead(h: Heap, free: seq<nat>, n: nat)
    requires n <= |h.blocks| && free != [] && free[0] < |h.blocks| && free[0] !in free[1..]
    ensures FreeBelow(h, free, n) == FreeBelow(h, free[1..], n) + if free[0] < n then h.blocks[free[0]].capacity else 0
  {
    if n > 0 {
      FreeBelowHead(h, free, n - 1);
      assert n - 1 in free <==> n - 1 == free[0] || n - 1 in free[1..];
    }
  }

  lemma {:induction false} FreeBelowEmpty(h: Heap, n: nat)
    requires n <= |h.blocks|
    ensures FreeBelow(h, [], n) == 0
  {
    if n > 0 {
      FreeBelowEmpty(h, n - 1);
    }
  }

  lemma {:induction false} ListedIsFreeBelow(h: Heap, free: seq<nat>)
    requires forall k :: 0 <= k < |free| ==> free[k] < |h.blocks|
    requires forall j, k :: 0 <= j < k < |free| ==> free[j] != free[k]
    ensures ListedCapacity(h, free) == FreeBelow(h, free, |h.blocks|)
  {
    if free == [] {
      FreeBelowEmpty(h, |h.blocks|);
    } else {
      ListedIsFreeBelow(h, free[1..]);
      FreeBelowHead(h, free, |h.blocks|);
    }
  }

  lemma {:induction false} SpaceBelow(h: Heap, n: nat)
    requires Valid(h) && n <= |h.blocks|
    ensures Start(h, n) - h.base == TotalCapacity(h, n) + HEADER * n + TotalPadding(h, n)
    ensures TotalCapacity(h, n) == LiveCapacity(h, n) + FreeBelow(h, h.free, n)
  {
    if n > 0 {
      SpaceBelow(h, n - 1);
    }
  }

  /** Every byte below the offset is live, free, header, or padding smaller than
      the alignment it serves. */
  lemma Conservation(h: Heap)
    requires Valid(h)
    ensures h.offset == LiveCapacity(h, |h.blocks|) + ListedCapacity(h, h.free)
                        + HEADER * |h.blocks| + TotalPadding(h, |h.blocks|)
    ensures forall i :: 0 <= i < |h.blocks| ==> 0 <= Padding(h, i) < h.blocks[i].align
  {
    SpaceBelow(h, |h.blocks|);
    ListedIsFreeBelow(h, h.free);
    forall i | 0 <= i < |h.blocks|
      ensures 0 <= Padding(h, i) < h.blocks[i].align
    {
      assert Follows(h, i);
    }
  }

  // ----- runs of uniform requests -----

  datatype Request = NoRequest | Request(size: nat, alignment: nat)

  /** The size and alignment that a call passes on to the arena. */
  ghost function Requested(op: Op): Request {
    match op
    case MallocOp(n) => Request(ActualSize(n), DEFAULT_ALIGNMENT)
    case CallocOp(count, n) =>
      if count * n >= WORD then NoRequest else Request(ActualSize(count * n), DEFAULT_ALIGNMENT)
    case ReallocOp(q, n) => if q != 0 && n == 0 then NoRequest else Request(ActualSize(n), DEFAULT_ALIGNMENT)
    case MemalignOp(a, n) => if a < 8 || !Power(a) then NoRequest else Request(ActualSize(n), ActualAlignment(a))
    case AlignedOp(a, n) => if !Power(a) then NoRequest else Request(ActualSize(n), ActualAlignment(a))
    case MmapOp(length, image) =>
      if length == 0 || RoundUp(length, PAGE) >= WORD then NoRequest else Request(RoundUp(length, PAGE), PAGE)
    case _ => NoRequest
  }

  ghost predicate UniformRun(ops: seq<Op>, n: nat, a: nat) {
    forall i :: 0 <= i < |ops| ==> Requested(ops[i]).NoRequest? || Requested(ops[i]) == Request(n, a)
  }

  ghost predicate Uniform(h: Heap, n: nat, a: nat)
    requires a > 0
  {
    forall i :: 0 <= i < |h.blocks| ==>
      h.blocks[i].capacity == n && h.blocks[i].align == a && h.blocks[i].addr % a == 0
  }

  /** The largest number of objects live at any moment of a run. */
  ghost function Peak(h: Heap, ops: seq<Op>): nat
    decreases |ops|
  {
    var now := |Live(h)|;
    if ops == [] then now
    else
      var later := Peak(Step(h, ops[0]).0, ops[1..]);
      if later > now then later else now
  }

  lemma {:induction false} LiveCount(h: Heap, n: nat)
    requires Valid(h) && n <= |h.blocks|
    ensures |LiveBelow(h, n)| <= n
    ensures h.free == [] ==> |LiveBelow(h, n)| == n
  {
    if n > 0 {
      LiveCount(h, n - 1);
      var p := h.blocks[n - 1].addr;
      if n - 1 in h.free {
        assert LiveBelow(h, n) == LiveBelow(h, n - 1);
      } else {
        assert LiveBelow(h, n) == LiveBelow(h, n - 1) + {p};
        IndexOfBlock(h, n - 1);
      }
    }
  }

  function LiveBelow(h: Heap, n: nat): set<nat>
    requires n <= |h.blocks|
  {
    set i | 0 <= i < n && i !in h.free :: h.blocks[i].addr
  }

  lemma LiveAtMostCarved(h: Heap)
    requires Valid(h)
    ensures |Live(h)| <= |h.blocks|
    ensures h.free == [] ==> |Live(h)| == |h.blocks|
  {
    LiveCount(h, |h.blocks|);
    assert Live(h).Keys == LiveBelow(h, |h.blocks|);
  }

  ghost predicate CarvesOnlyWhenFull(h: Heap, g: Heap) {
    |g.blocks| == |h.blocks| || (|g.blocks| == |h.blocks| + 1 && g.free == [])
  }

  lemma UniformAlloc(h: Heap, size: nat, alignment: nat)
    requires Valid(h) && Uniform(h, ActualSize(size), ActualAlignment(alignment))
    ensures var g := ArenaAlloc(h, size, alignment).0;
      Uniform(g, ActualSize(size), ActualAlignment(alignment)) && CarvesOnlyWhenFull(h, g)
  {
    var n, a := ActualSize(size), ActualAlignment(alignment);
    assert h.free != [] ==> ListedFits(h, 0, n, a);
    RoundUpLeast(h.base + h.offset + HEADER, a);
  }

  lemma UniformWrite(h: Heap, p: nat, at: nat, bs: seq<byte>, n: nat, a: nat)
    requires a > 0 && Uniform(h, n, a)
    ensures Uniform(Write(h, p, at, bs), n, a)
    ensures |Write(h, p, at, bs).blocks| == |h.blocks| && Write(h, p, at, bs).free == h.free
  {
  }

  lemma UniformStep(h: Heap, op: Op, n: nat, a: nat)
    requires Valid(h) && Legal(h, op) && a > 0 && Uniform(h, n, a)
    requires Requested(op).NoRequest? || Requested(op) == Request(n, a)
    ensures Uniform(Step(h, op).0, n, a) && CarvesOnlyWhenFull(h, Step(h, op).0)
  {
    match op
    case MallocOp(m) => UniformAlloc(h, m, DEFAULT_ALIGNMENT);
    case CallocOp(count, m) =>
      if count * m < WORD {
        var (g, p) := Malloc(h, count * m);
        UniformAlloc(h, count * m, DEFAULT_ALIGNMENT);
        UniformWrite(g, p, 0, Zeros(count * m), n, a);
      }
    case ReallocOp(q, m) =>
      if q == 0 {
        UniformAlloc(h, m, DEFAULT_ALIGNMENT);
      }
    case MemalignOp(al, m) => if 8 <= al && Power(al) { UniformAlloc(h, m, al); }
    case AlignedOp(al, m) => if Power(al) { UniformAlloc(h, m, al); }
    case MmapOp(length, image) =>
      var r := RoundUp(length, PAGE);
      RoundUpLeast(length, PAGE);
      if length > 0 && r < WORD {
        var (g, p) := ArenaAlloc(h, r, PAGE);
        UniformAlloc(h, r, PAGE);
        UniformWrite(g, p, 0, Zeros(r), n, a);
        UniformWrite(Write(g, p, 0, Zeros(r)), p, 0, image, n, a);
      }
    case FreeOp(p) =>
    case MunmapOp(p, length) =>
    case StoreOp(p, at, bs) => UniformWrite(h, p, at, bs, n, a);
  }

  lemma UniformStepCount(h: Heap, op: Op, n: nat, a: nat)
    requires Valid(h) && Legal(h, op) && a > 0 && Uniform(h, n, a)
    requires Requested(op).NoRequest? || Requested(op) == Request(n, a)
    ensures var g := Step(h, op).0;
      && Valid(g) && Uniform(g, n, a) && |Live(h)| <= |h.blocks|
      && (|g.blocks| == |h.blocks| || |g.blocks| == |Live(g)| == |h.blocks| + 1)
  {
    UniformStep(h, op, n, a);
    StepRefines(h, op);
    LiveAtMostCarved(h);
    LiveAtMostCarved(Step(h, op).0);
  }

  lemma {:induction false} UniformCarves(h: Heap, ops: seq<Op>, n: nat, a: nat)
    requires Valid(h) && LegalRun(h, ops) && a > 0 && Uniform(h, n, a) && UniformRun(ops, n, a)
    ensures Valid(Exec(h, ops)) && Uniform(Exec(h, ops), n, a)
    ensures |Exec(h, ops).blocks| == if Peak(h, ops) > |h.blocks| then Peak(h, ops) else |h.blocks|
    decreases |ops|
  {
    if ops == [] {
      LiveAtMostCarved(h);
    } else {
      UniformStepCount(h, ops[0], n, a);
      var g := Step(h, ops[0]).0;
      UniformCarves(g, ops[1..], n, a);
      PeakAtLeastNow(g, ops[1..]);
    }
  }

  lemma PeakAtLeastNow(h: Heap, ops: seq<Op>)
    ensures Peak(h, ops) >= |Live(h)|
  {
  }

  lemma {:induction false} UniformExtent(h: Heap, n: nat, a: nat, i: nat)
    requires Valid(h) && a > 0 && Uniform(h, n, a) && i <= |h.blocks|
    ensures Start(h, i) - h.base <= i * (HEADER + n + a - 1)
  {
    if i > 0 {
      UniformExtent(h, n, a, i - 1);
      assert Follows(h, i - 1);
      assert i * (HEADER + n + a - 1) == (i - 1) * (HEADER + n + a - 1) + (HEADER + n + a - 1);
    }
  }

  /** No leak: when all requests are alike, the blocks ever carved are as many as
      were live at the worst moment, and the arena used is bounded accordingly. */
  lemma NoLeak(base: nat, ops: seq<Op>, n: nat, a: nat)
    requires ValidBase(base) && LegalRun(Initial(base), ops) && a > 0 && UniformRun(ops, n, a)
    ensures var peak := Peak(Initial(base), ops);
      && |Exec(Initial(base), ops).blocks| == peak
      && Exec(Initial(base), ops).offset <= peak * (HEADER + n + a - 1)
  {
    var h := Exec(Initial(base), ops);
    UniformCarves(Initial(base), ops, n, a);
    BaseKept(Initial(base), ops);
    UniformExtent(h, n, a, |h.blocks|);
  }

  lemma AllocKeepsBase(h: Heap, size: nat, alignment: nat)
    ensures ArenaAlloc(h, size, alignment).0.base == h.base
  {
  }

  lemma StepKeepsBase(h: Heap, op: Op)
    ensures Step(h, op).0.base == h.base
  {
    match op
    case MallocOp(n) => AllocKeepsBase(h, n, DEFAULT_ALIGNMENT);
    case CallocOp(count, n) => AllocKeepsBase(h, count * n, DEFAULT_ALIGNMENT);
    case ReallocOp(q, n) => AllocKeepsBase(h, n, DEFAULT_ALIGNMENT);
    case MemalignOp(a, n) => AllocKeepsBase(h, n, a);
    case AlignedOp(a, n) => AllocKeepsBase(h, n, a);
    case MmapOp(length, image) => AllocKeepsBase(h, RoundUp(length, PAGE), PAGE);
    case FreeOp(p) =>
    case MunmapOp(p, length) =>
    case StoreOp(p, at, bs) =>
  }

  lemma {:induction false} BaseKept(h: Heap, ops: seq<Op>)
    ensures Exec(h, ops).base == h.base
    decreases |ops|
  {
    if ops != [] {
      StepKeepsBase(h, ops[0]);
      BaseKept(Step(h, ops[0]).0, ops[1..]);
    }
  }
}

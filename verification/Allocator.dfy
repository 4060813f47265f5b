/** The allocator as a machine on values: the blocks carved from the arena in
    address order, each with its payload bytes, and the free list as a sequence
    of block numbers.  The class in RubyAlloc.dfy runs the same steps on raw memory
    and is proved to follow this machine exactly. */
module Allocator {
  import opened Bits
  import opened Bytes

  const ARENA_SIZE: nat := 0x400_0000
  const HEADER: nat := 32
  const DEFAULT_ALIGNMENT: nat := 16
  const PAGE: nat := 4096
  const MAGIC: nat := 0x5241_4c43

  /** align is the alignment the block was carved for; the C header does not
      store it, and no step reads it. */
  datatype Block = Block(addr: nat, capacity: nat, size: nat, align: nat, bytes: seq<byte>)

  datatype Heap = Heap(base: nat, offset: nat, blocks: seq<Block>, free: seq<nat>)

  function End(b: Block): nat {
    b.addr + b.capacity
  }

  /** Where the space for block i may begin: the end of the block before it. */
  function Start(h: Heap, i: nat): nat
    requires i <= |h.blocks|
  {
    if i == 0 then h.base else End(h.blocks[i - 1])
  }

  ghost predicate ValidBase(base: nat) {
    0 < base && base % PAGE == 0 && base + ARENA_SIZE < WORD
  }

  ghost predicate ValidBlock(b: Block) {
    && 1 <= b.size <= b.capacity == |b.bytes|
    && DEFAULT_ALIGNMENT <= b.align
  }

  ghost predicate Aligned(b: Block) {
    Power(b.align) && b.addr % b.align == 0
  }

  /** Block i begins with its header after the preceding block, at a distance
      (the padding) smaller than its alignment. */
  ghost predicate Follows(h: Heap, i: nat)
    requires i < |h.blocks|
  {
    Start(h, i) + HEADER <= h.blocks[i].addr < Start(h, i) + HEADER + h.blocks[i].align
  }

  ghost predicate ValidFree(h: Heap) {
    && (forall k :: 0 <= k < |h.free| ==> h.free[k] < |h.blocks|)
    && (forall j, k :: 0 <= j < k < |h.free| ==> h.free[j] != h.free[k])
  }

  ghost predicate Valid(h: Heap) {
    && ValidBase(h.base)
    && h.offset <= ARENA_SIZE
    && h.base + h.offset == Start(h, |h.blocks|)
    && (forall i :: 0 <= i < |h.blocks| ==> ValidBlock(h.blocks[i]))
    && (forall i {:trigger Follows(h, i)} :: 0 <= i < |h.blocks| ==> Follows(h, i))
    && (forall i {:trigger Aligned(h.blocks[i])} :: 0 <= i < |h.blocks| ==> Aligned(h.blocks[i]))
    && ValidFree(h)
  }

  function Initial(base: nat): Heap {
    Heap(base, 0, [], [])
  }

  /** The block whose payload starts at p, or |h.blocks| if there is none. */
  function IndexOf(h: Heap, p: nat): (i: nat)
    ensures i <= |h.blocks|
    ensures i < |h.blocks| ==> h.blocks[i].addr == p
    ensures forall j :: 0 <= j < i ==> h.blocks[j].addr != p
  {
    IndexFrom(h.blocks, p, 0)
  }

  function IndexFrom(blocks: seq<Block>, p: nat, from: nat): (i: nat)
    requires from <= |blocks|
    ensures from <= i <= |blocks|
    ensures i < |blocks| ==> blocks[i].addr == p
    ensures forall j :: from <= j < i ==> blocks[j].addr != p
    decreases |blocks| - from
  {
    if from == |blocks| || blocks[from].addr == p then from else IndexFrom(blocks, p, from + 1)
  }

  // ----- the steps -----

  predicate BlockMatches(b: Block, size: nat, alignment: nat)
    requires alignment > 0
  {
    b.capacity >= size && b.addr % alignment == 0
  }

  predicate ListedFits(h: Heap, k: nat, size: nat, alignment: nat)
    requires k < |h.free| && alignment > 0
  {
    h.free[k] < |h.blocks| && BlockMatches(h.blocks[h.free[k]], size, alignment)
  }

  /** The first position from k in the free list that fits, or |h.free|. */
  function FirstFit(h: Heap, size: nat, alignment: nat, k: nat): (r: nat)
    requires k <= |h.free| && alignment > 0
    ensures k <= r <= |h.free|
    ensures r < |h.free| ==> ListedFits(h, r, size, alignment)
    ensures forall j :: k <= j < r ==> !ListedFits(h, j, size, alignment)
    decreases |h.free| - k
  {
    if k == |h.free| || ListedFits(h, k, size, alignment) then k else FirstFit(h, size, alignment, k + 1)
  }

  /** Take the block at position k off the list. */
  function Reuse(h: Heap, k: nat, size: nat): Heap
    requires k < |h.free| && h.free[k] < |h.blocks|
  {
    Resize(h, h.free[k], size).(free := h.free[..k] + h.free[k + 1..])
  }

  function Resize(h: Heap, i: nat, size: nat): Heap
    requires i < |h.blocks|
  {
    h.(blocks := h.blocks[i := h.blocks[i].(size := size)])
  }

  function BumpAddress(h: Heap, alignment: nat): nat
    requires alignment > 0
  {
    RoundUp(h.base + h.offset + HEADER, alignment)
  }

  predicate BumpFits(h: Heap, size: nat, alignment: nat)
    requires alignment > 0
  {
    BumpAddress(h, alignment) + size <= h.base + ARENA_SIZE
  }

  /** Nothing has ever been written above the offset, so new memory is zero. */
  function Carve(h: Heap, size: nat, alignment: nat): Heap
    requires alignment > 0
  {
    var addr := BumpAddress(h, alignment);
    var end := addr + size;
    h.(offset := if end >= h.base then end - h.base else 0,
       blocks := h.blocks + [Block(addr, size, size, alignment, Zeros(size))])
  }

  function ActualSize(size: nat): nat {
    if size == 0 then 1 else size
  }

  function ActualAlignment(alignment: nat): (a: nat)
    ensures a >= DEFAULT_ALIGNMENT
  {
    if alignment < DEFAULT_ALIGNMENT then DEFAULT_ALIGNMENT else alignment
  }

  /** The result 0 is NULL. */
  ghost function ArenaAlloc(h: Heap, size: nat, alignment: nat): (Heap, nat) {
    var n, a := ActualSize(size), ActualAlignment(alignment);
    if !Power(a) then (h, 0)
    else
      var k := FirstFit(h, n, a, 0);
      if k < |h.free| then (Reuse(h, k, n), h.blocks[h.free[k]].addr)
      else if BumpFits(h, n, a) then (Carve(h, n, a), BumpAddress(h, a))
      else (h, 0)
  }

  ghost function Malloc(h: Heap, size: nat): (Heap, nat) {
    ArenaAlloc(h, size, DEFAULT_ALIGNMENT)
  }

  function Free(h: Heap, p: nat): Heap {
    var i := IndexOf(h, p);
    if i < |h.blocks| && i !in h.free then h.(free := [i] + h.free) else h
  }

  /** The two words below p are not those of a header in use, so that free drops p.
      Fewer than 8 bytes into the payload they reach into the block's own header. */
  predicate Ignored(b: Block, p: nat)
    requires |b.bytes| == b.capacity && b.addr < p <= End(b)
  {
    var k := p - b.addr;
    k < 8 || Decode(b.bytes[k - 4..k]) != MAGIC || Decode(b.bytes[k - 8..k - 4]) != 0
  }

  /** Overwrite the payload of the block at p, starting at its byte number at. */
  function Write(h: Heap, p: nat, at: nat, bs: seq<byte>): Heap {
    var i := IndexOf(h, p);
    if i < |h.blocks| && at + |bs| <= |h.blocks[i].bytes| then
      h.(blocks := h.blocks[i := h.blocks[i].(bytes := Splice(h.blocks[i].bytes, at, bs))])
    else h
  }

  ghost function Calloc(h: Heap, count: nat, size: nat): (Heap, nat) {
    if count * size >= WORD then (h, 0)
    else
      var (g, p) := Malloc(h, count * size);
      if p == 0 then (g, 0) else (Write(g, p, 0, Zeros(count * size)), p)
  }

  ghost function Realloc(h: Heap, p: nat, size: nat): (Heap, nat) {
    if p == 0 then Malloc(h, size)
    else if size == 0 then (Free(h, p), 0)
    else
      var i := IndexOf(h, p);
      if i == |h.blocks| then (h, 0)
      else if h.blocks[i].capacity >= size then (Resize(h, i, size), p)
      else
        var (g, q) := Malloc(h, size);
        if q == 0 then (g, 0)
        else (Free(Write(g, q, 0, Contents(h.blocks[i])), p), q)
  }

  /** The bytes the owner of a block asked for. */
  function Contents(b: Block): seq<byte> {
    if b.size <= |b.bytes| then b.bytes[..b.size] else b.bytes
  }

  ghost function PosixMemalign(h: Heap, alignment: nat, size: nat): (Heap, nat) {
    if alignment < 8 || !Power(alignment) then (h, 0) else ArenaAlloc(h, size, alignment)
  }

  ghost function AlignedAlloc(h: Heap, alignment: nat, size: nat): (Heap, nat) {
    if !Power(alignment) then (h, 0) else ArenaAlloc(h, size, alignment)
  }

  /** image is the part of the file that is copied in; it is empty for an
      anonymous mapping.  The result 0 stands for MAP_FAILED. */
  ghost function Mmap(h: Heap, length: nat, image: seq<byte>): (Heap, nat) {
    var rounded := RoundUp(length, PAGE);
    if length == 0 || rounded >= WORD then (h, 0)
    else
      var (g, p) := ArenaAlloc(h, rounded, PAGE);
      if p == 0 then (g, 0)
      else (Write(Write(g, p, 0, Zeros(rounded)), p, 0, image), p)
  }

  // ----- layout -----

  lemma {:induction false} Ordered(h: Heap, i: nat, j: nat)
    requires Valid(h) && i < j <= |h.blocks|
    ensures End(h.blocks[i]) <= Start(h, j)
    ensures j < |h.blocks| ==> End(h.blocks[i]) + HEADER <= h.blocks[j].addr
    decreases j
  {
    if i + 1 < j {
      Ordered(h, i, j - 1);
      assert Follows(h, j - 1);
    }
    if j < |h.blocks| {
      assert Follows(h, j);
    }
  }

  /** Headers and payloads of all carved blocks are pairwise disjoint and lie
      inside the used part of the arena. */
  lemma Disjointness(h: Heap)
    requires Valid(h)
    ensures forall i, j :: 0 <= i < j < |h.blocks| ==> End(h.blocks[i]) <= h.blocks[j].addr - HEADER
    ensures forall i :: 0 <= i < |h.blocks| ==>
      h.base <= h.blocks[i].addr - HEADER && End(h.blocks[i]) <= h.base + h.offset <= h.base + ARENA_SIZE
  {
    forall i, j | 0 <= i < j < |h.blocks|
      ensures End(h.blocks[i]) <= h.blocks[j].addr - HEADER
    {
      Ordered(h, i, j);
    }
    forall i | 0 <= i < |h.blocks|
      ensures h.base <= h.blocks[i].addr - HEADER && End(h.blocks[i]) <= h.base + h.offset
    {
      Ordered(h, i, |h.blocks|);
      assert Follows(h, i);
      if i > 0 {
        Ordered(h, 0, i);
        assert Follows(h, 0);
      }
    }
  }

  lemma IndexOfBlock(h: Heap, i: nat)
    requires Valid(h) && i < |h.blocks|
    ensures IndexOf(h, h.blocks[i].addr) == i
  {
    Disjointness(h);
    var j := IndexOf(h, h.blocks[i].addr);
    assert ValidBlock(h.blocks[i]);
    if j < i {
      assert ValidBlock(h.blocks[j]);
    }
  }

  // ----- validity is kept by every step -----

  lemma CarveValid(h: Heap, size: nat, alignment: nat)
    requires Valid(h) && size >= 1 && Power(alignment) && alignment >= DEFAULT_ALIGNMENT
    requires BumpFits(h, size, alignment)
    ensures Valid(Carve(h, size, alignment))
    ensures End(Carve(h, size, alignment).blocks[|h.blocks|]) == h.base + Carve(h, size, alignment).offset
  {
    var g := Carve(h, size, alignment);
    RoundUpLeast(h.base + h.offset + HEADER, alignment);
    forall i | 0 <= i < |g.blocks|
      ensures ValidBlock(g.blocks[i]) && Follows(g, i) && Aligned(g.blocks[i])
    {
      if i < |h.blocks| {
        assert ValidBlock(h.blocks[i]) && Follows(h, i) && Aligned(h.blocks[i]);
      }
    }
  }

  lemma ResizeValid(h: Heap, i: nat, size: nat)
    requires Valid(h) && i < |h.blocks| && 1 <= size <= h.blocks[i].capacity
    ensures Valid(Resize(h, i, size))
  {
    var g := Resize(h, i, size);
    forall j | 0 <= j < |g.blocks|
      ensures ValidBlock(g.blocks[j]) && Follows(g, j) && Aligned(g.blocks[j])
    {
      assert ValidBlock(h.blocks[j]) && Follows(h, j) && Aligned(h.blocks[j]);
    }
  }

  lemma ReuseValid(h: Heap, k: nat, size: nat)
    requires Valid(h) && k < |h.free| && 1 <= size <= h.blocks[h.free[k]].capacity
    ensures Valid(Reuse(h, k, size))
    ensures forall i :: i in Reuse(h, k, size).free <==> i in h.free && i != h.free[k]
  {
    ResizeValid(h, h.free[k], size);
    RemoveAt(h.free, k);
    FreeListValid(Resize(h, h.free[k], size), h.free[..k] + h.free[k + 1..]);
  }

  lemma RemoveAt(s: seq<nat>, k: nat)
    requires k < |s|
    requires forall i, j :: 0 <= i < j < |s| ==> s[i] != s[j]
    ensures var t := s[..k] + s[k + 1..];
      && (forall i, j :: 0 <= i < j < |t| ==> t[i] != t[j])
      && (forall x :: x in t <==> x in s && x != s[k])
      && (forall i :: 0 <= i < |t| ==> t[i] == if i < k then s[i] else s[i + 1])
  {
    var t := s[..k] + s[k + 1..];
    assert forall i :: 0 <= i < |t| ==> t[i] == if i < k then s[i] else s[i + 1];
    forall x | x in s && x != s[k]
      ensures x in t
    {
      var i :| 0 <= i < |s| && s[i] == x;
      assert t[if i < k then i else i - 1] == x;
    }
  }

  lemma FreeListValid(h: Heap, free: seq<nat>)
    requires Valid(h) && ValidFree(h.(free := free))
    ensures Valid(h.(free := free))
  {
    var g := h.(free := free);
    forall i | 0 <= i < |g.blocks|
      ensures ValidBlock(g.blocks[i]) && Follows(g, i) && Aligned(g.blocks[i])
    {
      assert ValidBlock(h.blocks[i]) && Follows(h, i) && Aligned(h.blocks[i]);
    }
  }

  lemma FreeValid(h: Heap, p: nat)
    requires Valid(h)
    ensures Valid(Free(h, p))
  {
    var i := IndexOf(h, p);
    if i < |h.blocks| && i !in h.free {
      FreeListValid(h, [i] + h.free);
    }
  }

  lemma WriteValid(h: Heap, p: nat, at: nat, bs: seq<byte>)
    requires Valid(h)
    ensures Valid(Write(h, p, at, bs))
  {
    var i := IndexOf(h, p);
    if i < |h.blocks| && at + |bs| <= |h.blocks[i].bytes| {
      BytesValid(h, i, Splice(h.blocks[i].bytes, at, bs));
    }
  }

  lemma BytesValid(h: Heap, i: nat, bytes: seq<byte>)
    requires Valid(h) && i < |h.blocks| && |bytes| == |h.blocks[i].bytes|
    ensures Valid(h.(blocks := h.blocks[i := h.blocks[i].(bytes := bytes)]))
  {
    var g := h.(blocks := h.blocks[i := h.blocks[i].(bytes := bytes)]);
    forall j | 0 <= j < |g.blocks|
      ensures ValidBlock(g.blocks[j]) && Follows(g, j) && Aligned(g.blocks[j])
    {
      assert ValidBlock(h.blocks[j]) && Follows(h, j) && Aligned(h.blocks[j]);
    }
  }

  lemma ArenaAllocValid(h: Heap, size: nat, alignment: nat)
    requires Valid(h)
    ensures Valid(ArenaAlloc(h, size, alignment).0)
  {
    var n, a := ActualSize(size), ActualAlignment(alignment);
    if Power(a) {
      var k := FirstFit(h, n, a, 0);
      if k < |h.free| {
        ReuseValid(h, k, n);
      } else if BumpFits(h, n, a) {
        CarveValid(h, n, a);
      }
    }
  }

  /** Complete failure: a request with a power-of-two alignment is refused
      exactly when no listed block can hold it and every aligned address that
      leaves room for a header is too high. */
  lemma FailsExactly(h: Heap, size: nat, alignment: nat)
    requires Valid(h) && Power(ActualAlignment(alignment))
    ensures var n, a := ActualSize(size), ActualAlignment(alignment);
      ArenaAlloc(h, size, alignment).1 == 0 <==>
        && (forall i :: i in h.free ==> !BlockMatches(h.blocks[i], n, a))
        && (forall p: nat :: p >= h.base + h.offset + HEADER && p % a == 0 ==> p + n > h.base + ARENA_SIZE)
  {
    var n, a := ActualSize(size), ActualAlignment(alignment);
    var k := FirstFit(h, n, a, 0);
    RoundUpLeast(h.base + h.offset + HEADER, a);
    if k < |h.free| {
      assert h.free[k] in h.free;
      assert Follows(h, h.free[k]);
    } else {
      forall i | i in h.free
        ensures !BlockMatches(h.blocks[i], n, a)
      {
        var j :| 0 <= j < |h.free| && h.free[j] == i;
        assert !ListedFits(h, j, n, a);
      }
    }
  }

  /** What a successful allocation returns: a block that was free or did not
      exist, with the size asked for; no other block changes. */
  lemma AllocatedBlock(h: Heap, size: nat, alignment: nat) returns (i: nat)
    requires Valid(h) && ArenaAlloc(h, size, alignment).1 != 0
    ensures var (g, p) := ArenaAlloc(h, size, alignment);
      && Valid(g) && g.base == h.base && |g.blocks| >= |h.blocks|
      && i < |g.blocks| && g.blocks[i].addr == p && IndexOf(g, p) == i && i !in g.free
      && (i in h.free || i == |h.blocks|)
      && g.blocks[i].size == ActualSize(size) <= g.blocks[i].capacity == |g.blocks[i].bytes|
      && p % ActualAlignment(alignment) == 0
      && (forall j :: 0 <= j < |h.blocks| && j != i ==> g.blocks[j] == h.blocks[j])
      && (forall j :: 0 <= j < |h.blocks| && j != i ==> (j in g.free <==> j in h.free))
  {
    var n, a := ActualSize(size), ActualAlignment(alignment);
    var k := FirstFit(h, n, a, 0);
    var g := ArenaAlloc(h, size, alignment).0;
    if k < |h.free| {
      i := h.free[k];
      ReuseValid(h, k, n);
      assert ListedFits(h, k, n, a);
    } else {
      i := |h.blocks|;
      CarveValid(h, n, a);
      RoundUpLeast(h.base + h.offset + HEADER, a);
    }
    assert ValidBlock(g.blocks[i]);
    IndexOfBlock(g, i);
  }
}

/** Which addresses free and munmap drop, and what they do with the others.  free
    recognises a block by the two words below its start, which lie in the payload
    when the address is an interior one, so the answer depends on the bytes that
    the client has stored there. */
module Unmapping {
  import opened Bits
  import opened Bytes
  import opened Allocator
  import opened Memory
  import opened Runs

  lemma InsideIsNoBlock(h: Heap, i: nat, p: nat)
    requires Valid(h) && i < |h.blocks| && h.blocks[i].addr < p <= End(h.blocks[i])
    ensures IndexOf(h, p) == |h.blocks|
  {
    Disjointness(h);
    assert forall j :: 0 <= j < |h.blocks| && ValidBlock(h.blocks[j]) ==> h.blocks[j].addr != p;
  }

  // ----- the words below an interior address -----

  /** A word inside the payload is what the block records. */
  lemma PayloadWord(m: seq<byte>, head: nat, h: Heap, i: nat, k: nat)
    requires Represents(m, head, h) && i < |h.blocks| && k + 4 <= h.blocks[i].capacity
    ensures InBounds(h, i) && |h.blocks[i].bytes| == h.blocks[i].capacity
    ensures Load(m, h.blocks[i].addr - h.base + k, 4) == Decode(h.blocks[i].bytes[k..k + 4])
  {
    var b := h.blocks[i];
    var next, flag := StoredBlock(m, head, h, i);
    assert ValidBlock(b);
    var at := b.addr - h.base;
    assert m[at + k..at + k + 4] == m[at..End(b) - h.base][k..k + 4];
  }

  /** The bytes of the magic number, just below the payload. */
  lemma MagicBytes(m: seq<byte>, head: nat, h: Heap, i: nat)
    requires Represents(m, head, h) && i < |h.blocks|
    ensures InBounds(h, i)
    ensures var at := h.blocks[i].addr - h.base; m[at - 4..at] == [0x43, 0x4c, 0x41, 0x52]
  {
    BlockHeader(m, head, h, i);
    var at := h.blocks[i].addr - h.base;
    EncodeDecode(m[at - 4..at]);
    MagicEncoded();
  }

  lemma MagicEncoded()
    ensures Encode(MAGIC, 4) == [0x43, 0x4c, 0x41, 0x52]
  {
    assert Encode(0x5241, 2) == [0x41, 0x52];
  }

  /** Fewer than 8 bytes into a block, what free takes for the flag of a header
      contains a byte of the block's own magic number. */
  lemma NearStart(m: seq<byte>, head: nat, h: Heap, i: nat, p: nat)
    requires Represents(m, head, h) && i < |h.blocks|
    requires h.blocks[i].addr < p < h.blocks[i].addr + 8 && p <= h.base + ARENA_SIZE
    ensures h.base + HEADER <= p && Load(m, p - h.base - 8, 4) != 0
  {
    MagicBytes(m, head, h, i);
    var at, k := h.blocks[i].addr - h.base, p - h.blocks[i].addr;
    var word := m[at + k - 8..at + k - 4];
    assert m[at - 4] == m[at - 4..at][0] && m[at - 1] == m[at - 4..at][3];
    var j := if k <= 4 then 4 - k else 7 - k;
    assert word[j] == m[if k <= 4 then at - 4 else at - 1];
    DecodeNonZero(word, j);
  }

  /** free changes memory exactly when it takes the words for a header in use. */
  lemma StoresExactly(m: seq<byte>, head: nat, base: nat, p: nat)
    requires |m| == ARENA_SIZE && base + HEADER <= p <= base + ARENA_SIZE
    ensures FreeStores(m, head, base, p) != (m, head) <==>
      Load(m, p - base - 4, 4) == MAGIC && Load(m, p - base - 8, 4) == 0
  {
    var at := p - HEADER - base;
    if Load(m, at + TAG, 4) == MAGIC && Load(m, at + FLAG, 4) == 0 {
      var m1 := Splice(m, at + FLAG, Encode(1, 4));
      Pow256Values();
      LoadStored(m, at + FLAG, 4, 1);
      LoadSame(m1, Splice(m1, at + NEXT, Encode(head, 8)), at + FLAG, 4);
    }
  }

  // ----- the exact condition -----

  /** An interior address is dropped exactly when it is ignored. */
  lemma InteriorExact(m: seq<byte>, head: nat, h: Heap, i: nat, p: nat)
    requires Represents(m, head, h) && i < |h.blocks| && h.blocks[i].addr < p <= End(h.blocks[i])
    ensures h.base + HEADER <= p <= h.base + ARENA_SIZE && |h.blocks[i].bytes| == h.blocks[i].capacity
    ensures FreeStores(m, head, h.base, p) == (m, head) <==> Ignored(h.blocks[i], p)
  {
    AllInBounds(h);
    assert InBounds(h, i) && ValidBlock(h.blocks[i]);
    StoresExactly(m, head, h.base, p);
    var k := p - h.blocks[i].addr;
    if k < 8 {
      NearStart(m, head, h, i, p);
    } else {
      PayloadWord(m, head, h, i, k - 4);
      PayloadWord(m, head, h, i, k - 8);
    }
  }

  /** A trim of a live block is dropped exactly when it does not begin at the
      block's start and the words below it do not look like a header in use.  At
      the start the whole block goes onto the list, whatever the length. */
  lemma TrimExact(m: seq<byte>, head: nat, h: Heap, i: nat, p: nat)
    requires Represents(m, head, h) && i < |h.blocks| && i !in h.free
    requires h.blocks[i].addr <= p <= End(h.blocks[i])
    ensures h.base + HEADER <= p <= h.base + ARENA_SIZE && |h.blocks[i].bytes| == h.blocks[i].capacity
    ensures FreeStores(m, head, h.base, p) == (m, head) <==> p != h.blocks[i].addr && Ignored(h.blocks[i], p)
    ensures p == h.blocks[i].addr ==>
      var (m', head') := FreeStores(m, head, h.base, p); Represents(m', head', h.(free := [i] + h.free))
  {
    assert ValidBlock(h.blocks[i]);
    if p != h.blocks[i].addr {
      InteriorExact(m, head, h, i, p);
    } else {
      BlockHeader(m, head, h, i);
      StoresExactly(m, head, h.base, p);
      PushStoresRepresents(m, head, h, i);
    }
  }

  /** The addresses inside a block that a run may pass to munmap are exactly those
      that free drops. */
  lemma LegalExactly(m: seq<byte>, head: nat, h: Heap, i: nat, p: nat, length: nat)
    requires Represents(m, head, h) && i < |h.blocks| && h.blocks[i].addr < p <= End(h.blocks[i])
    ensures h.base + HEADER <= p <= h.base + ARENA_SIZE
    ensures Legal(h, MunmapOp(p, length)) <==> FreeStores(m, head, h.base, p) == (m, head)
    ensures Step(h, MunmapOp(p, length)) == (h, 0)
  {
    InteriorExact(m, head, h, i, p);
    InsideIsNoBlock(h, i, p);
    assert Ignored(h.blocks[i], p) ==> Interior(h, i, p);
    forall j | Interior(h, j, p)
      ensures j == i
    {
      OneHome(h, i, j, p);
    }
  }

  lemma OneHome(h: Heap, i: nat, j: nat, p: nat)
    requires Valid(h) && i < |h.blocks| && j < |h.blocks|
    requires h.blocks[i].addr < p <= End(h.blocks[i]) && h.blocks[j].addr < p <= End(h.blocks[j])
    ensures i == j
  {
    Disjointness(h);
  }

  /** The flag and the magic number of a block in use. */
  const FORGERY: seq<byte> := Encode(0, 4) + Encode(MAGIC, 4)

  /** Not every trim is dropped.  Once a client has stored the two words of a header
      below an interior address, munmap of that address stores into the payload and
      makes a header of it the head of the list: memory then represents no heap with
      the blocks that exist. */
  lemma ForgedTrimStores(m: seq<byte>, head: nat, h: Heap, i: nat, k: nat, length: nat)
    requires Valid(h) && i < |h.blocks| && i !in h.free && 8 <= k <= h.blocks[i].capacity
    requires Represents(m, head, Step(h, StoreOp(h.blocks[i].addr, k - 8, FORGERY)).0)
    ensures var p := h.blocks[i].addr + k;
      && Legal(h, StoreOp(h.blocks[i].addr, k - 8, FORGERY))
      && !Legal(Step(h, StoreOp(h.blocks[i].addr, k - 8, FORGERY)).0, MunmapOp(p, length))
      && h.base + HEADER <= p <= h.base + ARENA_SIZE
      && var (m', head') := FreeStores(m, head, h.base, p);
      && m' != m && head' == p - HEADER
      && forall g: Heap :: Addresses(g) == Addresses(h) ==> !Represents(m', head', g)
  {
    var p := h.blocks[i].addr + k;
    ForgedBlock(h, i, k);
    var g0 := Step(h, StoreOp(h.blocks[i].addr, k - 8, FORGERY)).0;
    LegalExactly(m, head, g0, i, p, length);
    InteriorExact(m, head, g0, i, p);
    InsideIsNoBlock(h, i, p);
    forall g: Heap | Addresses(g) == Addresses(h)
      ensures !Represents(FreeStores(m, head, h.base, p).0, p - HEADER, g)
    {
      HeadIsBlock(FreeStores(m, head, h.base, p).0, p - HEADER, h, g);
    }
  }

  lemma ForgedBlock(h: Heap, i: nat, k: nat)
    requires Valid(h) && i < |h.blocks| && i !in h.free && 8 <= k <= h.blocks[i].capacity
    ensures var g := Step(h, StoreOp(h.blocks[i].addr, k - 8, FORGERY)).0; var b := g.blocks;
      && g.base == h.base && |b| == |h.blocks|
      && b[i].addr == h.blocks[i].addr && End(b[i]) == End(h.blocks[i]) && |b[i].bytes| == b[i].capacity
      && !Ignored(b[i], b[i].addr + k)
    ensures Legal(h, StoreOp(h.blocks[i].addr, k - 8, FORGERY))
  {
    IndexOfBlock(h, i);
    assert ValidBlock(h.blocks[i]);
    Forged(h.blocks[i], k);
  }

  function Addresses(h: Heap): seq<nat> {
    seq(|h.blocks|, i requires 0 <= i < |h.blocks| => h.blocks[i].addr)
  }

  lemma HeadIsBlock(m: seq<byte>, head: nat, h: Heap, g: Heap)
    requires Addresses(g) == Addresses(h) && head != 0
    requires forall i :: 0 <= i < |h.blocks| ==> HeaderOf(h, i) != head
    ensures !Represents(m, head, g)
  {
    if g.free != [] && g.free[0] < |g.blocks| {
      var i := g.free[0];
      assert |g.blocks| == |Addresses(g)| == |Addresses(h)| == |h.blocks|;
      assert g.blocks[i].addr == Addresses(g)[i] == Addresses(h)[i] == h.blocks[i].addr;
      assert HeaderOf(h, i) != head;
    }
  }

  lemma Forged(b: Block, k: nat)
    requires |b.bytes| == b.capacity && 8 <= k <= b.capacity
    ensures !Ignored(b.(bytes := Splice(b.bytes, k - 8, FORGERY)), b.addr + k)
  {
    var bs := Splice(b.bytes, k - 8, FORGERY);
    assert bs[k - 8..k - 4] == Encode(0, 4);
    assert bs[k - 4..k] == Encode(MAGIC, 4);
    Pow256Values();
    DecodeEncode(0, 4);
    DecodeEncode(MAGIC, 4);
  }

  /** Every interior page boundary of a mapping that still holds zeros may be
      passed to munmap, and nothing changes. */
  lemma ZeroPageTrimDropped(h: Heap, i: nat, k: nat, length: nat)
    requires Valid(h) && i < |h.blocks| && 0 < k && h.blocks[i].addr + k * PAGE < End(h.blocks[i])
    requires h.blocks[i].bytes == Zeros(h.blocks[i].capacity)
    ensures var op := MunmapOp(h.blocks[i].addr + k * PAGE, length); Legal(h, op) && Step(h, op) == (h, 0)
  {
    var b, p := h.blocks[i], h.blocks[i].addr + k * PAGE;
    InsideIsNoBlock(h, i, p);
    DecodeZeros(b.bytes[p - 4 - b.addr..p - b.addr]);
    assert Interior(h, i, p);
  }

  // ----- freeing twice -----

  /** The block at p is on the free list. */
  predicate Listed(h: Heap, p: nat) {
    IndexOf(h, p) < |h.blocks| && IndexOf(h, p) in h.free
  }

  lemma ListedByBlock(h: Heap, i: nat, p: nat)
    requires Valid(h) && i < |h.blocks| && i in h.free && h.blocks[i].addr == p
    ensures Listed(h, p)
  {
    IndexOfBlock(h, i);
  }

  lemma AllocKeepsListed(h: Heap, size: nat, alignment: nat, p: nat)
    requires Valid(h) && Listed(h, p) && ArenaAlloc(h, size, alignment).1 != p
    ensures Valid(ArenaAlloc(h, size, alignment).0) && Listed(ArenaAlloc(h, size, alignment).0, p)
  {
    if ArenaAlloc(h, size, alignment).1 == 0 {
      NullOnlyOnRefusal(h, size, alignment);
    } else {
      var i := AllocatedBlock(h, size, alignment);
      ListedByBlock(ArenaAlloc(h, size, alignment).0, IndexOf(h, p), p);
    }
  }

  lemma WriteKeepsListed(h: Heap, q: nat, at: nat, bs: seq<byte>, p: nat)
    requires Valid(h) && Listed(h, p)
    ensures Valid(Write(h, q, at, bs)) && Listed(Write(h, q, at, bs), p)
  {
    WriteValid(h, q, at, bs);
    ListedByBlock(Write(h, q, at, bs), IndexOf(h, p), p);
  }

  lemma FreeKeepsListed(h: Heap, q: nat, p: nat)
    requires Valid(h) && Listed(h, p)
    ensures Valid(Free(h, q)) && Listed(Free(h, q), p)
  {
    FreeValid(h, q);
    FreeMembers(h, q);
    ListedByBlock(Free(h, q), IndexOf(h, p), p);
  }

  lemma ResizeKeepsListed(h: Heap, i: nat, size: nat, p: nat)
    requires Valid(h) && Listed(h, p) && i < |h.blocks| && 1 <= size <= h.blocks[i].capacity
    ensures Valid(Resize(h, i, size)) && Listed(Resize(h, i, size), p)
  {
    ResizeValid(h, i, size);
    ListedByBlock(Resize(h, i, size), IndexOf(h, p), p);
  }

  lemma ReallocKeepsListed(h: Heap, q: nat, size: nat, p: nat)
    requires Valid(h) && Listed(h, p) && Realloc(h, q, size).1 != p && (q == 0 || LiveAt(h, q))
    ensures Valid(Realloc(h, q, size).0) && Listed(Realloc(h, q, size).0, p)
  {
    if q == 0 {
      AllocKeepsListed(h, size, DEFAULT_ALIGNMENT, p);
    } else if size == 0 {
      FreeKeepsListed(h, q, p);
    } else if h.blocks[IndexOf(h, q)].capacity >= size {
      ResizeKeepsListed(h, IndexOf(h, q), size, p);
    } else {
      var (g, r) := Malloc(h, size);
      AllocKeepsListed(h, size, DEFAULT_ALIGNMENT, p);
      if r != 0 {
        WriteKeepsListed(g, r, 0, Contents(h.blocks[IndexOf(h, q)]), p);
        FreeKeepsListed(Write(g, r, 0, Contents(h.blocks[IndexOf(h, q)])), q, p);
      }
    }
  }

  lemma CallocKeepsListed(h: Heap, count: nat, size: nat, p: nat)
    requires Valid(h) && Listed(h, p) && Calloc(h, count, size).1 != p
    ensures Valid(Calloc(h, count, size).0) && Listed(Calloc(h, count, size).0, p)
  {
    if count * size < WORD {
      var (g, r) := Malloc(h, count * size);
      AllocKeepsListed(h, count * size, DEFAULT_ALIGNMENT, p);
      WriteKeepsListed(g, r, 0, Zeros(count * size), p);
    }
  }

  lemma MmapKeepsListed(h: Heap, length: nat, image: seq<byte>, p: nat)
    requires Valid(h) && Listed(h, p) && Mmap(h, length, image).1 != p
    ensures Valid(Mmap(h, length, image).0) && Listed(Mmap(h, length, image).0, p)
  {
    var r := RoundUp(length, PAGE);
    if length > 0 && r < WORD {
      var (g, q) := ArenaAlloc(h, r, PAGE);
      AllocKeepsListed(h, r, PAGE, p);
      WriteKeepsListed(g, q, 0, Zeros(r), p);
      WriteKeepsListed(Write(g, q, 0, Zeros(r)), q, 0, image, p);
    }
  }

  lemma AlignedKeepsListed(h: Heap, size: nat, alignment: nat, p: nat)
    requires Valid(h) && Listed(h, p)
    ensures AlignedAlloc(h, alignment, size).1 != p ==>
      Valid(AlignedAlloc(h, alignment, size).0) && Listed(AlignedAlloc(h, alignment, size).0, p)
    ensures PosixMemalign(h, alignment, size).1 != p ==>
      Valid(PosixMemalign(h, alignment, size).0) && Listed(PosixMemalign(h, alignment, size).0, p)
  {
    if ArenaAlloc(h, size, alignment).1 != p {
      AllocKeepsListed(h, size, alignment, p);
    }
  }

  lemma StepKeepsListed(h: Heap, op: Op, p: nat)
    requires Valid(h) && Legal(h, op) && Listed(h, p) && Step(h, op).1 != p
    ensures Valid(Step(h, op).0) && Listed(Step(h, op).0, p)
  {
    match op
    case MallocOp(n) => AllocKeepsListed(h, n, DEFAULT_ALIGNMENT, p);
    case CallocOp(count, n) => CallocKeepsListed(h, count, n, p);
    case ReallocOp(q, n) => ReallocKeepsListed(h, q, n, p);
    case MemalignOp(a, n) => AlignedKeepsListed(h, n, a, p);
    case AlignedOp(a, n) => AlignedKeepsListed(h, n, a, p);
    case MmapOp(length, image) => MmapKeepsListed(h, length, image, p);
    case FreeOp(q) => FreeKeepsListed(h, q, p);
    case MunmapOp(q, length) => FreeKeepsListed(h, q, p);
    case StoreOp(q, at, bs) => WriteKeepsListed(h, q, at, bs, p);
  }

  lemma {:induction false} RunKeepsListed(h: Heap, ops: seq<Op>, p: nat)
    requires Valid(h) && LegalRun(h, ops) && Listed(h, p) && p !in Results(h, ops)
    ensures Listed(Exec(h, ops), p)
    decreases |ops|
  {
    if ops != [] {
      assert Results(h, ops)[0] == Step(h, ops[0]).1;
      StepKeepsListed(h, ops[0], p);
      assert Results(h, ops)[1..] == Results(Step(h, ops[0]).0, ops[1..]);
      RunKeepsListed(Step(h, ops[0]).0, ops[1..], p);
    }
  }

  /** Until an allocation hands a freed block out again, freeing it another time
      changes nothing, whatever calls lie in between. */
  lemma DoubleFree(h: Heap, p: nat, ops: seq<Op>)
    requires Valid(h) && IndexOf(h, p) < |h.blocks|
    requires LegalRun(Free(h, p), ops) && p !in Results(Free(h, p), ops)
    ensures Free(Exec(Free(h, p), ops), p) == Exec(Free(h, p), ops)
  {
    FreeValid(h, p);
    FreeMembers(h, p);
    ListedByBlock(Free(h, p), IndexOf(h, p), p);
    RunKeepsListed(Free(h, p), ops, p);
  }
}

/** How raw arena memory represents the abstract heap: where each header field
    is stored, how the free list is threaded, and what each kind of store does. */
module Memory {
  import opened Bits
  import opened Bytes
  import opened Allocator

  /** Offsets of the fields of a header. */
  const CAPACITY: nat := 8
  const NEXT: nat := 16
  const FLAG: nat := 24
  const TAG: nat := 28

  function Load(m: seq<byte>, at: nat, n: nat): nat
    requires at + n <= |m|
  {
    Decode(m[at..at + n])
  }

  predicate HeaderAt(m: seq<byte>, at: nat, size: nat, capacity: nat, next: nat, flag: nat)
    requires at + HEADER <= |m|
  {
    && Load(m, at, 8) == size
    && Load(m, at + CAPACITY, 8) == capacity
    && Load(m, at + NEXT, 8) == next
    && Load(m, at + FLAG, 4) == flag
    && Load(m, at + TAG, 4) == MAGIC
  }

  /** The address of the header of block i, as stored in links. */
  function HeaderOf(h: Heap, i: nat): int
    requires i < |h.blocks|
  {
    h.blocks[i].addr - HEADER
  }

  /** The link that leads to position k of the free list. */
  function Link(h: Heap, k: nat): int
    requires k < |h.free| ==> h.free[k] < |h.blocks|
  {
    if k < |h.free| then HeaderOf(h, h.free[k]) else 0
  }

  ghost predicate InBounds(h: Heap, i: nat)
    requires i < |h.blocks|
  {
    && h.base + HEADER <= h.blocks[i].addr
    && h.blocks[i].addr + h.blocks[i].capacity <= h.base + h.offset
  }

  ghost predicate BlockAt(m: seq<byte>, h: Heap, i: nat, next: int, flag: nat)
    requires |m| == ARENA_SIZE && i < |h.blocks| && h.offset <= ARENA_SIZE
  {
    var b := h.blocks[i];
    && InBounds(h, i)
    && next >= 0
    && HeaderAt(m, HeaderOf(h, i) - h.base, b.size, b.capacity, next, flag)
    && m[b.addr - h.base..End(b) - h.base] == b.bytes
  }

  /** The block at position k of the list is marked free and linked to the next. */
  ghost predicate ListedAt(m: seq<byte>, h: Heap, k: nat)
    requires |m| == ARENA_SIZE && ValidFree(h) && k < |h.free| && h.offset <= ARENA_SIZE
  {
    BlockAt(m, h, h.free[k], Link(h, k + 1), 1)
  }

  ghost predicate Represents(m: seq<byte>, head: nat, h: Heap) {
    && |m| == ARENA_SIZE
    && Valid(h)
    && head == Link(h, 0)
    && (forall k {:trigger ListedAt(m, h, k)} :: 0 <= k < |h.free| ==> ListedAt(m, h, k))
    && (forall i {:trigger BlockAt(m, h, i, 0, 0)} :: 0 <= i < |h.blocks| && i !in h.free ==> BlockAt(m, h, i, 0, 0))
    && m[h.offset..] == Zeros(ARENA_SIZE - h.offset)
  }

  /** m and m' agree except possibly on [lo, hi). */
  predicate SameOutside(m: seq<byte>, m': seq<byte>, lo: int, hi: int) {
    |m| == |m'| && forall x :: 0 <= x < |m| && !(lo <= x < hi) ==> m[x] == m'[x]
  }

  // ----- loads after stores -----

  lemma LoadStored(m: seq<byte>, at: nat, n: nat, value: nat)
    requires at + n <= |m| && value < Pow256(n)
    ensures Load(Splice(m, at, Encode(value, n)), at, n) == value
  {
    assert Splice(m, at, Encode(value, n))[at..at + n] == Encode(value, n);
    DecodeEncode(value, n);
  }

  lemma LoadSame(m: seq<byte>, m': seq<byte>, at: nat, n: nat)
    requires |m| == |m'| && at + n <= |m|
    requires forall x :: at <= x < at + n ==> m[x] == m'[x]
    ensures Load(m, at, n) == Load(m', at, n)
  {
    assert m[at..at + n] == m'[at..at + n];
  }

  lemma HeaderSame(m: seq<byte>, m': seq<byte>, at: nat, size: nat, capacity: nat, next: nat, flag: nat)
    requires |m| == |m'| && at + HEADER <= |m|
    requires HeaderAt(m, at, size, capacity, next, flag)
    requires forall x :: at <= x < at + HEADER ==> m[x] == m'[x]
    ensures HeaderAt(m', at, size, capacity, next, flag)
  {
    LoadSame(m, m', at, 8);
    LoadSame(m, m', at + CAPACITY, 8);
    LoadSame(m, m', at + NEXT, 8);
    LoadSame(m, m', at + FLAG, 4);
    LoadSame(m, m', at + TAG, 4);
  }

  lemma StoreSize(m: seq<byte>, at: nat, value: u64, size: nat, capacity: nat, next: nat, flag: nat)
    requires at + HEADER <= |m| && HeaderAt(m, at, size, capacity, next, flag)
    ensures HeaderAt(Splice(m, at, Encode(value, 8)), at, value, capacity, next, flag)
  {
    Pow256Values();
    var m' := Splice(m, at, Encode(value, 8));
    LoadStored(m, at, 8, value);
    LoadSame(m, m', at + CAPACITY, 8);
    LoadSame(m, m', at + NEXT, 8);
    LoadSame(m, m', at + FLAG, 4);
    LoadSame(m, m', at + TAG, 4);
  }

  lemma StoreNext(m: seq<byte>, at: nat, value: u64, size: nat, capacity: nat, next: nat, flag: nat)
    requires at + HEADER <= |m| && HeaderAt(m, at, size, capacity, next, flag)
    ensures HeaderAt(Splice(m, at + NEXT, Encode(value, 8)), at, size, capacity, value, flag)
  {
    Pow256Values();
    var m' := Splice(m, at + NEXT, Encode(value, 8));
    LoadStored(m, at + NEXT, 8, value);
    LoadSame(m, m', at, 8);
    LoadSame(m, m', at + CAPACITY, 8);
    LoadSame(m, m', at + FLAG, 4);
    LoadSame(m, m', at + TAG, 4);
  }

  lemma StoreFlag(m: seq<byte>, at: nat, value: nat, size: nat, capacity: nat, next: nat, flag: nat)
    requires at + HEADER <= |m| && HeaderAt(m, at, size, capacity, next, flag) && value < 2
    ensures HeaderAt(Splice(m, at + FLAG, Encode(value, 4)), at, size, capacity, next, value)
  {
    Pow256Values();
    var m' := Splice(m, at + FLAG, Encode(value, 4));
    LoadStored(m, at + FLAG, 4, value);
    LoadSame(m, m', at, 8);
    LoadSame(m, m', at + CAPACITY, 8);
    LoadSame(m, m', at + NEXT, 8);
    LoadSame(m, m', at + TAG, 4);
  }

  /** The five stores that create a header. */
  function NewHeader(m: seq<byte>, at: nat, size: u64): seq<byte>
    requires at + HEADER <= |m|
  {
    var m1 := Splice(m, at, Encode(size, 8));
    var m2 := Splice(m1, at + CAPACITY, Encode(size, 8));
    var m3 := Splice(m2, at + NEXT, Encode(0, 8));
    var m4 := Splice(m3, at + FLAG, Encode(0, 4));
    Splice(m4, at + TAG, Encode(MAGIC, 4))
  }

  lemma NewHeaderAt(m: seq<byte>, at: nat, size: u64)
    requires at + HEADER <= |m|
    ensures SameOutside(m, NewHeader(m, at, size), at, at + HEADER)
    ensures HeaderAt(NewHeader(m, at, size), at, size, size, 0, 0)
  {
    Pow256Values();
    var m1 := Splice(m, at, Encode(size, 8));
    var m2 := Splice(m1, at + CAPACITY, Encode(size, 8));
    var m3 := Splice(m2, at + NEXT, Encode(0, 8));
    var m4 := Splice(m3, at + FLAG, Encode(0, 4));
    var m5 := Splice(m4, at + TAG, Encode(MAGIC, 4));
    LoadStored(m, at, 8, size);
    LoadSame(m1, m5, at, 8);
    LoadStored(m1, at + CAPACITY, 8, size);
    LoadSame(m2, m5, at + CAPACITY, 8);
    LoadStored(m2, at + NEXT, 8, 0);
    LoadSame(m3, m5, at + NEXT, 8);
    LoadStored(m3, at + FLAG, 4, 0);
    LoadSame(m4, m5, at + FLAG, 4);
    LoadStored(m4, at + TAG, 4, MAGIC);
  }

  // ----- what the represented blocks look like -----

  /** The link and flag stored in block i. */
  lemma StoredBlock(m: seq<byte>, head: nat, h: Heap, i: nat) returns (next: nat, flag: nat)
    requires Represents(m, head, h) && i < |h.blocks|
    ensures BlockAt(m, h, i, next, flag)
    ensures flag == if i in h.free then 1 else 0
  {
    if i in h.free {
      var k :| 0 <= k < |h.free| && h.free[k] == i;
      assert ListedAt(m, h, k);
      next, flag := Link(h, k + 1), 1;
    } else {
      assert BlockAt(m, h, i, 0, 0);
      next, flag := 0, 0;
    }
  }

  lemma AllInBounds(h: Heap)
    requires Valid(h)
    ensures forall i :: 0 <= i < |h.blocks| ==> InBounds(h, i)
  {
    Disjointness(h);
  }

  /** A change confined to the header of block j leaves every other block, and
      the payload of j, as it was. */
  lemma BlockFrame(m: seq<byte>, m': seq<byte>, h: Heap, i: nat, j: nat, next: int, flag: nat)
    requires Valid(h) && |m| == ARENA_SIZE && i < |h.blocks| && j < |h.blocks| && i != j
    requires BlockAt(m, h, i, next, flag)
    requires SameOutside(m, m', HeaderOf(h, j) - h.base, End(h.blocks[j]) - h.base)
    ensures BlockAt(m', h, i, next, flag)
  {
    Disjointness(h);
    var b, lo := h.blocks[i], HeaderOf(h, i) - h.base;
    assert forall x :: lo <= x < End(b) - h.base ==> m[x] == m'[x];
    HeaderSame(m, m', lo, b.size, b.capacity, next, flag);
    assert m'[b.addr - h.base..End(b) - h.base] == m[b.addr - h.base..End(b) - h.base];
  }

  lemma ZeroFrame(m: seq<byte>, m': seq<byte>, head: nat, h: Heap, j: nat)
    requires Represents(m, head, h) && j < |h.blocks|
    requires SameOutside(m, m', HeaderOf(h, j) - h.base, End(h.blocks[j]) - h.base)
    ensures m'[h.offset..] == Zeros(ARENA_SIZE - h.offset)
  {
    AllInBounds(h);
    assert InBounds(h, j);
    assert m'[h.offset..] == m[h.offset..];
  }

  lemma HeaderRewritten(m: seq<byte>, m': seq<byte>, h: Heap, g: Heap, i: nat, size: nat, next': nat, flag': nat)
    requires h.offset <= ARENA_SIZE && |m| == ARENA_SIZE && i < |h.blocks|
    requires g.base == h.base && g.offset == h.offset
    requires i < |g.blocks| && g.blocks[i] == h.blocks[i].(size := size)
    requires InBounds(h, i) && m[h.blocks[i].addr - h.base..End(h.blocks[i]) - h.base] == h.blocks[i].bytes
    requires SameOutside(m, m', HeaderOf(h, i) - h.base, h.blocks[i].addr - h.base)
    requires HeaderAt(m', HeaderOf(h, i) - h.base, size, h.blocks[i].capacity, next', flag')
    ensures BlockAt(m', g, i, next', flag')
  {
    SliceSame(m, m', h.blocks[i].addr - h.base, End(h.blocks[i]) - h.base);
  }

  lemma SliceSame(m: seq<byte>, m': seq<byte>, lo: nat, hi: nat)
    requires lo <= hi <= |m| == |m'| && forall x :: lo <= x < hi ==> m[x] == m'[x]
    ensures m'[lo..hi] == m[lo..hi]
  {
  }

  // BlockAt depends only on the block itself, the base and the offset.
  lemma BlockAtSameBlock(m: seq<byte>, h: Heap, g: Heap, i: nat, next: int, flag: nat)
    requires |m| == ARENA_SIZE && h.base == g.base && h.offset <= g.offset <= ARENA_SIZE
    requires i < |h.blocks| && i < |g.blocks| && h.blocks[i] == g.blocks[i]
    requires BlockAt(m, h, i, next, flag)
    ensures BlockAt(m, g, i, next, flag)
  {
  }

  /** free: block i goes to the front of the list. */
  lemma PushRepresents(m: seq<byte>, m': seq<byte>, head: nat, h: Heap, i: nat)
    requires Represents(m, head, h) && i < |h.blocks| && i !in h.free
    requires InBounds(h, i)
    requires SameOutside(m, m', HeaderOf(h, i) - h.base, h.blocks[i].addr - h.base)
    requires HeaderAt(m', HeaderOf(h, i) - h.base, h.blocks[i].size, h.blocks[i].capacity, head, 1)
    ensures Represents(m', HeaderOf(h, i), h.(free := [i] + h.free))
  {
    var g := h.(free := [i] + h.free);
    FreeListValid(h, [i] + h.free);
    ZeroFrame(m, m', head, h, i);
    forall k | 0 <= k < |g.free|
      ensures ListedAt(m', g, k)
    {
      PushedPosition(m, m', head, h, i, k);
    }
    forall j | 0 <= j < |g.blocks| && j !in g.free
      ensures BlockAt(m', g, j, 0, 0)
    {
      assert BlockAt(m, h, j, 0, 0);
      BlockFrame(m, m', h, j, i, 0, 0);
      BlockAtSameBlock(m', h, g, j, 0, 0);
    }
  }

  lemma PushedPosition(m: seq<byte>, m': seq<byte>, head: nat, h: Heap, i: nat, k: nat)
    requires Represents(m, head, h) && i < |h.blocks| && i !in h.free && k <= |h.free|
    requires InBounds(h, i)
    requires SameOutside(m, m', HeaderOf(h, i) - h.base, h.blocks[i].addr - h.base)
    requires HeaderAt(m', HeaderOf(h, i) - h.base, h.blocks[i].size, h.blocks[i].capacity, head, 1)
    requires Valid(h.(free := [i] + h.free))
    ensures ListedAt(m', h.(free := [i] + h.free), k)
  {
    var g := h.(free := [i] + h.free);
    assert Link(g, k + 1) == Link(h, k);
    if k == 0 {
      PushedHead(m, m', head, h, g, i);
    } else {
      var j := h.free[k - 1];
      assert j in h.free && g.free[k] == j;
      assert ListedAt(m, h, k - 1);
      ShiftedPosition(m, m', h, g, j, i, Link(h, k));
    }
  }

  lemma PushedHead(m: seq<byte>, m': seq<byte>, head: nat, h: Heap, g: Heap, i: nat)
    requires Represents(m, head, h) && i < |h.blocks| && i !in h.free
    requires InBounds(h, i) && g.blocks == h.blocks && g.base == h.base && g.offset == h.offset
    requires SameOutside(m, m', HeaderOf(h, i) - h.base, h.blocks[i].addr - h.base)
    requires HeaderAt(m', HeaderOf(h, i) - h.base, h.blocks[i].size, h.blocks[i].capacity, head, 1)
    ensures BlockAt(m', g, i, head, 1)
  {
    assert BlockAt(m, h, i, 0, 0);
    HeaderRewritten(m, m', h, g, i, h.blocks[i].size, head, 1);
  }

  lemma ShiftedPosition(m: seq<byte>, m': seq<byte>, h: Heap, g: Heap, j: nat, i: nat, next: int)
    requires Valid(h) && |m| == ARENA_SIZE && i < |h.blocks| && j < |h.blocks| && i != j
    requires BlockAt(m, h, j, next, 1)
    requires SameOutside(m, m', HeaderOf(h, i) - h.base, h.blocks[i].addr - h.base)
    requires g.blocks == h.blocks && g.base == h.base && g.offset == h.offset
    ensures BlockAt(m', g, j, next, 1)
  {
    BlockFrame(m, m', h, j, i, next, 1);
    BlockAtSameBlock(m', h, g, j, next, 1);
  }

  /** m and m' agree outside the headers of blocks i and j. */
  predicate SameOutsideHeaders(m: seq<byte>, m': seq<byte>, h: Heap, i: nat, j: nat)
    requires i < |h.blocks| && j < |h.blocks|
  {
    |m| == |m'| && forall x :: 0 <= x < |m| && !InHeader(h, i, x) && !InHeader(h, j, x) ==> m[x] == m'[x]
  }

  predicate InHeader(h: Heap, i: nat, x: int)
    requires i < |h.blocks|
  {
    HeaderOf(h, i) <= x + h.base < h.blocks[i].addr
  }

  lemma TwoHeadersFrame(m: seq<byte>, m': seq<byte>, h: Heap, b: nat, i: nat, j: nat, next: int, flag: nat)
    requires Valid(h) && |m| == ARENA_SIZE && b < |h.blocks| && i < |h.blocks| && j < |h.blocks|
    requires b != i && b != j
    requires BlockAt(m, h, b, next, flag)
    requires SameOutsideHeaders(m, m', h, i, j)
    ensures BlockAt(m', h, b, next, flag)
  {
    Disjointness(h);
    assert ValidBlock(h.blocks[i]) && ValidBlock(h.blocks[j]);
    var blk, lo := h.blocks[b], HeaderOf(h, b) - h.base;
    forall x | lo <= x < End(blk) - h.base
      ensures m[x] == m'[x]
    {
      assert !InHeader(h, i, x) && !InHeader(h, j, x);
    }
    HeaderSame(m, m', lo, blk.size, blk.capacity, next, flag);
    assert m'[blk.addr - h.base..End(blk) - h.base] == m[blk.addr - h.base..End(blk) - h.base];
  }

  lemma TwoHeadersPayload(m: seq<byte>, m': seq<byte>, h: Heap, b: nat, i: nat, j: nat, next: int, flag: nat)
    requires Valid(h) && |m| == ARENA_SIZE && b < |h.blocks| && i < |h.blocks| && j < |h.blocks|
    requires BlockAt(m, h, b, next, flag)
    requires SameOutsideHeaders(m, m', h, i, j)
    ensures m'[h.blocks[b].addr - h.base..End(h.blocks[b]) - h.base] == h.blocks[b].bytes
  {
    Disjointness(h);
    assert ValidBlock(h.blocks[i]) && ValidBlock(h.blocks[j]);
    var blk := h.blocks[b];
    forall x | blk.addr - h.base <= x < End(blk) - h.base
      ensures m[x] == m'[x]
    {
      assert !InHeader(h, i, x) && !InHeader(h, j, x);
    }
    assert m'[blk.addr - h.base..End(blk) - h.base] == m[blk.addr - h.base..End(blk) - h.base];
  }

  lemma TwoHeadersZero(m: seq<byte>, m': seq<byte>, head: nat, h: Heap, i: nat, j: nat)
    requires Represents(m, head, h) && i < |h.blocks| && j < |h.blocks|
    requires SameOutsideHeaders(m, m', h, i, j)
    ensures m'[h.offset..] == Zeros(ARENA_SIZE - h.offset)
  {
    AllInBounds(h);
    assert InBounds(h, i) && InBounds(h, j);
    forall x | h.offset <= x < ARENA_SIZE
      ensures m'[x] == m[x]
    {
      assert !InHeader(h, i, x) && !InHeader(h, j, x);
    }
    assert m'[h.offset..] == m[h.offset..];
  }

  /** Reuse: the block at position k leaves the list.  Its predecessor, if any,
      is linked to its successor. */
  lemma UnlinkRepresents(m: seq<byte>, m': seq<byte>, head: nat, h: Heap, k: nat, size: nat)
    requires Represents(m, head, h) && k < |h.free|
    requires 1 <= size <= h.blocks[h.free[k]].capacity
    requires var i, prev := h.free[k], h.free[if k == 0 then k else k - 1];
      && HeaderOf(h, i) >= h.base && HeaderOf(h, prev) >= h.base
      && InBounds(h, i) && InBounds(h, prev)
      && SameOutsideHeaders(m, m', h, i, prev)
      && HeaderAt(m', HeaderOf(h, i) - h.base, size, h.blocks[i].capacity, 0, 0)
      && Link(h, k + 1) >= 0
      && (k > 0 ==>
            HeaderAt(m', HeaderOf(h, prev) - h.base, h.blocks[prev].size, h.blocks[prev].capacity, Link(h, k + 1), 1))
    ensures Represents(m', if k == 0 then Link(h, 1) else head, Reuse(h, k, size))
  {
    var i, prev, g := h.free[k], h.free[if k == 0 then k else k - 1], Reuse(h, k, size);
    ReuseValid(h, k, size);
    RemoveAt(h.free, k);
    TwoHeadersZero(m, m', head, h, i, prev);
    forall p | 0 <= p < |g.free|
      ensures ListedAt(m', g, p)
    {
      assert ListedAt(m, h, if p < k then p else p + 1);
      UnlinkedPosition(m, m', h, k, size, p);
    }
    forall b | 0 <= b < |g.blocks| && b !in g.free
      ensures BlockAt(m', g, b, 0, 0)
    {
      UnlinkedLive(m, m', head, h, k, size, b);
    }
  }

  lemma UnlinkedLive(m: seq<byte>, m': seq<byte>, head: nat, h: Heap, k: nat, size: nat, b: nat)
    requires Represents(m, head, h) && k < |h.free| && b < |h.blocks|
    requires var i, prev := h.free[k], h.free[if k == 0 then k else k - 1];
      && InBounds(h, i) && SameOutsideHeaders(m, m', h, i, prev)
      && HeaderAt(m', HeaderOf(h, i) - h.base, size, h.blocks[i].capacity, 0, 0)
    requires b == h.free[k] || b !in h.free
    ensures BlockAt(m', Reuse(h, k, size), b, 0, 0)
  {
    var i, prev := h.free[k], h.free[if k == 0 then k else k - 1];
    if b == i {
      assert ListedAt(m, h, k);
      UnlinkedSelf(m, m', h, Reuse(h, k, size), i, prev, size, Link(h, k + 1));
    } else {
      assert i in h.free && prev in h.free;
      assert BlockAt(m, h, b, 0, 0);
      LiveUntouched(m, m', h, Reuse(h, k, size), b, i, prev);
    }
  }

  lemma UnlinkedSelf(m: seq<byte>, m': seq<byte>, h: Heap, g: Heap, i: nat, prev: nat, size: nat, next: int)
    requires Valid(h) && |m| == ARENA_SIZE && i < |h.blocks| && prev < |h.blocks|
    requires BlockAt(m, h, i, next, 1) && SameOutsideHeaders(m, m', h, i, prev)
    requires HeaderAt(m', HeaderOf(h, i) - h.base, size, h.blocks[i].capacity, 0, 0)
    requires g.base == h.base && g.offset == h.offset
    requires i < |g.blocks| && g.blocks[i] == h.blocks[i].(size := size)
    ensures BlockAt(m', g, i, 0, 0)
  {
    TwoHeadersPayload(m, m', h, i, i, prev, next, 1);
    BlockAssembled(m', h, g, i, size);
  }

  lemma BlockAssembled(m: seq<byte>, h: Heap, g: Heap, i: nat, size: nat)
    requires |m| == ARENA_SIZE && h.offset <= ARENA_SIZE && i < |h.blocks| && InBounds(h, i)
    requires g.base == h.base && g.offset == h.offset
    requires i < |g.blocks| && g.blocks[i] == h.blocks[i].(size := size)
    requires HeaderAt(m, HeaderOf(h, i) - h.base, size, h.blocks[i].capacity, 0, 0)
    requires m[h.blocks[i].addr - h.base..End(h.blocks[i]) - h.base] == h.blocks[i].bytes
    ensures BlockAt(m, g, i, 0, 0)
  {
  }

  lemma LiveUntouched(m: seq<byte>, m': seq<byte>, h: Heap, g: Heap, b: nat, i: nat, prev: nat)
    requires Valid(h) && |m| == ARENA_SIZE && b < |h.blocks| && i < |h.blocks| && prev < |h.blocks|
    requires b != i && b != prev && BlockAt(m, h, b, 0, 0) && SameOutsideHeaders(m, m', h, i, prev)
    requires g.base == h.base && g.offset == h.offset && b < |g.blocks| && g.blocks[b] == h.blocks[b]
    ensures BlockAt(m', g, b, 0, 0)
  {
    TwoHeadersFrame(m, m', h, b, i, prev, 0, 0);
    BlockAtSameBlock(m', h, g, b, 0, 0);
  }

  /** How the positions of the shortened list correspond to the old ones. */
  lemma UnlinkedLinks(h: Heap, k: nat, size: nat, p: nat) returns (q: nat)
    requires Valid(h) && k < |h.free| && p < |h.free| - 1
    ensures q == (if p < k then p else p + 1) < |h.free|
    ensures var g, i := Reuse(h, k, size), h.free[k];
      && |g.free| == |h.free| - 1
      && g.free[p] == h.free[q] && h.free[q] != i && h.free[q] < |h.blocks|
      && g.blocks[h.free[q]] == h.blocks[h.free[q]]
      && Link(g, p + 1) == Link(h, if q + 1 == k then k + 1 else q + 1)
      && (k > 0 ==> (q + 1 == k <==> h.free[q] == h.free[k - 1]))
  {
    q := if p < k then p else p + 1;
    RemoveAt(h.free, k);
  }

  lemma UnlinkedPosition(m: seq<byte>, m': seq<byte>, h: Heap, k: nat, size: nat, p: nat)
    requires |m| == ARENA_SIZE && Valid(h) && k < |h.free|
    requires var i, prev := h.free[k], h.free[if k == 0 then k else k - 1];
      && InBounds(h, i) && InBounds(h, prev)
      && SameOutsideHeaders(m, m', h, i, prev)
      && Link(h, k + 1) >= 0
      && (k > 0 ==>
            HeaderAt(m', HeaderOf(h, prev) - h.base, h.blocks[prev].size, h.blocks[prev].capacity, Link(h, k + 1), 1))
    requires p < |h.free| - 1 && ListedAt(m, h, if p < k then p else p + 1)
    requires Valid(Reuse(h, k, size))
    ensures ListedAt(m', Reuse(h, k, size), p)
  {
    var i, prev, g := h.free[k], h.free[if k == 0 then k else k - 1], Reuse(h, k, size);
    var q := UnlinkedLinks(h, k, size, p);
    if q + 1 == k {
      RelinkedPredecessor(m, m', h, i, prev, Link(h, q + 1), Link(h, k + 1));
      BecomesListed(m', h, g, p, Link(h, k + 1));
    } else {
      TwoHeadersFrame(m, m', h, h.free[q], i, prev, Link(h, q + 1), 1);
      BecomesListed(m', h, g, p, Link(h, q + 1));
    }
  }

  lemma BecomesListed(m: seq<byte>, h: Heap, g: Heap, p: nat, next: int)
    requires |m| == ARENA_SIZE && h.base == g.base && h.offset <= g.offset <= ARENA_SIZE
    requires ValidFree(g) && p < |g.free| && g.free[p] < |h.blocks| && h.blocks[g.free[p]] == g.blocks[g.free[p]]
    requires BlockAt(m, h, g.free[p], next, 1) && next == Link(g, p + 1)
    ensures ListedAt(m, g, p)
  {
    BlockAtSameBlock(m, h, g, g.free[p], next, 1);
  }

  lemma RelinkedPredecessor(m: seq<byte>, m': seq<byte>, h: Heap, i: nat, prev: nat, next: int, next': nat)
    requires Valid(h) && |m| == ARENA_SIZE && i < |h.blocks| && prev < |h.blocks|
    requires BlockAt(m, h, prev, next, 1)
    requires SameOutsideHeaders(m, m', h, i, prev)
    requires HeaderAt(m', HeaderOf(h, prev) - h.base, h.blocks[prev].size, h.blocks[prev].capacity, next', 1)
    ensures BlockAt(m', h, prev, next', 1)
  {
    TwoHeadersPayload(m, m', h, prev, i, prev, next, 1);
  }

  /** A fresh block: only its header is written; its payload is still zero. */
  lemma CarveRepresents(m: seq<byte>, head: nat, h: Heap, size: u64, alignment: nat, at: nat)
    requires Represents(m, head, h)
    requires size >= 1 && Power(alignment) && alignment >= DEFAULT_ALIGNMENT && BumpFits(h, size, alignment)
    requires h.offset <= at == BumpAddress(h, alignment) - HEADER - h.base
    ensures at + HEADER <= |m|
    ensures Represents(NewHeader(m, at, size), head, Carve(h, size, alignment))
  {
    CarveValid(h, size, alignment);
    AllInBounds(Carve(h, size, alignment));
    CarvedRepresents(m, head, h, Carve(h, size, alignment), size, at);
  }

  lemma CarvedRepresents(m: seq<byte>, head: nat, h: Heap, g: Heap, size: u64, at: nat)
    requires Represents(m, head, h) && Valid(g) && |g.blocks| == |h.blocks| + 1 && InBounds(g, |h.blocks|)
    requires h.base == g.base && h.free == g.free && h.offset <= at && g.offset == at + HEADER + size
    requires g.blocks[..|h.blocks|] == h.blocks
    requires var b := g.blocks[|h.blocks|];
      b.addr == g.base + at + HEADER && b.size == b.capacity == size && b.bytes == Zeros(size)
    ensures at + HEADER <= |m| && Represents(NewHeader(m, at, size), head, g)
  {
    var m' := NewHeader(m, at, size);
    NewHeaderAt(m, at, size);
    CarvedBlock(m, m', g, size, at, h.offset);
    CarveKeepsOthers(m, m', head, h, g);
  }

  lemma CarveKeepsOthers(m: seq<byte>, m': seq<byte>, head: nat, h: Heap, g: Heap)
    requires Represents(m, head, h) && Valid(g) && SameOutside(m, m', h.offset, g.offset)
    requires h.base == g.base && h.offset <= g.offset && h.free == g.free
    requires |g.blocks| == |h.blocks| + 1 && g.blocks[..|h.blocks|] == h.blocks
    requires BlockAt(m', g, |h.blocks|, 0, 0)
    requires m'[g.offset..] == Zeros(ARENA_SIZE - g.offset)
    ensures Represents(m', head, g)
  {
    forall i | 0 <= i < |h.blocks|
      ensures g.blocks[i] == h.blocks[i]
    {
      assert g.blocks[..|h.blocks|][i] == h.blocks[i];
    }
    forall k | 0 <= k < |g.free|
      ensures ListedAt(m', g, k)
    {
      assert ListedAt(m, h, k);
      CarveFrame(m, m', h, g, h.free[k], Link(h, k + 1), 1);
      assert Link(g, k + 1) == Link(h, k + 1);
    }
    forall i | 0 <= i < |g.blocks| && i !in g.free
      ensures BlockAt(m', g, i, 0, 0)
    {
      if i < |h.blocks| {
        assert BlockAt(m, h, i, 0, 0);
        CarveFrame(m, m', h, g, i, 0, 0);
      }
    }
  }

  lemma CarvedBlock(m: seq<byte>, m': seq<byte>, g: Heap, size: u64, at: nat, offset: nat)
    requires |m| == ARENA_SIZE && offset <= at && at + HEADER + size <= ARENA_SIZE
    requires m[offset..] == Zeros(ARENA_SIZE - offset)
    requires SameOutside(m, m', at, at + HEADER) && HeaderAt(m', at, size, size, 0, 0)
    requires g.offset == at + HEADER + size && |g.blocks| > 0 && InBounds(g, |g.blocks| - 1)
    requires var b := g.blocks[|g.blocks| - 1];
      b.addr == g.base + at + HEADER && b.size == b.capacity == size && b.bytes == Zeros(size)
    ensures BlockAt(m', g, |g.blocks| - 1, 0, 0)
    ensures m'[g.offset..] == Zeros(ARENA_SIZE - g.offset)
  {
    forall x | at + HEADER <= x < ARENA_SIZE
      ensures m'[x] == 0
    {
      assert m'[x] == m[x] == m[offset..][x - offset];
    }
    assert m'[at + HEADER..at + HEADER + size] == Zeros(size);
    assert m'[g.offset..] == Zeros(ARENA_SIZE - g.offset);
  }

  lemma CarveFrame(m: seq<byte>, m': seq<byte>, h: Heap, g: Heap, i: nat, next: int, flag: nat)
    requires Valid(h) && |m| == ARENA_SIZE && i < |h.blocks|
    requires BlockAt(m, h, i, next, flag)
    requires SameOutside(m, m', h.offset, ARENA_SIZE)
    requires h.base == g.base && h.offset <= g.offset <= ARENA_SIZE
    requires i < |g.blocks| && h.blocks[i] == g.blocks[i]
    ensures BlockAt(m', g, i, next, flag)
  {
    var b, lo := h.blocks[i], HeaderOf(h, i) - h.base;
    assert InBounds(h, i);
    HeaderSame(m, m', lo, b.size, b.capacity, next, flag);
    assert m'[b.addr - h.base..End(b) - h.base] == m[b.addr - h.base..End(b) - h.base];
  }

  /** A change of block i only: its size field, or its payload. */
  lemma BlockChanged(m: seq<byte>, m': seq<byte>, head: nat, h: Heap, g: Heap, i: nat, next: nat, flag: nat)
    requires Represents(m, head, h) && i < |h.blocks|
    requires SameOutside(m, m', HeaderOf(h, i) - h.base, End(h.blocks[i]) - h.base)
    requires BlockAt(m, h, i, next, flag) && flag == (if i in h.free then 1 else 0)
    requires Valid(g) && |g.blocks| == |h.blocks| && g == h.(blocks := h.blocks[i := g.blocks[i]])
    requires g.blocks[i].addr == h.blocks[i].addr
    requires BlockAt(m', g, i, next, flag)
    ensures Represents(m', head, g)
  {
    ZeroFrame(m, m', head, h, i);
    forall k | 0 <= k < |g.free|
      ensures ListedAt(m', g, k)
    {
      assert Link(g, k + 1) == Link(h, k + 1);
      assert ListedAt(m, h, k);
      if g.free[k] != i {
        OtherBlockKept(m, m', h, g, h.free[k], i, Link(h, k + 1), 1);
      }
    }
    forall j | 0 <= j < |g.blocks| && j !in g.free
      ensures BlockAt(m', g, j, 0, 0)
    {
      assert BlockAt(m, h, j, 0, 0);
      if j != i {
        OtherBlockKept(m, m', h, g, j, i, 0, 0);
      }
    }
  }

  lemma OtherBlockKept(m: seq<byte>, m': seq<byte>, h: Heap, g: Heap, j: nat, i: nat, next: int, flag: nat)
    requires Valid(h) && |m| == ARENA_SIZE && i < |h.blocks| && j < |h.blocks| && i != j
    requires SameOutside(m, m', HeaderOf(h, i) - h.base, End(h.blocks[i]) - h.base)
    requires BlockAt(m, h, j, next, flag)
    requires j < |g.blocks| && g.blocks[j] == h.blocks[j] && g.base == h.base && g.offset == h.offset
    ensures BlockAt(m', g, j, next, flag)
  {
    BlockFrame(m, m', h, j, i, next, flag);
    BlockAtSameBlock(m', h, g, j, next, flag);
  }

  lemma ResizeRepresents(m: seq<byte>, head: nat, h: Heap, i: nat, size: u64)
    requires Represents(m, head, h) && i < |h.blocks| && 1 <= size <= h.blocks[i].capacity
    requires InBounds(h, i)
    ensures Represents(Splice(m, HeaderOf(h, i) - h.base, Encode(size, 8)), head, Resize(h, i, size))
  {
    var next, flag := StoredBlock(m, head, h, i);
    var b := h.blocks[i];
    var m' := Splice(m, HeaderOf(h, i) - h.base, Encode(size, 8));
    StoreSize(m, HeaderOf(h, i) - h.base, size, b.size, b.capacity, next, flag);
    HeaderRewritten(m, m', h, Resize(h, i, size), i, size, next, flag);
    ResizeValid(h, i, size);
    BlockChanged(m, m', head, h, Resize(h, i, size), i, next, flag);
  }

  lemma WriteRepresents(m: seq<byte>, head: nat, h: Heap, i: nat, at: nat, bs: seq<byte>)
    requires Represents(m, head, h) && i < |h.blocks| && at + |bs| <= h.blocks[i].capacity
    requires InBounds(h, i)
    ensures Represents(Splice(m, h.blocks[i].addr - h.base + at, bs), head, Write(h, h.blocks[i].addr, at, bs))
    ensures IndexOf(h, h.blocks[i].addr) == i
  {
    var next, flag := StoredBlock(m, head, h, i);
    IndexOfBlock(h, i);
    assert ValidBlock(h.blocks[i]);
    WrittenBlock(m, h, i, at, bs, next, flag);
    WriteValid(h, h.blocks[i].addr, at, bs);
    BlockChanged(m, Splice(m, h.blocks[i].addr - h.base + at, bs), head, h,
                 Write(h, h.blocks[i].addr, at, bs), i, next, flag);
  }

  lemma WrittenBlock(m: seq<byte>, h: Heap, i: nat, at: nat, bs: seq<byte>, next: nat, flag: nat)
    requires |m| == ARENA_SIZE && h.offset <= ARENA_SIZE && i < |h.blocks| && BlockAt(m, h, i, next, flag)
    requires |h.blocks[i].bytes| == h.blocks[i].capacity && at + |bs| <= h.blocks[i].capacity
    requires IndexOf(h, h.blocks[i].addr) == i
    ensures BlockAt(Splice(m, h.blocks[i].addr - h.base + at, bs), Write(h, h.blocks[i].addr, at, bs), i, next, flag)
  {
    var b := h.blocks[i];
    var m' := Splice(m, b.addr - h.base + at, bs);
    HeaderSame(m, m', HeaderOf(h, i) - h.base, b.size, b.capacity, next, flag);
    SplicedSlice(m, b.addr - h.base, b.capacity, at, bs);
  }

  lemma SplicedSlice(m: seq<byte>, from: nat, n: nat, at: nat, bs: seq<byte>)
    requires from + n <= |m| && at + |bs| <= n
    ensures Splice(m, from + at, bs)[from..from + n] == Splice(m[from..from + n], at, bs)
  {
  }

  /** The stores that take a block off the list: the header at offset at is the
      block's, and the one at offset to its predecessor's, if it has one. */
  function UnlinkStores(m: seq<byte>, first: bool, to: nat, at: nat, next: nat, size: nat): seq<byte>
    requires to + HEADER <= |m| && at + HEADER <= |m|
  {
    ClearLink(if first then m else Splice(m, to + NEXT, Encode(next, 8)), at, size)
  }

  function ClearLink(m: seq<byte>, at: nat, size: nat): (r: seq<byte>)
    requires at + HEADER <= |m|
    ensures |r| == |m|
  {
    Splice(Splice(Splice(m, at, Encode(size, 8)), at + NEXT, Encode(0, 8)), at + FLAG, Encode(0, 4))
  }

  lemma UnlinkStoresRepresents(m: seq<byte>, head: nat, h: Heap, k: nat, size: u64, to: nat, at: nat, next: nat)
    requires Represents(m, head, h) && k < |h.free|
    requires 1 <= size <= h.blocks[h.free[k]].capacity
    requires at == HeaderOf(h, h.free[k]) - h.base && next == Link(h, k + 1)
    requires to == HeaderOf(h, h.free[if k == 0 then k else k - 1]) - h.base
    requires to + HEADER <= |m| && at + HEADER <= |m|
    ensures Represents(UnlinkStores(m, k == 0, to, at, next, size), if k == 0 then next else head, Reuse(h, k, size))
  {
    var i, prev := h.free[k], h.free[if k == 0 then k else k - 1];
    AllInBounds(h);
    assert InBounds(h, i) && InBounds(h, prev);
    LinkIsWord(h, k + 1);
    UnlinkedHeaders(m, head, h, k, size, to, at, next);
    UnlinkRepresents(m, UnlinkStores(m, k == 0, to, at, next, size), head, h, k, size);
  }

  lemma UnlinkedHeaders(m: seq<byte>, head: nat, h: Heap, k: nat, size: u64, to: nat, at: nat, next: nat)
    requires Represents(m, head, h) && k < |h.free|
    requires 1 <= size <= h.blocks[h.free[k]].capacity
    requires at == HeaderOf(h, h.free[k]) - h.base && next == Link(h, k + 1) < WORD
    requires to == HeaderOf(h, h.free[if k == 0 then k else k - 1]) - h.base
    requires to + HEADER <= |m| && at + HEADER <= |m|
    ensures var i, prev := h.free[k], h.free[if k == 0 then k else k - 1];
      var m' := UnlinkStores(m, k == 0, to, at, next, size);
      && SameOutsideHeaders(m, m', h, i, prev)
      && HeaderAt(m', at, size, h.blocks[i].capacity, 0, 0)
      && (k > 0 ==> HeaderAt(m', to, h.blocks[prev].size, h.blocks[prev].capacity, next, 1))
  {
    var i, prev := h.free[k], h.free[if k == 0 then k else k - 1];
    assert ListedAt(m, h, k);
    if k == 0 {
      UnlinkCurrent(m, at, size, h.blocks[i].size, h.blocks[i].capacity, next, 1);
    } else {
      assert ListedAt(m, h, k - 1);
      UnlinkedBehind(m, h, k, size, to, at, next);
    }
  }

  lemma UnlinkedBehind(m: seq<byte>, h: Heap, k: nat, size: u64, to: nat, at: nat, next: nat)
    requires Valid(h) && |m| == ARENA_SIZE && 0 < k < |h.free|
    requires ListedAt(m, h, k) && ListedAt(m, h, k - 1)
    requires at == HeaderOf(h, h.free[k]) - h.base && next == Link(h, k + 1) < WORD
    requires to == HeaderOf(h, h.free[k - 1]) - h.base
    ensures to + HEADER <= |m| && at + HEADER <= |m|
    ensures var i, prev := h.free[k], h.free[k - 1];
      var m' := UnlinkStores(m, false, to, at, next, size);
      && SameOutsideHeaders(m, m', h, i, prev)
      && HeaderAt(m', at, size, h.blocks[i].capacity, 0, 0)
      && HeaderAt(m', to, h.blocks[prev].size, h.blocks[prev].capacity, next, 1)
  {
    HeadersApart(h, h.free[k], h.free[k - 1]);
    UnlinkSecond(m, to, at, next, size, h.blocks[h.free[k]], h.blocks[h.free[k - 1]], Link(h, k));
  }

  lemma UnlinkSecond(m: seq<byte>, to: nat, at: nat, next: u64, size: u64, b: Block, p: Block, link: nat)
    requires to + HEADER <= |m| && at + HEADER <= |m|
    requires to + HEADER <= at || at + HEADER <= to
    requires HeaderAt(m, at, b.size, b.capacity, next, 1)
    requires HeaderAt(m, to, p.size, p.capacity, link, 1)
    ensures var m' := UnlinkStores(m, false, to, at, next, size);
      && HeaderAt(m', at, size, b.capacity, 0, 0)
      && HeaderAt(m', to, p.size, p.capacity, next, 1)
      && |m'| == |m|
      && (forall x :: 0 <= x < |m| && !(at <= x < at + HEADER) && !(to <= x < to + HEADER) ==> m'[x] == m[x])
  {
    var m1 := Splice(m, to + NEXT, Encode(next, 8));
    var m' := UnlinkStores(m, false, to, at, next, size);
    StoreNext(m, to, next, p.size, p.capacity, link, 1);
    HeaderSame(m, m1, at, b.size, b.capacity, next, 1);
    UnlinkCurrent(m1, at, size, b.size, b.capacity, next, 1);
    HeaderSame(m1, m', to, p.size, p.capacity, next, 1);
  }

  /** What the walk along the list finds at position k. */
  lemma ListedHeader(m: seq<byte>, head: nat, h: Heap, k: nat)
    requires Represents(m, head, h) && k < |h.free|
    ensures InBounds(h, h.free[k]) && Link(h, k) > 0
    ensures ValidBlock(h.blocks[h.free[k]])
    ensures Load(m, Link(h, k) - h.base + CAPACITY, 8) == h.blocks[h.free[k]].capacity
    ensures Load(m, Link(h, k) - h.base + NEXT, 8) == Link(h, k + 1)
  {
    assert ListedAt(m, h, k);
  }

  lemma LinkEndsList(h: Heap, k: nat)
    requires Valid(h)
    ensures Link(h, k) == 0 <==> k >= |h.free|
  {
    AllInBounds(h);
    if k < |h.free| {
      assert InBounds(h, h.free[k]);
    }
  }

  lemma LinkIsWord(h: Heap, k: nat)
    requires Valid(h)
    ensures 0 <= Link(h, k) < WORD
  {
    AllInBounds(h);
    if k < |h.free| {
      assert InBounds(h, h.free[k]);
    }
  }

  lemma HeadersApart(h: Heap, i: nat, j: nat)
    requires Valid(h) && i < |h.blocks| && j < |h.blocks| && i != j
    ensures h.blocks[i].addr <= HeaderOf(h, j) || h.blocks[j].addr <= HeaderOf(h, i)
  {
    Disjointness(h);
  }

  lemma UnlinkCurrent(m: seq<byte>, at: nat, value: u64, size: nat, capacity: nat, next: nat, flag: nat)
    requires at + HEADER <= |m| && HeaderAt(m, at, size, capacity, next, flag)
    ensures var m' := ClearLink(m, at, value);
      SameOutside(m, m', at, at + HEADER) && HeaderAt(m', at, value, capacity, 0, 0)
  {
    var m2 := Splice(m, at, Encode(value, 8));
    StoreSize(m, at, value, size, capacity, next, flag);
    StoreNext(m2, at, 0, value, capacity, next, flag);
    StoreFlag(Splice(m2, at + NEXT, Encode(0, 8)), at, 0, value, capacity, 0, flag);
  }

  /** What free does with an address in the arena: memory and list head afterwards. */
  function FreeStores(m: seq<byte>, head: nat, base: nat, p: nat): (seq<byte>, nat)
    requires |m| == ARENA_SIZE && base + HEADER <= p <= base + ARENA_SIZE
  {
    var at := p - HEADER - base;
    if Load(m, at + TAG, 4) != MAGIC || Load(m, at + FLAG, 4) != 0 then (m, head)
    else (Splice(Splice(m, at + FLAG, Encode(1, 4)), at + NEXT, Encode(head, 8)), p - HEADER)
  }

  /** The two stores of free on a block in use. */
  lemma PushStoresRepresents(m: seq<byte>, head: u64, h: Heap, i: nat)
    requires Represents(m, head, h) && i < |h.blocks| && i !in h.free && InBounds(h, i)
    ensures var at := HeaderOf(h, i) - h.base;
      Represents(Splice(Splice(m, at + FLAG, Encode(1, 4)), at + NEXT, Encode(head, 8)),
                 HeaderOf(h, i), h.(free := [i] + h.free))
  {
    var at := HeaderOf(h, i) - h.base;
    var b := h.blocks[i];
    assert BlockAt(m, h, i, 0, 0);
    var m1 := Splice(m, at + FLAG, Encode(1, 4));
    StoreFlag(m, at, 1, b.size, b.capacity, 0, 0);
    StoreNext(m1, at, head, b.size, b.capacity, 0, 1);
    PushRepresents(m, Splice(m1, at + NEXT, Encode(head, 8)), head, h, i);
  }

  /** Copying the first n bytes of block j over those of block i. */
  lemma CopyRepresents(m: seq<byte>, head: nat, h: Heap, i: nat, j: nat, n: nat, at: nat, from: nat)
    requires Represents(m, head, h) && i < |h.blocks| && j < |h.blocks| && i != j
    requires n <= h.blocks[i].capacity && n <= h.blocks[j].capacity
    requires at == h.blocks[i].addr - h.base && from == h.blocks[j].addr - h.base
    ensures at + n <= |m| && from + n <= |m| && n <= |h.blocks[j].bytes|
    ensures at + n <= from || from + n <= at
    ensures Represents(Splice(m, at, m[from..from + n]), head, Write(h, h.blocks[i].addr, 0, h.blocks[j].bytes[..n]))
  {
    PayloadsApart(h, i, j);
    var next, flag := StoredBlock(m, head, h, j);
    PayloadPrefix(m, h, j, next, flag, n);
    WriteRepresents(m, head, h, i, 0, h.blocks[j].bytes[..n]);
  }

  lemma PayloadsApart(h: Heap, i: nat, j: nat)
    requires Valid(h) && i < |h.blocks| && j < |h.blocks| && i != j
    ensures InBounds(h, i) && InBounds(h, j) && |h.blocks[j].bytes| == h.blocks[j].capacity
    ensures End(h.blocks[i]) <= h.blocks[j].addr || End(h.blocks[j]) <= h.blocks[i].addr
  {
    Disjointness(h);
    AllInBounds(h);
    assert ValidBlock(h.blocks[j]);
  }

  lemma PayloadPrefix(m: seq<byte>, h: Heap, j: nat, next: nat, flag: nat, n: nat)
    requires |m| == ARENA_SIZE && h.offset <= ARENA_SIZE && j < |h.blocks| && BlockAt(m, h, j, next, flag)
    requires n <= h.blocks[j].capacity == |h.blocks[j].bytes|
    ensures var from := h.blocks[j].addr - h.base; m[from..from + n] == h.blocks[j].bytes[..n]
  {
    var b := h.blocks[j];
    assert m[b.addr - h.base..End(b) - h.base][..n] == m[b.addr - h.base..b.addr - h.base + n];
  }

  /** The first bytes of a payload, as they lie in memory. */
  lemma PayloadView(m: seq<byte>, head: nat, h: Heap, i: nat, n: nat)
    requires Represents(m, head, h) && i < |h.blocks| && n <= |h.blocks[i].bytes|
    ensures InBounds(h, i) && |h.blocks[i].bytes| == h.blocks[i].capacity
    ensures var at := h.blocks[i].addr - h.base; m[at..at + n] == h.blocks[i].bytes[..n]
  {
    var next, flag := StoredBlock(m, head, h, i);
    assert ValidBlock(h.blocks[i]);
    PayloadPrefix(m, h, i, next, flag, n);
  }

  /** What free reads below the payload of block i. */
  lemma BlockHeader(m: seq<byte>, head: nat, h: Heap, i: nat)
    requires Represents(m, head, h) && i < |h.blocks|
    ensures InBounds(h, i) && 0 <= head < WORD
    ensures var at := HeaderOf(h, i) - h.base;
      && Load(m, at, 8) == h.blocks[i].size
      && Load(m, at + CAPACITY, 8) == h.blocks[i].capacity
      && Load(m, at + TAG, 4) == MAGIC
      && Load(m, at + FLAG, 4) == (if i in h.free then 1 else 0)
  {
    var next, flag := StoredBlock(m, head, h, i);
    LinkIsWord(h, 0);
  }

  lemma NullIsNoBlock(h: Heap)
    requires Valid(h)
    ensures IndexOf(h, 0) == |h.blocks|
  {
    AllInBounds(h);
    assert forall i :: 0 <= i < |h.blocks| && InBounds(h, i) ==> h.blocks[i].addr > 0;
  }

  lemma ReusedIsNotNull(h: Heap, size: nat, alignment: nat)
    requires Valid(h) && alignment > 0
    ensures var k := FirstFit(h, size, alignment, 0); k < |h.free| ==> h.blocks[h.free[k]].addr > 0
  {
    AllInBounds(h);
    var k := FirstFit(h, size, alignment, 0);
    if k < |h.free| {
      assert InBounds(h, h.free[k]);
    }
  }

  lemma SixteenIsPower()
    ensures Power(DEFAULT_ALIGNMENT) && Power(PAGE)
  {
    Pow2Of64();
  }

  lemma BumpAbove(h: Heap, alignment: nat)
    requires alignment > 0
    ensures h.base + h.offset <= BumpAddress(h, alignment) - HEADER
  {
    RoundUpLeast(h.base + h.offset + HEADER, alignment);
  }

  /** In represented memory every carved header has its magic number, its sizes
      and a flag that is set exactly for the blocks on the free list; the links
      lead from the head through all of them, each once, to NULL. */
  lemma FreeListExact(m: seq<byte>, head: nat, h: Heap)
    requires Represents(m, head, h)
    ensures forall i :: 0 <= i < |h.blocks| ==> StoredHeader(m, h, i)
    ensures forall k :: 0 <= k < |h.free| ==> StoredLink(m, h, k)
    ensures head == Link(h, 0) && Link(h, |h.free|) == 0
    ensures forall j, k :: 0 <= j < k < |h.free| ==> Link(h, j) != Link(h, k)
  {
    forall i | 0 <= i < |h.blocks|
      ensures StoredHeader(m, h, i)
    {
      BlockHeader(m, head, h, i);
      assert ValidBlock(h.blocks[i]);
    }
    forall k | 0 <= k < |h.free|
      ensures StoredLink(m, h, k)
    {
      ListedHeader(m, head, h, k);
    }
    forall j, k | 0 <= j < k < |h.free|
      ensures Link(h, j) != Link(h, k)
    {
      IndexOfBlock(h, h.free[j]);
      IndexOfBlock(h, h.free[k]);
    }
  }

  ghost predicate StoredHeader(m: seq<byte>, h: Heap, i: nat)
    requires |m| == ARENA_SIZE && i < |h.blocks|
  {
    var at := HeaderOf(h, i) - h.base;
    && 0 <= at && at + HEADER <= |m|
    && Load(m, at, 8) == h.blocks[i].size <= Load(m, at + CAPACITY, 8) == h.blocks[i].capacity
    && Load(m, at + TAG, 4) == MAGIC
    && Load(m, at + FLAG, 4) == (if i in h.free then 1 else 0)
  }

  ghost predicate StoredLink(m: seq<byte>, h: Heap, k: nat)
    requires |m| == ARENA_SIZE && ValidFree(h) && k < |h.free|
  {
    var at := Link(h, k) - h.base;
    0 <= at && at + HEADER <= |m| && Load(m, at + NEXT, 8) == Link(h, k + 1)
  }
}

/** The allocator of ruby_alloc.c on raw memory.  Headers live in the arena next
    to the payloads, the free list is threaded through them, and every method
    is proved to take the step of the abstract machine of the same name. */
module RubyAlloc {
  import opened Errno
  import opened Options
  import opened Bits
  import opened Bytes
  import opened Allocator
  import opened Memory
  import opened Bump

  const MAP_FAILED: nat := WORD - 1

  class Arena {
    /** The address of mem[0]. */
    const base: nat
    const mem: array<byte>
    var offset: nat
    /** The address of the header of the first free block, or 0. */
    var freeList: nat
    var errno: int
    ghost var heap: Heap

    ghost predicate Valid()
      reads this, mem
    {
      && mem.Length == ARENA_SIZE
      && heap.base == base && heap.offset == offset
      && Represents(mem[..], freeList, heap)
    }

    /** A static array starts out as zeros. */
    constructor (base: nat)
      requires ValidBase(base)
      ensures Valid() && fresh(mem)
      ensures heap == Initial(base)
    {
      this.base := base;
      mem := new byte[ARENA_SIZE](i => 0);
      offset, freeList, errno := 0, 0, 0;
      heap := Initial(base);
    }

    // ----- memory access -----

    method LoadWord(at: nat, n: nat) returns (value: nat)
      requires at + n <= mem.Length
      ensures value == Load(mem[..], at, n)
    {
      value := 0;
      var i := n;
      while i > 0
        invariant 0 <= i <= n
        invariant value == Decode(mem[..][at + i..at + n])
      {
        i := i - 1;
        ghost var s := mem[..][at + i..at + n];
        assert s[1..] == mem[..][at + i + 1..at + n];
        value := mem[at + i] + 256 * value;
      }
    }

    method StoreWord(at: nat, value: nat, n: nat)
      requires at + n <= mem.Length
      modifies mem
      ensures mem[..] == Splice(old(mem[..]), at, Encode(value, n))
    {
      var i, rest := 0, value;
      while i < n
        invariant 0 <= i <= n
        invariant Encode(value, n)[i..] == Encode(rest, n - i)
        invariant mem[..] == Splice(old(mem[..]), at, Encode(value, n)[..i])
      {
        ghost var bs := Encode(value, n);
        assert bs[i] == bs[i..][0] == rest % 256;
        assert bs[i + 1..] == bs[i..][1..];
        mem[at + i] := rest % 256;
        assert bs[..i + 1] == bs[..i] + [rest % 256];
        i, rest := i + 1, rest / 256;
      }
      assert Encode(value, n)[..n] == Encode(value, n);
    }

    /** memset to zero. */
    method Memset(ptr: nat, n: nat, ghost i: nat)
      requires Valid() && i < |heap.blocks| && heap.blocks[i].addr == ptr && n <= heap.blocks[i].capacity
      modifies this`heap, mem
      ensures Valid() && heap == Write(old(heap), ptr, 0, Zeros(n))
    {
      AllInBounds(heap);
      assert InBounds(heap, i);
      WriteRepresents(mem[..], freeList, heap, i, 0, Zeros(n));
      var at, k := ptr - base, 0;
      while k < n
        invariant 0 <= k <= n
        invariant heap == old(heap) && mem[..] == Splice(old(mem[..]), at, Zeros(k))
      {
        mem[at + k] := 0;
        k := k + 1;
      }
      heap := Write(heap, ptr, 0, Zeros(n));
    }

    /** memcpy from outside the arena. */
    method CopyIn(ptr: nat, bs: seq<byte>, ghost i: nat)
      requires Valid() && i < |heap.blocks| && heap.blocks[i].addr == ptr && |bs| <= heap.blocks[i].capacity
      modifies this`heap, mem
      ensures Valid() && heap == Write(old(heap), ptr, 0, bs)
    {
      AllInBounds(heap);
      assert InBounds(heap, i);
      WriteRepresents(mem[..], freeList, heap, i, 0, bs);
      StoreBytes(ptr - base, bs);
      heap := Write(heap, ptr, 0, bs);
    }

    method StoreBytes(at: nat, bs: seq<byte>)
      requires at + |bs| <= mem.Length
      modifies mem
      ensures mem[..] == Splice(old(mem[..]), at, bs)
    {
      var k := 0;
      while k < |bs|
        invariant 0 <= k <= |bs|
        invariant mem[..] == Splice(old(mem[..]), at, bs[..k])
      {
        mem[at + k] := bs[k];
        assert bs[..k + 1] == bs[..k] + [bs[k]];
        k := k + 1;
      }
      assert bs[..k] == bs;
    }

    /** memcpy of the first n bytes of block j to the start of block i. */
    method Memcpy(ptr: nat, source: nat, n: nat, ghost i: nat, ghost j: nat)
      requires Valid() && i < |heap.blocks| && j < |heap.blocks| && i != j
      requires heap.blocks[i].addr == ptr && heap.blocks[j].addr == source
      requires n <= heap.blocks[i].capacity && n <= heap.blocks[j].capacity
      modifies this`heap, mem
      ensures Valid() && |old(heap).blocks[j].bytes| >= n
      ensures heap == Write(old(heap), ptr, 0, old(heap).blocks[j].bytes[..n])
    {
      PayloadsApart(heap, i, j);
      var at, from := ptr - base, source - base;
      CopyRepresents(mem[..], freeList, heap, i, j, n, at, from);
      CopyWithin(at, from, n);
      heap := Write(heap, ptr, 0, heap.blocks[j].bytes[..n]);
    }

    /** The byte loop of memcpy, for regions that do not overlap. */
    method CopyWithin(at: nat, from: nat, n: nat)
      requires at + n <= mem.Length && from + n <= mem.Length
      requires at + n <= from || from + n <= at
      modifies mem
      ensures mem[..] == Splice(old(mem[..]), at, old(mem[..])[from..from + n])
    {
      ghost var m, bs := mem[..], mem[..][from..from + n];
      var k := 0;
      while k < n
        invariant 0 <= k <= n
        invariant forall x :: at <= x < at + k ==> mem[x] == bs[x - at]
        invariant forall x :: 0 <= x < mem.Length && !(at <= x < at + k) ==> mem[x] == m[x]
      {
        mem[at + k] := mem[from + k];
        k := k + 1;
      }
      assert mem[..] == Splice(m, at, bs);
    }

    // ----- allocation -----

    method BlockMatches(header: nat, size: u64, alignment: u64) returns (matches: bool)
      requires base <= header && header + HEADER <= base + mem.Length && alignment > 0
      ensures matches == (Load(mem[..], header - base + CAPACITY, 8) >= size && (header + HEADER) % alignment == 0)
    {
      var capacity := LoadWord(header - base + CAPACITY, 8);
      matches := capacity >= size && (header + HEADER) % alignment == 0;
    }

    method ReuseFreeBlock(size: u64, alignment: u64) returns (ptr: nat)
      requires Valid() && size >= 1 && alignment > 0
      modifies this`freeList, this`heap, mem
      ensures Valid()
      ensures var h := old(heap); var k := FirstFit(h, size, alignment, 0);
        if k < |h.free| then ptr == h.blocks[h.free[k]].addr && heap == Reuse(h, k, size)
        else ptr == 0 && heap == h
    {
      ghost var h, m := heap, mem[..];
      var prev: int, current: int := 0, freeList;
      ghost var k := 0;
      LinkEndsList(h, 0);
      while current != 0
        invariant heap == h && mem[..] == m && freeList == old(freeList)
        invariant k <= |h.free| && current == Link(h, k) && (current == 0 <==> k == |h.free|)
        invariant prev == if k == 0 then 0 else Link(h, k - 1)
        invariant FirstFit(h, size, alignment, 0) == FirstFit(h, size, alignment, k)
        decreases |h.free| - k
      {
        ListedHeader(m, freeList, h, k);
        var matches := BlockMatches(current, size, alignment);
        var next := LoadWord(current - base + NEXT, 8);
        if matches {
          Unlink(k, prev, current, next, size);
          ptr := current + HEADER;
          return;
        }
        prev, current := current, next;
        k := k + 1;
        LinkEndsList(h, k);
      }
      ptr := 0;
    }

    method Unlink(ghost k: nat, prev: int, current: int, next: nat, size: u64)
      requires Valid() && k < |heap.free| && 1 <= size <= heap.blocks[heap.free[k]].capacity
      requires prev == (if k == 0 then 0 else Link(heap, k - 1))
      requires current == Link(heap, k) && next == Link(heap, k + 1)
      modifies this`freeList, this`heap, mem
      ensures Valid() && heap == Reuse(old(heap), k, size)
    {
      ghost var m, h, head := mem[..], heap, freeList;
      ListedHeader(m, head, h, k);
      if k > 0 {
        ListedHeader(m, head, h, k - 1);
      }
      UnlinkStoresRepresents(m, head, h, k, size, (if k == 0 then current else prev) - base, current - base, next);
      UnlinkBytes(prev, current, next, size);
      heap := Reuse(h, k, size);
    }

    method UnlinkBytes(prev: int, current: int, next: nat, size: u64)
      requires base <= current && current + HEADER <= base + mem.Length
      requires prev == 0 || (base <= prev && prev + HEADER <= base + mem.Length)
      modifies this`freeList, mem
      ensures freeList == if prev == 0 then next else old(freeList)
      ensures prev == 0 ==> mem[..] == UnlinkStores(old(mem[..]), true, current - base, current - base, next, size)
      ensures prev != 0 ==> mem[..] == UnlinkStores(old(mem[..]), false, prev - base, current - base, next, size)
    {
      if prev == 0 {
        freeList := next;
        ClearLink(current - base, size);
      } else {
        StoreWord(prev - base + NEXT, next, 8);
        ghost var m := mem[..];
        ClearLink(current - base, size);
        assert mem[..] == Memory.ClearLink(m, current - base, size);
      }
    }

    method ClearLink(at: nat, size: u64)
      requires at + HEADER <= mem.Length
      modifies mem
      ensures mem[..] == Memory.ClearLink(old(mem[..]), at, size)
    {
      StoreWord(at, size, 8);
      StoreWord(at + NEXT, 0, 8);
      StoreWord(at + FLAG, 0, 4);
    }
  
    method ArenaAlloc(size: u64, alignment: u64) returns (ptr: nat)
      requires Valid() && Handled(heap, size, alignment)
      modifies this, mem
      ensures Valid() && (heap, ptr) == Allocator.ArenaAlloc(old(heap), size, alignment)
      ensures errno == if ptr != 0 then old(errno)
                       else if Power(ActualAlignment(alignment)) then ENOMEM else EINVAL
    {
      var n := if size == 0 then 1 else size;
      var a := if alignment < DEFAULT_ALIGNMENT then DEFAULT_ALIGNMENT else alignment;
      IsPowerOfTwoExact(a);
      if !IsPowerOfTwo(a) {
        errno := EINVAL;
        return 0;
      }

      ReusedIsNotNull(heap, n, a);
      ptr := ReuseFreeBlock(n, a);
      if ptr == 0 {
        ptr := BumpAlloc(n, a);
      }
    }

    /** Carve a fresh block above the offset; the tail of arena_alloc. */
    method BumpAlloc(size: u64, alignment: u64) returns (ptr: nat)
      requires Power(alignment) && alignment >= DEFAULT_ALIGNMENT
      requires Valid() && size >= 1 && TestRight(heap, size, alignment)
      modifies this, mem
      ensures Valid() && BumpAddress(old(heap), alignment) > 0
      ensures if BumpFits(old(heap), size, alignment)
              then heap == Carve(old(heap), size, alignment) && ptr == BumpAddress(old(heap), alignment)
              else heap == old(heap) && ptr == 0
      ensures errno == if ptr != 0 then old(errno) else ENOMEM
    {
      var header, next := BumpAddresses(size, alignment);
      BumpAbove(heap, alignment);
      if next < header || next > base + mem.Length {
        errno := ENOMEM;
        return 0;
      }
      var at := header - base;
      CarveRepresents(mem[..], freeList, heap, size, alignment, at);
      WriteHeader(at, size);
      offset := next - base;
      heap := Carve(heap, size, alignment);
      ptr := header + HEADER;
    }

    /** The header address and the address after the block, wrap-around included. */
    method BumpAddresses(size: u64, alignment: u64) returns (header: nat, next: nat)
      requires Power(alignment) && alignment >= DEFAULT_ALIGNMENT
      requires Valid() && size >= 1 && TestRight(heap, size, alignment)
      ensures !(next < header || next > base + ARENA_SIZE) <==> BumpFits(heap, size, alignment)
      ensures BumpFits(heap, size, alignment) ==>
        header == BumpAddress(heap, alignment) - HEADER && next == BumpAddress(heap, alignment) + size
    {
      header := (AlignUp((base + offset + HEADER) % WORD, alignment) - HEADER) % WORD;
      next := (header + HEADER + size) % WORD;
      TestExact(heap, size, alignment);
    }

    method WriteHeader(at: nat, size: u64)
      requires at + HEADER <= mem.Length
      modifies mem
      ensures mem[..] == NewHeader(old(mem[..]), at, size)
    {
      StoreWord(at, size, 8);
      StoreWord(at + CAPACITY, size, 8);
      StoreWord(at + NEXT, 0, 8);
      StoreWord(at + FLAG, 0, 4);
      StoreWord(at + TAG, MAGIC, 4);
    }

    method Malloc(size: u64) returns (ptr: nat)
      requires Valid() && Handled(heap, size, DEFAULT_ALIGNMENT)
      modifies this, mem
      ensures Valid() && (heap, ptr) == Allocator.Malloc(old(heap), size)
      ensures errno == if ptr != 0 then old(errno) else ENOMEM
    {
      SixteenIsPower();
      ptr := ArenaAlloc(size, DEFAULT_ALIGNMENT);
    }

    /** ptr is NULL or any address in the arena.  Where the words below it are those
        of a header in use, free stores into that header and makes it the head of the
        list; this is a step of the abstract machine if ptr is droppable. */
    method Free(ptr: nat)
      requires Valid() && InArena(ptr)
      modifies this`freeList, this`heap, mem
      ensures (mem[..], freeList) ==
        if ptr == 0 then old((mem[..], freeList)) else FreeStores(old(mem[..]), old(freeList), base, ptr)
      ensures old(Droppable(ptr)) ==> Valid() && heap == Allocator.Free(old(heap), ptr)
      ensures old(Droppable(ptr)) && heap == old(heap) ==> mem[..] == old(mem[..]) && freeList == old(freeList)
    {
      if ptr == 0 {
        NullIsNoBlock(heap);
        return;
      }
      if Droppable(ptr) {
        FreeRepresents(mem[..], freeList, heap, ptr);
      }
      heap := Allocator.Free(heap, ptr);
      FreeBytes(ptr);
    }

    /** The tests and stores of free. */
    method FreeBytes(ptr: nat)
      requires mem.Length == ARENA_SIZE && base + HEADER <= ptr <= base + ARENA_SIZE
      modifies this`freeList, mem
      ensures (mem[..], freeList) == FreeStores(old(mem[..]), old(freeList), base, ptr)
    {
      var magic := LoadWord(ptr - HEADER - base + TAG, 4);
      var flag := LoadWord(ptr - HEADER - base + FLAG, 4);
      if magic == MAGIC && flag == 0 {
        Push(ptr - HEADER - base);
        freeList := ptr - HEADER;
      }
    }

    method Push(at: nat)
      requires at + HEADER <= mem.Length
      modifies mem
      ensures mem[..] == Splice(Splice(old(mem[..]), at + FLAG, Encode(1, 4)), at + NEXT, Encode(freeList, 8))
    {
      StoreWord(at + FLAG, 1, 4);
      StoreWord(at + NEXT, freeList, 8);
    }

    predicate InArena(ptr: nat) {
      ptr == 0 || base + HEADER <= ptr <= base + ARENA_SIZE
    }

    /** The address is the start of a block, or free leaves everything as it is. */
    ghost predicate Droppable(ptr: nat)
      requires mem.Length == ARENA_SIZE && InArena(ptr)
      reads this, mem
    {
      || ptr == 0
      || IndexOf(heap, ptr) < |heap.blocks|
      || FreeStores(mem[..], freeList, base, ptr) == (mem[..], freeList)
    }

    method Calloc(count: u64, size: u64) returns (ptr: nat)
      requires Valid() && (count * size >= WORD || Handled(heap, count * size, DEFAULT_ALIGNMENT))
      modifies this, mem
      ensures Valid() && (heap, ptr) == Allocator.Calloc(old(heap), count, size)
      ensures errno == if ptr != 0 then old(errno) else ENOMEM
    {
      var overflow := Overflows(count, size);
      if overflow {
        errno := ENOMEM;
        return 0;
      }
      var total := Product(count, size);
      ptr := ZeroedAlloc(total);
    }

    /** The product modulo 2^64. */
    static method Product(count: u64, size: u64) returns (total: u64)
      ensures total == count * size % WORD
      ensures count * size < WORD ==> total == count * size
    {
      total := count * size % WORD;
    }

    /** The division guard. */
    static method Overflows(count: u64, size: u64) returns (overflow: bool)
      ensures overflow <==> count * size >= WORD
    {
      DivisionGuard(count, size);
      overflow := count != 0 && size > (WORD - 1) / count;
    }

    method ZeroedAlloc(total: u64) returns (ptr: nat)
      requires Valid() && Handled(heap, total, DEFAULT_ALIGNMENT)
      modifies this, mem
      ensures Valid()
      ensures var (g, p) := Allocator.Malloc(old(heap), total);
        ptr == p && heap == if p == 0 then g else Write(g, p, 0, Zeros(total))
      ensures errno == if ptr != 0 then old(errno) else ENOMEM
    {
      ghost var h := heap;
      ptr := Malloc(total);
      if ptr != 0 {
        ghost var i := AllocatedBlock(h, total, DEFAULT_ALIGNMENT);
        Memset(ptr, total, i);
      }
    }

    /** ptr is NULL or a live block. */
    method Realloc(ptr: nat, size: u64) returns (newPtr: nat)
      requires Valid() && Handled(heap, size, DEFAULT_ALIGNMENT)
      requires ptr == 0 || (IndexOf(heap, ptr) < |heap.blocks| && IndexOf(heap, ptr) !in heap.free)
      modifies this, mem
      ensures Valid() && (heap, newPtr) == Allocator.Realloc(old(heap), ptr, size)
      ensures errno == if newPtr == 0 && (size != 0 || ptr == 0) then ENOMEM else old(errno)
    {
      if ptr == 0 {
        newPtr := Malloc(size);
        return;
      }
      ghost var i, h := IndexOf(heap, ptr), heap;
      BlockHeader(mem[..], freeList, heap, i);
      if size == 0 {
        Free(ptr);
        return 0;
      }
      var oldSize := LoadWord(ptr - HEADER - base, 8);
      var capacity := LoadWord(ptr - HEADER - base + CAPACITY, 8);
      if capacity >= size {
        Shrink(ptr, size, i);
        return ptr;
      }
      newPtr := Move(ptr, oldSize, size, i);
    }

    /** The case of realloc that stays in place: the capacity is not exceeded. */
    method Shrink(ptr: nat, size: u64, ghost i: nat)
      requires Valid() && i < |heap.blocks| && heap.blocks[i].addr == ptr && 1 <= size <= heap.blocks[i].capacity
      modifies this`heap, mem
      ensures Valid() && heap == Resize(old(heap), i, size)
    {
      BlockHeader(mem[..], freeList, heap, i);
      ResizeRepresents(mem[..], freeList, heap, i, size);
      StoreWord(ptr - HEADER - base, size, 8);
      heap := Resize(heap, i, size);
    }

    /** The growing case of realloc: allocate, copy, free. */
    method Move(ptr: nat, oldSize: nat, size: u64, ghost i: nat) returns (newPtr: nat)
      requires Valid() && Handled(heap, size, DEFAULT_ALIGNMENT)
      requires i < |heap.blocks| && i !in heap.free && heap.blocks[i].addr == ptr
      requires heap.blocks[i].size == oldSize && heap.blocks[i].capacity < size
      modifies this, mem
      ensures Valid()
      ensures var h := old(heap); var (g, q) := Allocator.Malloc(h, size);
        newPtr == q && heap == if q == 0 then g
                               else Allocator.Free(Write(g, q, 0, Contents(h.blocks[i])), ptr)
      ensures errno == if newPtr != 0 then old(errno) else ENOMEM
    {
      ghost var h := heap;
      newPtr := Malloc(size);
      if newPtr == 0 {
        return;
      }
      ghost var k := AllocatedBlock(h, size, DEFAULT_ALIGNMENT);
      OldBlockKept(h, heap, i, size);
      CopyAndFree(newPtr, ptr, if oldSize < size then oldSize else size, k, i);
    }

    method CopyAndFree(newPtr: nat, ptr: nat, n: nat, ghost k: nat, ghost i: nat)
      requires Valid() && k < |heap.blocks| && i < |heap.blocks| && i != k
      requires heap.blocks[k].addr == newPtr && heap.blocks[i].addr == ptr
      requires n <= heap.blocks[k].capacity && n <= heap.blocks[i].capacity
      modifies this`freeList, this`heap, mem
      ensures Valid() && |old(heap).blocks[i].bytes| >= n
      ensures heap == Allocator.Free(Write(old(heap), newPtr, 0, old(heap).blocks[i].bytes[..n]), ptr)
    {
      Memcpy(newPtr, ptr, n, k, i);
      IndexOfBlock(heap, i);
      AllInBounds(heap);
      assert InBounds(heap, i);
      Free(ptr);
    }

    method PosixMemalign(nullTarget: bool, alignment: u64, size: u64) returns (status: int, ptr: nat)
      requires Valid() && Handled(heap, size, alignment)
      modifies this, mem
      ensures Valid()
      ensures if nullTarget then heap == old(heap) && ptr == 0 && status == EINVAL
              else (heap, ptr) == Allocator.PosixMemalign(old(heap), alignment, size)
      ensures !nullTarget ==>
        status == if ptr != 0 then 0 else if alignment < 8 || !Power(alignment) then EINVAL else ENOMEM
      ensures errno == if status == ENOMEM then ENOMEM else old(errno)
    {
      IsPowerOfTwoExact(alignment);
      if nullTarget || alignment < 8 || !IsPowerOfTwo(alignment) {
        return EINVAL, 0;
      }
      SixteenIsPower();
      ptr := ArenaAlloc(size, alignment);
      status := if ptr != 0 then 0 else if errno == EINVAL then EINVAL else ENOMEM;
    }

    method AlignedAlloc(alignment: u64, size: u64) returns (ptr: nat)
      requires Valid() && Handled(heap, size, alignment)
      modifies this, mem
      ensures Valid() && (heap, ptr) == Allocator.AlignedAlloc(old(heap), alignment, size)
      ensures errno == if ptr != 0 then old(errno) else if Power(alignment) then ENOMEM else EINVAL
    {
      IsPowerOfTwoExact(alignment);
      if alignment == 0 || !IsPowerOfTwo(alignment) {
        errno := EINVAL;
        return 0;
      }
      SixteenIsPower();
      ptr := ArenaAlloc(size, alignment);
    }

    method MallocUsableSize(ptr: nat) returns (size: nat)
      requires Valid() && (ptr == 0 || IndexOf(heap, ptr) < |heap.blocks|)
      ensures size == if ptr == 0 then 0 else heap.blocks[IndexOf(heap, ptr)].capacity
    {
      if ptr == 0 {
        return 0;
      }
      BlockHeader(mem[..], freeList, heap, IndexOf(heap, ptr));
      size := LoadWord(ptr - HEADER - base + CAPACITY, 8);
    }

    /** file is what the descriptor resolves to in the archive, if anything. */
    method Mmap(length: u64, anonymous: bool, fd: int, file: Option<seq<byte>>, position: int) returns (ptr: nat)
      requires Valid()
      modifies this, mem
      ensures Valid()
      ensures var backed := !anonymous && fd >= 0;
        if length == 0 || (backed && (file.None? || position < 0 || position > |file.value|))
        then heap == old(heap) && ptr == MAP_FAILED
        else
          var image := if backed then FileImage(file.value, position, length) else [];
          var (h, p) := Allocator.Mmap(old(heap), length, image);
          heap == h && ptr == (if p == 0 then MAP_FAILED else p) && (p != 0 ==> ptr != MAP_FAILED)
      ensures ptr != MAP_FAILED ==>
        Shows(mem[..], heap, ptr, length, if !anonymous && fd >= 0 then file.value else [],
              if !anonymous && fd >= 0 then position else 0)
      ensures errno ==
        if ptr != MAP_FAILED then old(errno)
        else if length == 0 then EINVAL
        else if RoundUp(length, PAGE) >= WORD then ENOMEM
        else if anonymous || fd < 0 then ENOMEM
        else if file.None? then ENODEV
        else if position < 0 || position > |file.value| then EINVAL
        else ENOMEM
    {
      ghost var h := heap;
      ptr := MmapBlock(length, anonymous, fd, file, position);
      if ptr != MAP_FAILED {
        var backed := !anonymous && fd >= 0;
        MappingShows(mem[..], freeList, heap, h, ptr, length, if backed then file.value else [],
                     if backed then position else 0);
      }
    }

    /** The tests of mmap, in order, and the allocation. */
    method MmapBlock(length: u64, anonymous: bool, fd: int, file: Option<seq<byte>>, position: int)
      returns (ptr: nat)
      requires Valid()
      modifies this, mem
      ensures Valid()
      ensures var backed := !anonymous && fd >= 0;
        if length == 0 || (backed && (file.None? || position < 0 || position > |file.value|))
        then heap == old(heap) && ptr == MAP_FAILED
        else
          var image := if backed then FileImage(file.value, position, length) else [];
          var (h, p) := Allocator.Mmap(old(heap), length, image);
          heap == h && ptr == (if p == 0 then MAP_FAILED else p) && (p != 0 ==> ptr != MAP_FAILED)
      ensures errno ==
        if ptr != MAP_FAILED then old(errno)
        else if length == 0 then EINVAL
        else if RoundUp(length, PAGE) >= WORD then ENOMEM
        else if anonymous || fd < 0 then ENOMEM
        else if file.None? then ENODEV
        else if position < 0 || position > |file.value| then EINVAL
        else ENOMEM
    {
      if length == 0 {
        errno := EINVAL;
        return MAP_FAILED;
      }
      PageRounding(length);
      var rounded := And((length + PAGE - 1) % WORD, Not((PAGE - 1) % WORD));
      if rounded < length {
        errno := ENOMEM;
        return MAP_FAILED;
      }
      if !anonymous && fd >= 0 {
        if file.None? {
          errno := ENODEV;
          return MAP_FAILED;
        }
        if position < 0 || position > |file.value| {
          errno := EINVAL;
          return MAP_FAILED;
        }
        var available := |file.value| - position;
        if available > length {
          available := length;
        }
        assert file.value[position..position + available] == FileImage(file.value, position, length);
        ptr := MapImage(rounded, file.value[position..position + available]);
      } else {
        ptr := MapImage(rounded, []);
      }
    }

    /** The common tail of both kinds of mapping; copying nothing is a no-op. */
    method MapImage(rounded: u64, image: seq<byte>) returns (ptr: nat)
      requires Valid() && 1 <= rounded <= WORD - PAGE && |image| <= rounded
      modifies this, mem
      ensures Valid()
      ensures var (g, p) := Allocator.ArenaAlloc(old(heap), rounded, PAGE);
        if p == 0 then heap == g && ptr == MAP_FAILED
        else heap == Write(Write(g, p, 0, Zeros(rounded)), p, 0, image) && ptr == p != MAP_FAILED
      ensures errno == if ptr == MAP_FAILED then ENOMEM else old(errno)
    {
      SixteenIsPower();
      ghost var h := heap;
      ptr := ArenaAlloc(rounded, PAGE);
      if ptr == 0 {
        return MAP_FAILED;
      }
      ghost var i := MappedBlock(h, rounded);
      Memset(ptr, rounded, i);
      CopyIn(ptr, image, i);
    }

    method Munmap(addr: nat, length: nat) returns (status: int)
      requires Valid() && InArena(addr)
      modifies this`freeList, this`heap, mem
      ensures status == 0
      ensures (mem[..], freeList) ==
        if addr == 0 then old((mem[..], freeList)) else FreeStores(old(mem[..]), old(freeList), base, addr)
      ensures old(Droppable(addr)) ==> Valid() && heap == Allocator.Free(old(heap), addr)
      ensures old(Droppable(addr)) && heap == old(heap) ==> mem[..] == old(mem[..]) && freeList == old(freeList)
    {
      if addr != 0 {
        Free(addr);
      } else {
        NullIsNoBlock(heap);
      }
      status := 0;
    }

    /** A client stores bytes inside the payload of a live block. */
    method ClientWrite(ptr: nat, at: nat, bs: seq<byte>)
      requires Valid() && IndexOf(heap, ptr) < |heap.blocks| && IndexOf(heap, ptr) !in heap.free
      requires at + |bs| <= heap.blocks[IndexOf(heap, ptr)].capacity
      modifies this`heap, mem
      ensures Valid() && heap == Write(old(heap), ptr, at, bs)
    {
      ghost var i := IndexOf(heap, ptr);
      AllInBounds(heap);
      assert InBounds(heap, i);
      WriteRepresents(mem[..], freeList, heap, i, at, bs);
      StoreBytes(ptr - base + at, bs);
      heap := Write(heap, ptr, at, bs);
    }
  }

  /** The part of a file that a mapping of the given length shows. */
  function FileImage(file: seq<byte>, position: nat, length: nat): seq<byte>
    requires position <= |file|
  {
    if |file| - position > length then file[position..position + length] else file[position..]
  }

  /** calloc's division guard fires exactly when the product overflows. */
  lemma DivisionGuard(count: u64, size: u64)
    ensures count != 0 && size > (WORD - 1) / count <==> count * size >= WORD
  {
    if count != 0 {
      var q, r := (WORD - 1) / count, (WORD - 1) % count;
      assert WORD - 1 == q * count + r;
      if size > q {
        ProductMonotone(q + 1, size, count);
        assert (q + 1) * count == q * count + count;
      } else {
        ProductMonotone(size, q, count);
      }
    }
  }

  /** mmap's rounding check rejects exactly the lengths whose rounding wraps. */
  lemma PageRounding(length: u64)
    requires length > 0
    ensures var rounded := And((length + PAGE - 1) % WORD, Not((PAGE - 1) % WORD));
      && (rounded < length <==> RoundUp(length, PAGE) >= WORD)
      && (rounded >= length ==> rounded == RoundUp(length, PAGE) && length <= rounded <= WORD - PAGE)
  {
    SixteenIsPower();
    AlignUpExact(length, PAGE);
    RoundUpLeast(length, PAGE);
    PageWraps(RoundUp(length, PAGE), length);
  }

  lemma PageWraps(r: nat, length: u64)
    requires r % PAGE == 0 && length <= r < length + PAGE
    ensures r >= WORD <==> length + PAGE - 1 >= WORD
    ensures r < WORD ==> r <= WORD - PAGE
  {
    assert WORD % PAGE == 0;
  }

  /** free of the start of a block is the step of the abstract machine, and so is a free
      that leaves everything as it is. */
  lemma FreeRepresents(m: seq<byte>, head: nat, h: Heap, p: nat)
    requires Represents(m, head, h) && h.base + HEADER <= p <= h.base + ARENA_SIZE
    requires IndexOf(h, p) < |h.blocks| || FreeStores(m, head, h.base, p) == (m, head)
    ensures var (m', head') := FreeStores(m, head, h.base, p); Represents(m', head', Allocator.Free(h, p))
    ensures Allocator.Free(h, p) == h ==> FreeStores(m, head, h.base, p) == (m, head)
  {
    var i := IndexOf(h, p);
    if i < |h.blocks| {
      BlockHeader(m, head, h, i);
      if i !in h.free {
        PushStoresRepresents(m, head, h, i);
        assert Allocator.Free(h, p).free[0] == i;
      }
    }
  }

  lemma MappedBlock(h: Heap, rounded: nat) returns (i: nat)
    requires Allocator.Valid(h) && rounded > 0 && Allocator.ArenaAlloc(h, rounded, PAGE).1 != 0
    ensures var (g, p) := Allocator.ArenaAlloc(h, rounded, PAGE);
      && i < |g.blocks| && g.blocks[i].addr == p != MAP_FAILED && IndexOf(g, p) == i && i !in g.free
      && g.blocks[i].size == rounded <= g.blocks[i].capacity == |g.blocks[i].bytes|
  {
    i := AllocatedBlock(h, rounded, PAGE);
  }

  lemma ImageShows(m: seq<byte>, at: nat, n: nat, file: seq<byte>, position: nat, length: nat)
    requires position <= |file| && length <= n && at + n <= |m|
    requires var image := FileImage(file, position, length); m[at..at + n] == image + Zeros(n - |image|)
    ensures forall x :: at <= x < at + n ==>
      m[x] == if x - at < length && position + (x - at) < |file| then file[position + (x - at)] else 0
  {
    var image := FileImage(file, position, length);
    forall x | at <= x < at + n
      ensures m[x] == if x - at < length && position + (x - at) < |file| then file[position + (x - at)] else 0
    {
      assert m[x] == m[at..at + n][x - at];
    }
  }

  /** Memory at p is a mapping: the least number of whole pages, which show the bytes of
      the file from position on, as far as length and the file reach, and then zeros.
      An anonymous mapping is one of an empty file. */
  ghost predicate Shows(m: seq<byte>, h: Heap, p: nat, length: nat, file: seq<byte>, position: nat) {
    var i, at := IndexOf(h, p), p - h.base;
    && i < |h.blocks| && i !in h.free
    && var r := h.blocks[i].size;
    && r % PAGE == 0 && length <= r < length + PAGE && 0 <= at && at + r <= |m|
    && forall x :: at <= x < at + r ==>
         m[x] == if x - at < length && position + (x - at) < |file| then file[position + (x - at)] else 0
  }

  lemma MappingShows(m: seq<byte>, head: nat, g: Heap, h: Heap, p: nat, length: nat, file: seq<byte>, position: nat)
    requires Represents(m, head, g) && Allocator.Valid(h) && length > 0 && p != 0 && position <= |file|
    requires (g, p) == Allocator.Mmap(h, length, FileImage(file, position, length))
    ensures Shows(m, g, p, length, file, position)
  {
    var n, image := RoundUp(length, PAGE), FileImage(file, position, length);
    RoundUpLeast(length, PAGE);
    var i := MappedIndex(h, n, image);
    BlockShows(m, head, g, i, n, length, file, position);
  }

  lemma BlockShows(m: seq<byte>, head: nat, g: Heap, i: nat, n: nat, length: nat, file: seq<byte>, position: nat)
    requires Represents(m, head, g) && i < |g.blocks| && i !in g.free && IndexOf(g, g.blocks[i].addr) == i
    requires n % PAGE == 0 && length <= n < length + PAGE && position <= |file|
    requires g.blocks[i].size == n <= |g.blocks[i].bytes|
    requires var image := FileImage(file, position, length); g.blocks[i].bytes[..n] == image + Zeros(n - |image|)
    ensures Shows(m, g, g.blocks[i].addr, length, file, position)
  {
    PayloadView(m, head, g, i, n);
    ImageShows(m, g.blocks[i].addr - g.base, n, file, position, length);
  }

  lemma MappedIndex(h: Heap, n: nat, image: seq<byte>) returns (i: nat)
    requires Allocator.Valid(h) && |image| <= n && n > 0 && Allocator.ArenaAlloc(h, n, PAGE).1 != 0
    ensures var (g0, p) := Allocator.ArenaAlloc(h, n, PAGE);
      var g := Write(Write(g0, p, 0, Zeros(n)), p, 0, image);
      && i == IndexOf(g, p) < |g.blocks| && i !in g.free && g.blocks[i].addr == p && g.blocks[i].size == n
      && n <= |g.blocks[i].bytes| && g.blocks[i].bytes[..n] == image + Zeros(n - |image|)
  {
    i := MappedBlock(h, n);
    ArenaAllocValid(h, n, PAGE);
    FilledBytes(Allocator.ArenaAlloc(h, n, PAGE).0, i, n, image);
  }

  /** A block that has been zeroed and written shows the image, and zeros after it. */
  lemma FilledBytes(h: Heap, i: nat, n: nat, image: seq<byte>)
    requires Allocator.Valid(h) && i < |h.blocks| && |image| <= n <= h.blocks[i].capacity
    ensures var p := h.blocks[i].addr; var g := Write(Write(h, p, 0, Zeros(n)), p, 0, image);
      && IndexOf(g, p) == i && |g.blocks| == |h.blocks| && g.free == h.free
      && g.blocks[i] == h.blocks[i].(bytes := g.blocks[i].bytes)
      && n <= |g.blocks[i].bytes| && g.blocks[i].bytes[..n] == image + Zeros(n - |image|)
  {
    var p := h.blocks[i].addr;
    IndexOfBlock(h, i);
    assert ValidBlock(h.blocks[i]);
    var g1 := Write(h, p, 0, Zeros(n));
    WriteValid(h, p, 0, Zeros(n));
    IndexOfBlock(g1, i);
    WriteValid(g1, p, 0, image);
    IndexOfBlock(Write(g1, p, 0, image), i);
    Overwritten(h.blocks[i].bytes, n, image);
  }

  lemma Overwritten(s: seq<byte>, n: nat, image: seq<byte>)
    requires |image| <= n <= |s|
    ensures Splice(Splice(s, 0, Zeros(n)), 0, image)[..n] == image + Zeros(n - |image|)
  {
  }

  lemma OldBlockKept(h: Heap, g: Heap, i: nat, size: nat)
    requires Allocator.Valid(h) && i < |h.blocks| && i !in h.free
    requires g == Allocator.Malloc(h, size).0 && Allocator.Malloc(h, size).1 != 0
    ensures Allocator.Valid(g) && i < |g.blocks| && g.blocks[i] == h.blocks[i] && i !in g.free
    ensures IndexOf(g, h.blocks[i].addr) == i && ValidBlock(h.blocks[i])
  {
    var k := AllocatedBlock(h, size, DEFAULT_ALIGNMENT);
    IndexOfBlock(g, i);
  }
}

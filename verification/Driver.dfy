/** The allocator class executes whole runs of the abstract machine. */
module Driver {
  import opened Options
  import opened Bits
  import opened Bytes
  import opened Allocator
  import opened RubyAlloc
  import opened Runs
  import Memory
  import Unmapping

  /** What the abstract machine lets a run free is what free handles as a step. */
  lemma FreeableIsDroppable(arena: Arena, p: nat)
    requires arena.Valid() && Freeable(arena.heap, p)
    ensures arena.InArena(p) && arena.Droppable(p)
  {
    var h := arena.heap;
    if p != 0 {
      if IndexOf(h, p) < |h.blocks| {
        Memory.BlockHeader(arena.mem[..], arena.freeList, h, IndexOf(h, p));
      } else {
        var i :| Interior(h, i, p);
        Unmapping.InteriorExact(arena.mem[..], arena.freeList, h, i, p);
      }
    }
  }

  method Perform(arena: Arena, op: Op) returns (result: nat)
    requires arena.Valid() && Legal(arena.heap, op)
    modifies arena, arena.mem
    ensures arena.Valid() && (arena.heap, result) == Step(old(arena.heap), op)
  {
    result := 0;
    match op {
      case MallocOp(n) => result := arena.Malloc(n);
      case CallocOp(count, n) => result := arena.Calloc(count, n);
      case ReallocOp(q, n) => result := arena.Realloc(q, n);
      case MemalignOp(a, n) =>
        var status;
        status, result := arena.PosixMemalign(false, a, n);
      case AlignedOp(a, n) => result := arena.AlignedAlloc(a, n);
      case MmapOp(length, image) =>
        result := arena.Mmap(length, false, 3, Some(image), 0);
        assert length > 0 ==> FileImage(image, 0, length) == image;
        if result == MAP_FAILED {
          result := 0;
        }
      case FreeOp(p) =>
        FreeableIsDroppable(arena, p);
        arena.Free(p);
      case MunmapOp(p, length) =>
        FreeableIsDroppable(arena, p);
        var status := arena.Munmap(p, length);
      case StoreOp(p, at, bs) => arena.ClientWrite(p, at, bs);
    }
  }

  lemma OneStep(h: Heap, ops: seq<Op>)
    requires ops != [] && LegalRun(h, ops)
    ensures var (g, r) := Step(h, ops[0]);
      && Legal(h, ops[0]) && LegalRun(g, ops[1..])
      && Exec(h, ops) == Exec(g, ops[1..]) && Results(h, ops) == [r] + Results(g, ops[1..])
  {
  }

  /** A run of calls on real memory is the run of the abstract machine, and so a
      run of the abstract heap with the same results. */
  method Run(arena: Arena, ops: seq<Op>) returns (results: seq<nat>)
    requires arena.Valid() && LegalRun(arena.heap, ops)
    modifies arena, arena.mem
    ensures arena.Valid() && arena.heap == Exec(old(arena.heap), ops)
    ensures results == Results(old(arena.heap), ops)
    ensures AbstractRun(Live(old(arena.heap)), ops, results, Live(arena.heap))
    decreases |ops|
  {
    RunRefines(arena.heap, ops);
    if ops == [] {
      return [];
    }
    OneStep(arena.heap, ops);
    var r := Perform(arena, ops[0]);
    var rest := Run(arena, ops[1..]);
    results := [r] + rest;
  }
}

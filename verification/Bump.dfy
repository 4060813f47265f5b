/** The address arithmetic of a fresh allocation, with wrap-around, against the
    unbounded arithmetic of the abstract machine. */
module Bump {
  import opened Bits
  import opened Allocator

  function HeaderAddress(h: Heap, alignment: u64): nat {
    (AlignUp((h.base + h.offset + HEADER) % WORD, alignment) - HEADER) % WORD
  }

  function NextAddress(h: Heap, size: u64, alignment: u64): nat {
    (HeaderAddress(h, alignment) + HEADER + size) % WORD
  }

  /** The test that guards every fresh block. */
  predicate TestAccepts(h: Heap, size: u64, alignment: u64) {
    var header, next := HeaderAddress(h, alignment), NextAddress(h, size, alignment);
    !(next < header || next > h.base + ARENA_SIZE)
  }

  /** The sizes that the test judges correctly: for the largest ones, the wrapped sum
      has to lie past the arena's end. */
  predicate TestRight(h: Heap, size: u64, alignment: u64)
    requires alignment > 0
  {
    size < WORD - HEADER || BumpAddress(h, alignment) + size - WORD > h.base + ARENA_SIZE
  }

  /** The requests that reach the test only if it judges them correctly. */
  ghost predicate Handled(h: Heap, size: u64, alignment: u64) {
    Power(ActualAlignment(alignment)) ==> TestRight(h, ActualSize(size), ActualAlignment(alignment))
  }

  lemma HeaderAddressExact(h: Heap, alignment: u64)
    requires Valid(h) && Power(alignment) && alignment >= DEFAULT_ALIGNMENT
    ensures BumpAddress(h, alignment) >= HEADER
    ensures h.base + h.offset + HEADER + alignment - 1 < WORD ==>
      HeaderAddress(h, alignment) == BumpAddress(h, alignment) - HEADER
    ensures h.base + h.offset + HEADER + alignment - 1 >= WORD ==>
      HeaderAddress(h, alignment) == WORD - HEADER
  {
    ArenaEndsOnPage(h);
    HeaderFrom(h.base + h.offset + HEADER, alignment);
  }

  lemma HeaderFrom(value: u64, alignment: u64)
    requires Power(alignment) && value >= HEADER
    ensures RoundUp(value, alignment) >= HEADER
    ensures (AlignUp(value, alignment) - HEADER) % WORD ==
      if value + alignment - 1 < WORD then RoundUp(value, alignment) - HEADER else WORD - HEADER
  {
    AlignUpExact(value, alignment);
    RoundUpLeast(value, alignment);
    BelowWord(AlignUp(value, alignment));
  }

  lemma BelowWord(aligned: nat)
    requires aligned == 0 || HEADER <= aligned < WORD + HEADER
    ensures (aligned - HEADER) % WORD == if aligned == 0 then WORD - HEADER else aligned - HEADER
  {
  }

  lemma ArenaEndsOnPage(h: Heap)
    requires Valid(h)
    ensures h.base + ARENA_SIZE <= WORD - PAGE
    ensures (h.base + h.offset + HEADER) % WORD == h.base + h.offset + HEADER
  {
    assert h.base % PAGE == 0 && WORD % PAGE == 0 && ARENA_SIZE % PAGE == 0;
  }

  /** When aligning would wrap, no aligned block fits in the arena. */
  lemma WrappedBumpIsTooHigh(h: Heap, size: nat, alignment: u64)
    requires Valid(h) && Power(alignment) && alignment >= DEFAULT_ALIGNMENT
    requires h.base + h.offset + HEADER + alignment - 1 >= WORD
    ensures !BumpFits(h, size, alignment) && BumpAddress(h, alignment) >= WORD
  {
    Pow2Of64();
    ArenaEndsOnPage(h);
    var k: nat :| k < 64 && alignment == Pow2(k);
    Pow2Divides(k, 64);
    var m := BumpAddress(h, alignment);
    RoundUpLeast(h.base + h.offset + HEADER, alignment);
    if m < WORD {
      MultiplesApart(m, WORD, alignment);
    }
  }

  lemma MultiplesApart(x: nat, y: nat, a: nat)
    requires a > 0 && x % a == 0 && y % a == 0 && x < y
    ensures x + a <= y
  {
    var q, r := x / a, y / a;
    assert x == q * a && y == r * a;
    if r <= q {
      ProductMonotone(r, q, a);
    } else {
      ProductMonotone(q + 1, r, a);
      assert (q + 1) * a == q * a + a;
    }
  }

  /** For a size below 2^64 - 32 the test accepts exactly the requests that fit,
      and then computes the right addresses, whatever wraps on the way.  For the
      remaining sizes, none of which fits, it is right exactly when the address
      after the block, having wrapped once, is past the arena's end. */
  lemma TestExact(h: Heap, size: u64, alignment: u64)
    requires Valid(h) && Power(alignment) && alignment >= DEFAULT_ALIGNMENT
    ensures (TestAccepts(h, size, alignment) <==> BumpFits(h, size, alignment)) <==> TestRight(h, size, alignment)
    ensures BumpFits(h, size, alignment) ==>
      && HeaderAddress(h, alignment) == BumpAddress(h, alignment) - HEADER
      && NextAddress(h, size, alignment) == BumpAddress(h, alignment) + size
      && size < WORD - HEADER
  {
    ArenaEndsOnPage(h);
    HeaderAddressExact(h, alignment);
    if h.base + h.offset + HEADER + alignment - 1 >= WORD {
      WrappedBumpIsTooHigh(h, size, alignment);
      NextWraps(WORD - HEADER, size, h.base + ARENA_SIZE);
    } else {
      BumpBelowWord(h, alignment);
      NextWraps(HeaderAddress(h, alignment), size, h.base + ARENA_SIZE);
    }
  }

  lemma BumpBelowWord(h: Heap, alignment: u64)
    requires Valid(h) && alignment > 0 && h.base + h.offset + HEADER + alignment - 1 < WORD
    ensures HEADER <= BumpAddress(h, alignment) < WORD
  {
    RoundUpLeast(h.base + h.offset + HEADER, alignment);
  }

  /** Adding the header and a size to a header address wraps at most once. */
  lemma NextWraps(header: nat, size: u64, end: nat)
    requires header + HEADER <= WORD && end <= WORD - PAGE
    ensures var next := (header + HEADER + size) % WORD; var accepts := !(next < header || next > end);
      && (size < WORD - HEADER ==> (accepts <==> header + HEADER + size <= end))
      && (size >= WORD - HEADER ==> (accepts <==> header + (size - (WORD - HEADER)) <= end))
      && (size < WORD - HEADER && accepts ==> next == header + HEADER + size)
  {
    var sum := header + HEADER + size;
    assert sum % WORD == if sum < WORD then sum else sum - WORD;
  }

  /** A request of 2^64 - 32 bytes is accepted by an empty arena: the sum wraps
      back onto the header itself. */
  lemma HugeRequestAccepted()
    ensures ValidBase(PAGE) && Valid(Initial(PAGE))
    ensures TestAccepts(Initial(PAGE), WORD - HEADER, DEFAULT_ALIGNMENT)
    ensures !BumpFits(Initial(PAGE), WORD - HEADER, DEFAULT_ALIGNMENT)
  {
    assert Pow2(4) == DEFAULT_ALIGNMENT;
    assert BumpAddress(Initial(PAGE), DEFAULT_ALIGNMENT) == PAGE + HEADER;
    TestExact(Initial(PAGE), WORD - HEADER, DEFAULT_ALIGNMENT);
  }
}

/** The deterministic random source of ruby_syscall_random.c: a xorshift step on
    64-bit words and the byte stream drawn from it.  A word is the sequence of
    its bits, least significant first. */
module Random {
  import opened Errno
  import opened Bits
  import opened Bytes

  type Word = w: seq<bool> | |w| == 64 witness seq(64, i => false)

  function Xor(a: Word, b: Word): Word {
    seq(64, i requires 0 <= i < 64 => a[i] != b[i])
  }

  function ShiftLeft(a: Word, k: nat): Word {
    seq(64, i requires 0 <= i < 64 => i >= k && a[i - k])
  }

  function ShiftRight(a: Word, k: nat): Word {
    seq(64, i requires 0 <= i < 64 => i + k < 64 && a[i + k])
  }

  /** The n low bits of a number, and the number with given bits. */
  function BitsOf(value: nat, n: nat): (s: seq<bool>)
    ensures |s| == n
  {
    if n == 0 then [] else [value % 2 == 1] + BitsOf(value / 2, n - 1)
  }

  function ValueOf(s: seq<bool>): nat {
    if s == [] then 0 else (if s[0] then 1 else 0) + 2 * ValueOf(s[1..])
  }

  const SEED: Word := BitsOf(0x6a09_e667_f3bc_c909, 64)
  const ZERO: Word := seq(64, i => false)

  function XorLeft(x: Word, k: nat): Word {
    Xor(x, ShiftLeft(x, k))
  }

  function XorRight(x: Word, k: nat): Word {
    Xor(x, ShiftRight(x, k))
  }

  function Scramble(x: Word): Word {
    XorLeft(XorRight(XorLeft(x, 13), 7), 17)
  }

  // ----- the step is a bijection -----

  /** Repeating a shift step doubles its distance, and a distance of a whole word
      is no step at all; so the remaining doublings undo it. */
  function Unscramble(y: Word): Word {
    UndoLeft13(UndoRight7(UndoLeft17(y)))
  }

  function UndoLeft17(y: Word): Word {
    XorLeft(XorLeft(y, 17), 34)
  }

  function UndoRight7(y: Word): Word {
    XorRight(XorRight(XorRight(XorRight(y, 7), 14), 28), 56)
  }

  function UndoLeft13(y: Word): Word {
    XorLeft(XorLeft(XorLeft(y, 13), 26), 52)
  }

  lemma LeftDoubled(x: Word, k: nat)
    ensures XorLeft(XorLeft(x, k), k) == XorLeft(x, 2 * k)
    ensures k >= 64 ==> XorLeft(x, k) == x
  {
  }

  lemma RightDoubled(x: Word, k: nat)
    ensures XorRight(XorRight(x, k), k) == XorRight(x, 2 * k)
    ensures k >= 64 ==> XorRight(x, k) == x
  {
  }

  lemma LeftCommutes(x: Word, j: nat, k: nat)
    ensures XorLeft(XorLeft(x, j), k) == XorLeft(XorLeft(x, k), j)
  {
  }

  lemma RightCommutes(x: Word, j: nat, k: nat)
    ensures XorRight(XorRight(x, j), k) == XorRight(XorRight(x, k), j)
  {
  }

  lemma Undone17(x: Word)
    ensures UndoLeft17(XorLeft(x, 17)) == x && XorLeft(UndoLeft17(x), 17) == x
  {
    LeftDoubled(x, 17);
    LeftDoubled(x, 34);
    LeftDoubled(x, 68);
    LeftCommutes(XorLeft(x, 17), 34, 17);
  }

  lemma Undone13(x: Word)
    ensures UndoLeft13(XorLeft(x, 13)) == x && XorLeft(UndoLeft13(x), 13) == x
  {
    LeftDoubled(x, 13);
    LeftDoubled(x, 26);
    LeftDoubled(x, 52);
    LeftDoubled(x, 104);
    LeftCommutes(XorLeft(XorLeft(x, 13), 26), 52, 13);
    LeftCommutes(XorLeft(x, 13), 26, 13);
  }

  lemma Undone7(x: Word)
    ensures UndoRight7(XorRight(x, 7)) == x && XorRight(UndoRight7(x), 7) == x
  {
    RightDoubled(x, 7);
    RightDoubled(x, 14);
    RightDoubled(x, 28);
    RightDoubled(x, 56);
    RightDoubled(x, 112);
    RightCommutes(XorRight(XorRight(XorRight(x, 7), 14), 28), 56, 7);
    RightCommutes(XorRight(XorRight(x, 7), 14), 28, 7);
    RightCommutes(XorRight(x, 7), 14, 7);
  }

  /** The step is a bijection on words, with an explicit inverse. */
  lemma ScrambleBijective(x: Word)
    ensures Unscramble(Scramble(x)) == x && Scramble(Unscramble(x)) == x
  {
    var a := XorLeft(x, 13);
    Undone13(x);
    Undone7(a);
    Undone17(XorRight(a, 7));
    var b := UndoLeft17(x);
    Undone17(x);
    Undone7(b);
    Undone13(UndoRight7(b));
  }

  lemma ScrambleInjective(x: Word, y: Word)
    requires Scramble(x) == Scramble(y)
    ensures x == y
  {
    ScrambleBijective(x);
    ScrambleBijective(y);
  }

  lemma ScrambleZero()
    ensures Scramble(ZERO) == ZERO
  {
    assert XorLeft(ZERO, 13) == ZERO;
    assert XorRight(ZERO, 7) == ZERO;
    assert XorLeft(ZERO, 17) == ZERO;
  }

  // ----- iterating the step -----

  function Iterate<T>(f: T -> T, x: T, k: nat): T {
    if k == 0 then x else f(Iterate(f, x, k - 1))
  }

  lemma {:induction false} IterateSum<T>(f: T -> T, x: T, j: nat, k: nat)
    ensures Iterate(f, x, j + k) == Iterate(f, Iterate(f, x, j), k)
  {
    if k > 0 {
      IterateSum(f, x, j, k - 1);
    }
  }

  ghost predicate Injective<T(!new)>(f: T -> T) {
    forall a, b :: f(a) == f(b) ==> a == b
  }

  lemma {:induction false} IterateInjective<T(!new)>(f: T -> T, x: T, y: T, k: nat)
    requires Injective(f) && Iterate(f, x, k) == Iterate(f, y, k)
    ensures x == y
  {
    if k > 0 {
      IterateInjective(f, x, y, k - 1);
    }
  }

  /** An injective function on a type with at most n values returns to every
      point. */
  lemma IterateReturns<T(!new)>(f: T -> T, x: T, code: T -> nat, n: nat) returns (period: nat)
    requires Injective(f) && Injective'(code) && forall y :: code(y) < n
    ensures 0 < period <= n && Iterate(f, x, period) == x
    ensures f(Iterate(f, x, period - 1)) == x
  {
    var s := Codes(f, x, code, n + 1);
    var i, j := Pigeonhole(s, n);
    period := j - i;
    IterateSum(f, x, period, i);
    IterateInjective(f, Iterate(f, x, period), x, i);
  }

  function Codes<T>(f: T -> T, x: T, code: T -> nat, n: nat): (s: seq<nat>)
    ensures |s| == n
    ensures forall k :: 0 <= k < n ==> s[k] == code(Iterate(f, x, k))
  {
    if n == 0 then [] else Codes(f, x, code, n - 1) + [code(Iterate(f, x, n - 1))]
  }

  ghost predicate Injective'<T(!new)>(code: T -> nat) {
    forall a, b :: code(a) == code(b) ==> a == b
  }

  /** The state after k steps. */
  function After(x: Word, k: nat): Word {
    Iterate(Scramble, x, k)
  }

  lemma ScrambleIsInjective()
    ensures Injective(Scramble)
  {
    forall a, b | Scramble(a) == Scramble(b)
      ensures a == b
    {
      ScrambleInjective(a, b);
    }
  }

  /** A state other than zero never leads to zero. */
  lemma {:induction false} NeverZero(x: Word, k: nat)
    requires x != ZERO
    ensures After(x, k) != ZERO
  {
    if k > 0 {
      NeverZero(x, k - 1);
      ScrambleZero();
      if After(x, k) == ZERO {
        ScrambleInjective(After(x, k - 1), ZERO);
      }
    }
  }

  /** The generator starts from a non-zero state and so never sticks at zero. */
  lemma SeedNeverZero(k: nat)
    ensures SEED != ZERO && After(SEED, k) != ZERO
  {
    OddIsNotZero(0x6a09_e667_f3bc_c909);
    NeverZero(SEED, k);
  }

  lemma OddIsNotZero(value: nat)
    requires value % 2 == 1
    ensures BitsOf(value, 64) != ZERO
  {
    assert BitsOf(value, 64)[0] && !ZERO[0];
  }

  lemma {:induction false} ValueBound(s: seq<bool>)
    ensures ValueOf(s) < Pow2(|s|)
  {
    if s != [] {
      ValueBound(s[1..]);
    }
  }

  lemma {:induction false} ValueInjective(s: seq<bool>, t: seq<bool>)
    requires |s| == |t| && ValueOf(s) == ValueOf(t)
    ensures s == t
  {
    if s != [] {
      ValueInjective(s[1..], t[1..]);
      assert s == [s[0]] + s[1..] && t == [t[0]] + t[1..];
    }
  }

  lemma {:induction false} Pigeonhole(s: seq<nat>, n: nat) returns (i: nat, j: nat)
    requires |s| > n && forall k :: 0 <= k < |s| ==> s[k] < n
    ensures i < j < |s| && s[i] == s[j]
    decreases n
  {
    assert s[0] < n;
    if a :| 0 <= a < |s| && s[a] == n - 1 {
      var t := s[..a] + s[a + 1..];
      if b :| 0 <= b < |t| && t[b] == n - 1 {
        var c := if b < a then b else b + 1;
        assert s[c] == n - 1;
        i, j := if a < c then a else c, if a < c then c else a;
      } else {
        var b, c := Pigeonhole(t, n - 1);
        i, j := if b < a then b else b + 1, if c < a then c else c + 1;
      }
    } else {
      i, j := Pigeonhole(s[1..], n - 1);
      i, j := i + 1, j + 1;
    }
  }

  /** From any state the generator comes back to it. */
  lemma Returns(x: Word) returns (period: nat)
    ensures 0 < period <= Pow2(64)
    ensures After(x, period) == x && Scramble(After(x, period - 1)) == x
  {
    var code := (w: Word) => ValueOf(w);
    forall w: Word
      ensures code(w) < Pow2(64)
    {
      ValueBound(w);
    }
    forall v: Word, w: Word | code(v) == code(w)
      ensures v == w
    {
      ValueInjective(v, w);
    }
    ScrambleIsInjective();
    period := IterateReturns(Scramble, x, code, Pow2(64));
  }

  // ----- the step on numbers -----

  /** Bitwise exclusive or. */
  function BitXor(x: nat, y: nat): nat {
    if x == 0 && y == 0 then 0 else (if x % 2 != y % 2 then 1 else 0) + 2 * BitXor(x / 2, y / 2)
  }

  /** The three shifts of the C code, on 64-bit numbers. */
  function XorShift(v: nat): nat {
    var a := BitXor(v, v * 0x2000 % WORD);
    var b := BitXor(a, a / 0x80);
    BitXor(b, b * 0x2_0000 % WORD)
  }

  lemma {:induction false} XorValue(s: seq<bool>, t: seq<bool>, u: seq<bool>)
    requires |s| == |t| == |u| && forall i :: 0 <= i < |u| ==> u[i] == (s[i] != t[i])
    ensures ValueOf(u) == BitXor(ValueOf(s), ValueOf(t))
  {
    if u != [] {
      XorValue(s[1..], t[1..], u[1..]);
      XorDigit(s[0], t[0], ValueOf(s[1..]), ValueOf(t[1..]));
    }
  }

  lemma XorDigit(b: bool, c: bool, x: nat, y: nat)
    ensures BitXor((if b then 1 else 0) + 2 * x, (if c then 1 else 0) + 2 * y) ==
      (if b != c then 1 else 0) + 2 * BitXor(x, y)
  {
  }

  lemma {:induction false} ValueConcat(s: seq<bool>, t: seq<bool>)
    ensures ValueOf(s + t) == ValueOf(s) + Pow2(|s|) * ValueOf(t)
  {
    if s == [] {
      assert s + t == t;
    } else {
      ValueConcat(s[1..], t);
      assert (s + t)[1..] == s[1..] + t;
      Doubled(Pow2(|s| - 1), ValueOf(t));
    }
  }

  lemma Doubled(p: nat, v: nat)
    ensures 2 * (p * v) == (2 * p) * v
  {
  }

  lemma {:induction false} ValueOfClear(s: seq<bool>)
    requires forall i :: 0 <= i < |s| ==> !s[i]
    ensures ValueOf(s) == 0
  {
    if s != [] {
      ValueOfClear(s[1..]);
    }
  }

  /** A left shift multiplies, and loses what passes bit 63. */
  lemma ShiftLeftValue(a: Word, k: nat)
    requires k <= 64
    ensures ValueOf(ShiftLeft(a, k)) == ValueOf(a) * Pow2(k) % Pow2(64)
  {
    var low, high, clear := a[..64 - k], a[64 - k..], seq(k, i => false);
    assert ShiftLeft(a, k) == clear + low && a == low + high;
    ValueOfClear(clear);
    ValueConcat(clear, low);
    ValueConcat(low, high);
    ValueBound(ShiftLeft(a, k));
    Pow2Sum(64 - k, k);
    Wrapped(ValueOf(low), ValueOf(high), Pow2(64 - k), Pow2(k));
  }

  lemma Wrapped(low: nat, high: nat, p: nat, q: nat)
    requires q * low < p * q && p * q > 0
    ensures (low + p * high) * q % (p * q) == q * low
  {
    assert (low + p * high) * q == high * (p * q) + q * low;
    DivModUnique((low + p * high) * q, p * q, high, q * low);
  }

  /** A right shift divides. */
  lemma ShiftRightValue(a: Word, k: nat)
    requires k <= 64
    ensures ValueOf(ShiftRight(a, k)) == ValueOf(a) / Pow2(k)
  {
    var low, high, clear := a[..k], a[k..], seq(k, i => false);
    assert ShiftRight(a, k) == high + clear && a == low + high;
    ValueOfClear(clear);
    ValueConcat(high, clear);
    ValueConcat(low, high);
    ValueBound(low);
    Divided(ValueOf(low), ValueOf(high), Pow2(k));
  }

  lemma Divided(low: nat, high: nat, p: nat)
    requires low < p
    ensures (low + p * high) / p == high
  {
    DivModUnique(low + p * high, p, high, low);
  }

  lemma ShiftConstants()
    ensures Pow2(7) == 0x80 && Pow2(13) == 0x2000 && Pow2(17) == 0x2_0000 && Pow2(64) == WORD
  {
    Pow2Of64();
    assert Pow2(7) == 0x80;
    Pow2Sum(7, 6);
    Pow2Sum(13, 4);
  }

  /** The step computes the shifts and exclusive ors of the C code on numbers. */
  lemma ScrambleOnNumbers(x: Word)
    ensures ValueOf(Scramble(x)) == XorShift(ValueOf(x))
  {
    ShiftConstants();
    var a := XorLeft(x, 13);
    var b := XorRight(a, 7);
    ShiftLeftValue(x, 13);
    XorValue(x, ShiftLeft(x, 13), a);
    ShiftRightValue(a, 7);
    XorValue(a, ShiftRight(a, 7), b);
    ShiftLeftValue(b, 17);
    XorValue(b, ShiftLeft(b, 17), XorLeft(b, 17));
  }

  lemma {:induction false} ValueOfBits(value: nat, n: nat)
    requires value < Pow2(n)
    ensures ValueOf(BitsOf(value, n)) == value
  {
    if n > 0 {
      ValueOfBits(value / 2, n - 1);
      assert BitsOf(value, n)[1..] == BitsOf(value / 2, n - 1);
    }
  }

  lemma SeedOnNumbers()
    ensures ValueOf(SEED) == 0x6a09_e667_f3bc_c909
  {
    ShiftConstants();
    ValueOfBits(0x6a09_e667_f3bc_c909, 64);
  }

  // ----- the byte stream -----

  /** Byte i of a word, least significant first. */
  function WordByte(value: Word, i: nat): byte
    requires i < 8
  {
    ByteOf(value[8 * i..8 * i + 8])
  }

  function ByteOf(s: seq<bool>): byte
    requires |s| == 8
  {
    ValueBound(s);
    assert Pow2(8) == 256;
    ValueOf(s)
  }

  /** The C code shifts the word right and keeps its low byte. */
  lemma ShiftedByte(value: Word, i: nat)
    requires i < 8
    ensures ByteOf(ShiftRight(value, i * 8)[..8]) == WordByte(value, i)
  {
    assert ShiftRight(value, i * 8)[..8] == value[8 * i..8 * i + 8];
  }

  /** Byte j of the stream that starts in state x. */
  function StreamByte(x: Word, j: nat): byte {
    WordByte(After(x, j / 8 + 1), j % 8)
  }

  function Stream(x: Word, n: nat): (s: seq<byte>)
    ensures |s| == n
  {
    seq(n, j requires 0 <= j => StreamByte(x, j))
  }

  /** Eight bytes of the stream, low byte first, are a word of the generator. */
  lemma StreamWord(x: Word, k: nat)
    ensures Decode(Stream(x, 8 * k + 8)[8 * k..]) == ValueOf(After(x, k + 1))
  {
    var s, value := Stream(x, 8 * k + 8)[8 * k..], After(x, k + 1);
    BytesOfWord(x, k, 8);
    TailDecodes(s, value, 0);
    assert s[0..] == s && value[0..] == value;
  }

  lemma {:induction false} TailDecodes(s: seq<byte>, value: Word, i: nat)
    requires |s| == 8 && i <= 8 && forall j :: 0 <= j < 8 ==> s[j] == WordByte(value, j)
    ensures Decode(s[i..]) == ValueOf(value[8 * i..])
    decreases 8 - i
  {
    if i < 8 {
      TailDecodes(s, value, i + 1);
      assert s[i..][1..] == s[i + 1..];
      assert value[8 * i..] == value[8 * i..8 * i + 8] + value[8 * i + 8..];
      ValueConcat(value[8 * i..8 * i + 8], value[8 * i + 8..]);
      assert Pow2(8) == 256;
    }
  }

  function WordsFor(n: nat): nat {
    (n + 7) / 8
  }

  /** Drawing a whole number of words and then more bytes is one long draw. */
  lemma StreamSplits(x: Word, a: nat, b: nat)
    requires a % 8 == 0
    ensures Stream(x, a + b) == Stream(x, a) + Stream(After(x, WordsFor(a)), b)
    ensures After(x, WordsFor(a + b)) == After(After(x, WordsFor(a)), WordsFor(b))
  {
    StateSplits(x, a, b);
    Continued(Stream(x, a + b), Stream(x, a), Stream(After(x, WordsFor(a)), b), x, a);
  }

  lemma StateSplits(x: Word, a: nat, b: nat)
    requires a % 8 == 0
    ensures After(x, WordsFor(a + b)) == After(After(x, WordsFor(a)), WordsFor(b))
  {
    WordsSum(a, b);
    StateSums(x, WordsFor(a), WordsFor(b));
  }

  lemma StateSums(x: Word, j: nat, k: nat)
    ensures After(x, j + k) == After(After(x, j), k)
  {
    IterateSum(Scramble, x, j, k);
  }

  lemma Continued(whole: seq<byte>, first: seq<byte>, rest: seq<byte>, x: Word, a: nat)
    requires a % 8 == 0 && |first| == a && |whole| == a + |rest|
    requires forall j :: 0 <= j < |whole| ==> whole[j] == StreamByte(x, j)
    requires forall j :: 0 <= j < a ==> first[j] == StreamByte(x, j)
    requires forall j :: 0 <= j < |rest| ==> rest[j] == StreamByte(After(x, WordsFor(a)), j)
    ensures whole == first + rest
  {
    forall j | 0 <= j < |rest|
      ensures whole[a + j] == rest[j]
    {
      LaterByte(x, a, j);
    }
  }

  lemma WordsSum(a: nat, b: nat)
    requires a % 8 == 0
    ensures WordsFor(a + b) == WordsFor(a) + WordsFor(b)
  {
  }

  lemma WordsForIs(n: nat, k: nat)
    requires n <= 8 * k < n + 8
    ensures WordsFor(n) == k
  {
  }

  /** The bytes that word k + 1 of the stream supplies. */
  lemma BytesOfWord(x: Word, k: nat, chunk: nat)
    requires chunk <= 8
    ensures forall j :: 8 * k <= j < 8 * k + chunk ==> StreamByte(x, j) == WordByte(After(x, k + 1), j - 8 * k)
  {
    forall j | 8 * k <= j < 8 * k + chunk
      ensures StreamByte(x, j) == WordByte(After(x, k + 1), j - 8 * k)
    {
      assert j / 8 == k && j % 8 == j - 8 * k;
    }
  }

  lemma LaterByte(x: Word, a: nat, j: nat)
    requires a % 8 == 0
    ensures StreamByte(x, a + j) == StreamByte(After(x, WordsFor(a)), j)
  {
    Quotients(a, j);
    IterateSum(Scramble, x, a / 8, j / 8 + 1);
  }

  lemma Quotients(a: nat, j: nat)
    requires a % 8 == 0
    ensures (a + j) / 8 == a / 8 + j / 8 && (a + j) % 8 == j % 8 && WordsFor(a) == a / 8
  {
  }

  /** The first n bytes of s' are the stream, and the rest are those of s. */
  ghost predicate Filled(s': seq<byte>, s: seq<byte>, x: Word, n: nat) {
    && n <= |s'| == |s|
    && (forall j :: 0 <= j < n ==> s'[j] == StreamByte(x, j))
    && (forall j :: n <= j < |s| ==> s'[j] == s[j])
  }

  lemma FilledIs(s': seq<byte>, s: seq<byte>, x: Word, n: nat)
    requires Filled(s', s, x, n)
    ensures s' == Stream(x, n) + s[n..]
  {
  }

  class Generator {
    var state: Word
    var errno: int

    constructor ()
      ensures state == SEED && errno == 0
    {
      state := SEED;
      errno := 0;
    }

    method NextRandom64() returns (value: Word)
      modifies this`state
      ensures state == value == Scramble(old(state))
    {
      state := Xor(state, ShiftLeft(state, 13));
      state := Xor(state, ShiftRight(state, 7));
      state := Xor(state, ShiftLeft(state, 17));
      value := state;
    }

    /** The inner loop: the low bytes of one word. */
    static method PutBytes(bytes: array<byte>, offset: nat, value: Word, chunk: nat)
      requires offset + chunk <= bytes.Length && chunk <= 8
      modifies bytes
      ensures forall j :: 0 <= j < bytes.Length && !(offset <= j < offset + chunk) ==> bytes[j] == old(bytes[j])
      ensures forall j :: offset <= j < offset + chunk ==> bytes[j] == WordByte(value, j - offset)
    {
      var i := 0;
      while i < chunk
        invariant 0 <= i <= chunk
        invariant forall j :: 0 <= j < bytes.Length && !(offset <= j < offset + i) ==> bytes[j] == old(bytes[j])
        invariant forall j :: offset <= j < offset + i ==> bytes[j] == WordByte(value, j - offset)
      {
        ShiftedByte(value, i);
        bytes[offset + i] := ByteOf(ShiftRight(value, i * 8)[..8]);
        i := i + 1;
      }
    }

    /** The first n bytes of the stream go to the buffer; the rest of the buffer
        is untouched.  A null buffer is refused unless nothing is asked for. */
    method GetRandom(buf: array?<byte>, n: nat) returns (count: int)
      requires buf != null ==> n <= buf.Length
      modifies this, buf
      ensures if buf == null && n != 0 then count == -1 && errno == EFAULT && state == old(state)
              else count == n && errno == old(errno) && state == After(old(state), WordsFor(n))
      ensures count >= 0 ==> state == After(old(state), (n + 7) / 8)
      ensures buf != null ==> buf[..] == Stream(old(state), n) + old(buf[n..])
    {
      if buf == null && n != 0 {
        errno := EFAULT;
        return -1;
      }
      var offset := 0;
      ghost var k := 0;
      while offset < n
        invariant offset == (if 8 * k <= n then 8 * k else n) && 8 * k < n + 8
        invariant state == After(old(state), k) && errno == old(errno)
        invariant buf != null ==> Filled(buf[..], old(buf[..]), old(state), offset)
      {
        offset := FillWord(buf, n, offset, k, old(state));
        k := k + 1;
      }
      WordsForIs(n, k);
      if buf != null {
        FilledIs(buf[..], old(buf[..]), old(state), n);
      }
      count := n;
    }

    /** One round of the outer loop: draw a word and store its low bytes. */
    method FillWord(buf: array<byte>, n: nat, offset: nat, ghost k: nat, ghost seed: Word) returns (next: nat)
      requires n <= buf.Length && offset == 8 * k < n && state == After(seed, k)
      modifies this`state, buf
      ensures state == After(seed, k + 1)
      ensures next == if 8 * (k + 1) <= n then 8 * (k + 1) else n
      ensures forall s :: Filled(old(buf[..]), s, seed, offset) ==> Filled(buf[..], s, seed, next)
    {
      var value := NextRandom64();
      var chunk := n - offset;
      if chunk > 8 {
        chunk := 8;
      }
      BytesOfWord(seed, k, chunk);
      PutBytes(buf, offset, value, chunk);
      next := offset + chunk;
    }

    method GetEntropy(buf: array?<byte>, n: nat) returns (status: int)
      requires buf != null ==> n <= buf.Length
      modifies this, buf
      ensures status == if n > 256 || (buf == null && n != 0) then -1 else 0
      ensures n > 256 ==> errno == EIO && state == old(state) && (buf != null ==> buf[..] == old(buf[..]))
      ensures n <= 256 && buf != null ==> buf[..] == Stream(old(state), n) + old(buf[n..])
      ensures status == 0 ==> state == After(old(state), WordsFor(n)) && errno == old(errno)
    {
      if n > 256 {
        errno := EIO;
        return -1;
      }
      var count := GetRandom(buf, n);
      status := if count == n then 0 else -1;
    }
  }
}

/** Machine words of the 64-bit platform the model is fixed to. */
module Words {

  datatype Option<T> = None | Some(value: T) {
    predicate IsFailure() { None? }

    function PropagateFailure<U>(): Option<U>
      requires None?
    {
      None
    }

    function Extract(): T
      requires Some?
    {
      value
    }
  }

  newtype byte = x: int | 0 <= x < 256

  const WORD_SIZE: int := 0x1_0000_0000_0000_0000
  const HALF_WORD: int := 0x8000_0000_0000_0000

  type word = x: int | 0 <= x < 0x1_0000_0000_0000_0000

  /** Addition of a number to an unsigned word, which wraps around. */
  function WrapAdd(w: word, d: int): word { (w + d) % WORD_SIZE }

  /** Subtraction of unsigned words, which wraps around. */
  function WrapSub(a: word, b: word): word { if a >= b then a - b else a - b + WORD_SIZE }

  /** A word read as a two's complement signed number. */
  function Signed(w: word): int { if w < HALF_WORD then w else w - WORD_SIZE }

  /** memcmp() on two stretches of the same length: the sign of the first difference. */
  function Memcmp(a: seq<byte>, b: seq<byte>): (r: int)
    requires |a| == |b|
    ensures -1 <= r <= 1
  {
    if a == [] then 0
    else if a[0] < b[0] then -1
    else if a[0] > b[0] then 1
    else Memcmp(a[1..], b[1..])
  }
}

/** Sequences of places in a store. */
module Sequences {

  ghost predicate NoDup(s: seq<nat>) {
    forall i, j :: 0 <= i < j < |s| ==> s[i] != s[j]
  }
}

/** Multiplication and division of numbers that are not constants. */
module Arith {

  lemma MulMono(a: nat, b: nat, d: nat)
    requires a <= b
    ensures a * d <= b * d
  {
    assert b * d == a * d + (b - a) * d;
  }

  lemma MulNext(c: nat, d: nat)
    ensures (c + 1) * d == c * d + d
  {
  }

  lemma DivRest(x: nat, d: nat)
    requires d > 0
    ensures 0 <= x / d && x == x / d * d + x % d && x % d < d
  {
  }

  lemma MulSign(x: int, d: nat)
    ensures x >= 1 ==> x * d >= d
    ensures x <= -1 ==> x * d <= -(d as int)
  {
    if x >= 1 {
      MulMono(1, x, d);
    } else if x <= -1 {
      MulMono(1, -x, d);
    }
  }

  lemma DivMul(c: nat, d: nat)
    requires d > 0
    ensures c * d / d == c && c * d % d == 0
  {
    DivRest(c * d, d);
    var q := c * d / d;
    assert (c - q) * d == c * d % d;
    MulSign(c - q, d);
  }

  lemma Halve(s: nat, d: nat, x: nat)
    requires s * d <= x < (s + 1) * d
    ensures s / 2 * (2 * d) <= x < (s / 2 + 1) * (2 * d)
  {
    var q, r := s / 2, s % 2;
    assert s * d == 2 * (q * d) + r * d;
    assert (q + 1) * (2 * d) == 2 * (q * d) + 2 * d;
    MulMono(0, r, d);
    MulMono(r, 1, d);
  }

  lemma DivLess(x: nat, d: nat, n: nat)
    requires d > 0 && x < n * d
    ensures x / d < n
  {
    DivRest(x, d);
    assert (x / d - n) * d < 0;
    MulSign(x / d - n, d);
  }
}

/** Bits of words, and the bitwise operators the slab allocator uses. */
module Bits {
  import opened Words
  import opened Arith

  function Pow2(k: nat): (p: nat)
    ensures p > 0
  {
    if k == 0 then 1 else 2 * Pow2(k - 1)
  }

  /** `q` is `x` shifted right by `k`. */
  ghost predicate Shifted(x: nat, k: nat, q: nat) { q * Pow2(k) <= x < (q + 1) * Pow2(k) }

  lemma ShiftedOnce(x: nat)
    ensures Shifted(x, 1, x / 2) && Pow2(0) == 1
  {
  }

  lemma ShiftedMore(x: nat, k: nat, q: nat)
    requires Shifted(x, k, q)
    ensures Shifted(x, k + 1, q / 2)
    ensures q > 0 ==> Pow2(k) <= x
    ensures q == 0 ==> x < Pow2(k)
  {
    Halve(q, Pow2(k), x);
    if q > 0 {
      MulMono(1, q, Pow2(k));
    }
  }

  predicate Bit(w: nat, i: nat) { BitAt(w, i) }

  predicate BitAt(w: nat, i: nat) {
    if i == 0 then w % 2 == 1 else BitAt(w / 2, i - 1)
  }

  /** Bitwise operators on numbers of `k` bits. */
  function AndK(a: nat, b: nat, k: nat): (r: nat)
    ensures r < Pow2(k) && r <= a && r <= b
  {
    if k == 0 then 0 else 2 * AndK(a / 2, b / 2, k - 1) + if a % 2 == 1 && b % 2 == 1 then 1 else 0
  }

  function OrK(a: nat, b: nat, k: nat): (r: nat)
    ensures r < Pow2(k)
  {
    if k == 0 then 0 else 2 * OrK(a / 2, b / 2, k - 1) + if a % 2 == 1 || b % 2 == 1 then 1 else 0
  }

  lemma Pow2Table()
    ensures Pow2(0) == 1 && Pow2(1) == 2 && Pow2(2) == 4 && Pow2(3) == 8 && Pow2(4) == 16 && Pow2(5) == 32
    ensures Pow2(6) == 64 && Pow2(7) == 128 && Pow2(8) == 256 && Pow2(9) == 512 && Pow2(10) == 1024
    ensures Pow2(11) == 2048 && Pow2(12) == 4096
  {
  }

  lemma Pow2Next(k: nat)
    ensures Pow2(k + 1) == 2 * Pow2(k)
  {
  }

  lemma Pow2Sum(a: nat, b: nat)
    ensures Pow2(a + b) == Pow2(a) * Pow2(b)
  {
    if a > 0 {
      Pow2Sum(a - 1, b);
    }
  }

  lemma Pow2Word()
    ensures Pow2(32) == 0x1_0000_0000 && Pow2(64) == WORD_SIZE
  {
    Pow2Table();
    Pow2Sum(8, 8);
    Pow2Sum(16, 16);
    Pow2Sum(32, 32);
  }

  function And(a: word, b: word): word {
    Pow2Word();
    AndK(a, b, 64)
  }

  function Or(a: word, b: word): word {
    Pow2Word();
    OrK(a, b, 64)
  }

  function Not(a: word): word { WORD_SIZE - 1 - a }

  /** Shifting to the left, which drops what leaves the word. */
  function Shl(a: word, k: nat): word { a * Pow2(k) % WORD_SIZE }

  lemma {:induction false} BitAndK(a: nat, b: nat, k: nat, i: nat)
    requires i < k
    ensures Bit(AndK(a, b, k), i) <==> Bit(a, i) && Bit(b, i)
  {
    if i > 0 {
      BitAndK(a / 2, b / 2, k - 1, i - 1);
    }
  }

  lemma {:induction false} BitOrK(a: nat, b: nat, k: nat, i: nat)
    requires i < k
    ensures Bit(OrK(a, b, k), i) <==> Bit(a, i) || Bit(b, i)
  {
    if i > 0 {
      BitOrK(a / 2, b / 2, k - 1, i - 1);
    }
  }

  lemma BitAnd(a: word, b: word, i: nat)
    requires i < 64
    ensures Bit(And(a, b), i) <==> Bit(a, i) && Bit(b, i)
  {
    BitAndK(a, b, 64, i);
  }

  lemma BitOr(a: word, b: word, i: nat)
    requires i < 64
    ensures Bit(Or(a, b), i) <==> Bit(a, i) || Bit(b, i)
  {
    BitOrK(a, b, 64, i);
  }

  lemma {:induction false} BitNotK(a: nat, k: nat, i: nat)
    requires i < k && a < Pow2(k)
    ensures Bit(Pow2(k) - 1 - a, i) <==> !Bit(a, i)
  {
    if i > 0 {
      assert (Pow2(k) - 1 - a) / 2 == Pow2(k - 1) - 1 - a / 2;
      BitNotK(a / 2, k - 1, i - 1);
    }
  }

  lemma BitNot(a: word, i: nat)
    requires i < 64
    ensures Bit(Not(a), i) <==> !Bit(a, i)
  {
    Pow2Word();
    BitNotK(a, 64, i);
  }

  lemma {:induction false} BitPow(k: nat, i: nat)
    ensures Bit(Pow2(k), i) <==> i == k
  {
    if k > 0 && i > 0 {
      BitPow(k - 1, i - 1);
    } else if i > 0 {
      BitZero(i - 1);
    }
  }

  lemma {:induction false} BitZero(i: nat)
    ensures !Bit(0, i)
  {
    if i > 0 {
      BitZero(i - 1);
    }
  }

  /** The low `k` bits are set in 2^k - 1. */
  lemma {:induction false} BitOnes(k: nat, i: nat)
    ensures Bit(Pow2(k) - 1, i) <==> i < k
  {
    if k == 0 {
      BitZero(i);
    } else if i > 0 {
      BitOnes(k - 1, i - 1);
    }
  }

  /** Two numbers with the same bits are the same. */
  lemma {:induction false} SameBits(a: nat, b: nat, k: nat)
    requires a < Pow2(k) && b < Pow2(k)
    requires forall i: nat :: i < k ==> Bit(a, i) == Bit(b, i)
    ensures a == b
  {
    if k > 0 {
      forall i: nat | i < k - 1
        ensures Bit(a / 2, i) == Bit(b / 2, i)
      {
        assert Bit(a, i + 1) == Bit(b, i + 1);
      }
      SameBits(a / 2, b / 2, k - 1);
      assert Bit(a, 0) == Bit(b, 0);
    }
  }

  lemma SameWords(a: word, b: word)
    requires forall i: nat :: i < 64 ==> Bit(a, i) == Bit(b, i)
    ensures a == b
  {
    Pow2Word();
    SameBits(a, b, 64);
  }

  lemma {:induction false} HasBit(a: nat, k: nat) returns (i: nat)
    requires 0 < a < Pow2(k)
    ensures i < k && Bit(a, i)
  {
    if a % 2 == 1 {
      i := 0;
    } else {
      i := HasBit(a / 2, k - 1);
      i := i + 1;
    }
  }

  /** A word is zero just when no bit is set. */
  lemma ZeroWord(a: word)
    ensures a == 0 <==> forall i: nat :: i < 64 ==> !Bit(a, i)
  {
    if a == 0 {
      forall i: nat | i < 64
        ensures !Bit(a, i)
      {
        BitZero(i);
      }
    } else {
      Pow2Word();
      var i := HasBit(a, 64);
    }
  }

  lemma Pow2Mono(a: nat, b: nat)
    requires a < b
    ensures Pow2(a) < Pow2(b)
  {
    if a + 1 < b {
      Pow2Mono(a, b - 1);
    }
  }

  lemma Pow2Fits(i: nat)
    requires i < 64
    ensures Pow2(i) < WORD_SIZE
  {
    Pow2Mono(i, 64);
    Pow2Word();
  }

  /** Testing one bit, as `w & m` with m = 1 << i. */
  lemma TestBit(w: word, i: nat)
    requires i < 64
    ensures Pow2(i) < WORD_SIZE
    ensures And(w, Pow2(i)) != 0 <==> Bit(w, i)
  {
    Pow2Fits(i);
    var t := And(w, Pow2(i));
    forall j: nat | j < 64
      ensures Bit(t, j) <==> Bit(w, i) && j == i
    {
      BitAnd(w, Pow2(i), j);
      BitPow(i, j);
    }
    hide And, Pow2, Bit;
    ZeroWord(t);
    assert Bit(w, i) <==> Bit(t, i);
  }

  /** Shifting by `k` moves every bit up by `k`. */
  lemma {:induction false} BitScaled(a: nat, k: nat, i: nat)
    ensures Bit(a * Pow2(k), i) <==> i >= k && Bit(a, i - k)
  {
    if k > 0 {
      assert a * Pow2(k) == 2 * (a * Pow2(k - 1));
      if i > 0 {
        BitScaled(a, k - 1, i - 1);
      }
    }
  }

  /** 1 << i, which is 0 once the bit has left the word. */
  function Power(i: nat): word {
    if i < 64 then Pow2Fits(i); Pow2(i) else 0
  }

  lemma NextPower(i: nat)
    ensures Shl(Power(i), 1) == Power(i + 1)
  {
    Pow2Word();
    Pow2Table();
    if i < 63 {
      Pow2Fits(i + 1);
    }
  }

  lemma AndCommutes(a: word, b: word)
    ensures And(a, b) == And(b, a)
  {
    forall i: nat | i < 64
      ensures Bit(And(a, b), i) == Bit(And(b, a), i)
    {
      BitAnd(a, b, i);
      BitAnd(b, a, i);
    }
    SameWords(And(a, b), And(b, a));
  }

  /** A bit put on top of a number. */
  lemma {:induction false} BitTop(a: nat, k: nat, i: nat)
    requires a < Pow2(k)
    ensures Bit(Pow2(k) + a, i) <==> Bit(a, i) || i == k
  {
    if k == 0 {
      BitPow(0, i);
      BitZero(i);
    } else if i > 0 {
      assert (Pow2(k) + a) / 2 == Pow2(k - 1) + a / 2;
      BitTop(a / 2, k - 1, i - 1);
    }
  }

  /** The top bit of a word, tested and removed. */
  lemma TopBit(a: word)
    requires a < HALF_WORD
    ensures And(a, HALF_WORD) == 0 && And(HALF_WORD + a, HALF_WORD) != 0 && And(HALF_WORD + a, Not(HALF_WORD)) == a
  {
    Pow2Word();
    Pow2Next(63);
    assert Pow2(63) == HALF_WORD;
    hide Pow2, Bit, And, Not;
    TestBit(a, 63);
    TestBit(HALF_WORD + a, 63);
    HighBits(a, 63, 63);
    BitTop(a, 63, 63);
    var t := And(HALF_WORD + a, Not(HALF_WORD));
    forall i: nat | i < 64
      ensures Bit(t, i) == Bit(a, i)
    {
      BitAnd(HALF_WORD + a, Not(HALF_WORD), i);
      BitNot(HALF_WORD, i);
      BitPow(63, i);
      BitTop(a, 63, i);
    }
    SameWords(t, a);
  }

  /** A number below 2^k has no bits from `k` on. */
  lemma {:induction false} HighBits(a: nat, k: nat, i: nat)
    requires a < Pow2(k) && k <= i
    ensures !Bit(a, i)
  {
    if k == 0 {
      BitZero(i);
    } else {
      HighBits(a / 2, k - 1, i - 1);
    }
  }
}

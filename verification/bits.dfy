/** Unsigned machine words and their bitwise operations.
    A word is a natural number below 2^64; `&`, `|` and `^` are defined bit by bit, and the
    lemmas below say what each masking idiom of the C sources computes. */
module Bits {

  const WORD_LIMIT: nat := 0x1_0000_0000_0000_0000

  type Word = w: int | 0 <= w < 0x1_0000_0000_0000_0000

  function BitAnd(x: nat, y: nat): (r: nat)
    ensures r <= x && r <= y
  {
    if x == 0 || y == 0 then 0
    else 2 * BitAnd(x / 2, y / 2) + (if x % 2 == 1 && y % 2 == 1 then 1 else 0)
  }

  function BitOr(x: nat, y: nat): (r: nat)
    ensures x <= r && y <= r <= x + y
    decreases x + y
  {
    if x == 0 then y
    else if y == 0 then x
    else 2 * BitOr(x / 2, y / 2) + (if x % 2 == 1 || y % 2 == 1 then 1 else 0)
  }

  function BitXor(x: nat, y: nat): (r: nat)
    ensures r <= x + y
    ensures r == 0 <==> x == y
    decreases x + y
  {
    if x == 0 then y
    else if y == 0 then x
    else 2 * BitXor(x / 2, y / 2) + (if x % 2 != y % 2 then 1 else 0)
  }

  function Pow2(k: nat): (p: nat)
    ensures p >= 1
  {
    if k == 0 then 1 else 2 * Pow2(k - 1)
  }

  /** The quotient and remainder of a division are determined by n == q * d + r. */
  lemma {:induction false} DivModUnique(n: int, d: int, q: int, r: int)
    requires 0 <= r < d && n == q * d + r
    ensures n / d == q && n % d == r
  {
    var q', r' := n / d, n % d;
    assert n == q' * d + r';
    if q > q' {
      MulMono(q - q', d);
    } else if q < q' {
      MulMono(q' - q, d);
    }
  }

  lemma {:induction false} MulMono(a: int, d: int)
    requires a >= 1 && d >= 0
    ensures a * d >= d
  {
    assert a * d == (a - 1) * d + d;
  }

  lemma {:induction false} Pow2Sum(a: nat, b: nat)
    ensures Pow2(a) * Pow2(b) == Pow2(a + b)
  {
    if a > 0 {
      Pow2Sum(a - 1, b);
      assert Pow2(a) * Pow2(b) == 2 * (Pow2(a - 1) * Pow2(b));
    }
  }

  lemma {:induction false} Pow2Less(a: nat, b: nat)
    requires Pow2(a) < Pow2(b)
    ensures a < b
  {
    if b <= a {
      Pow2Sum(a - b, b);
      MulMono(Pow2(a - b), Pow2(b));
    }
  }

  lemma {:induction false} ModDouble(x: nat, m: nat)
    requires m > 0
    ensures x % (2 * m) == 2 * ((x / 2) % m) + x % 2
  {
    var q, r := (x / 2) / m, (x / 2) % m;
    assert x / 2 == q * m + r;
    assert q * (2 * m) == 2 * (q * m);
    DivModUnique(x, 2 * m, q, 2 * r + x % 2);
  }

  /** Masking with 2^k - 1 keeps the remainder modulo 2^k. */
  lemma {:induction false} AndLowBits(x: nat, k: nat)
    ensures BitAnd(x, Pow2(k) - 1) == x % Pow2(k)
  {
    if x == 0 {
      DivModUnique(x, Pow2(k), 0, 0);
    } else if k > 0 {
      var half := Pow2(k - 1);
      assert Pow2(k) == 2 * half;
      AndLowBits(x / 2, k - 1);
      AndOneMore(x, half);
    } else {
      assert BitAnd(x, 0) == 0;
    }
  }

  /** If masking with m - 1 takes the remainder by m, masking with 2m - 1 takes it by 2m. */
  lemma {:induction false} AndOneMore(x: nat, m: nat)
    requires x > 0 && m > 0 && BitAnd(x / 2, m - 1) == (x / 2) % m
    ensures BitAnd(x, 2 * m - 1) == x % (2 * m)
  {
    ModDouble(x, m);
    AndDouble(x, m);
  }

  /** One more mask bit. */
  lemma {:induction false} AndDouble(x: nat, m: nat)
    requires x > 0 && m > 0
    ensures BitAnd(x, 2 * m - 1) == 2 * BitAnd(x / 2, m - 1) + x % 2
  {
    var y := 2 * m - 1;
    assert y / 2 == m - 1 && y % 2 == 1;
  }

  /** `size_t` subtraction wraps modulo 2^64. */
  function Sub64(a: Word, b: Word): Word {
    (a - b) % WORD_LIMIT
  }

  lemma {:induction false} Pow2Of32()
    ensures Pow2(32) == 0x1_0000_0000
  {
    assert Pow2(4) == 16;
    Pow2Sum(4, 4);
    Pow2Sum(8, 8);
    Pow2Sum(16, 16);
  }

  lemma {:induction false} Pow2Values()
    ensures Pow2(61) == 0x2000_0000_0000_0000
    ensures Pow2(64) == WORD_LIMIT
  {
    Pow2Of32();
    Pow2Sum(32, 32);
    assert 2 * 2 * 2 * Pow2(61) == Pow2(64);
  }

  lemma {:induction false} WrapThenMod(d: int, cap: int, rest: nat, limit: nat)
    requires cap >= 1 && rest >= 1 && rest * cap == limit && -cap < d < cap
    ensures cap <= limit && (d % limit) % cap == if d >= 0 then d else d + cap
  {
    MulMono(rest, cap);
    if d >= 0 {
      DivModUnique(d, limit, 0, d);
      DivModUnique(d, cap, 0, d);
    } else {
      DivModUnique(d, limit, -1, d + limit);
      assert (rest - 1) * cap == rest * cap - cap;
      DivModUnique(d + limit, cap, rest - 1, d + cap);
    }
  }

  /** The wrapped difference of two slot numbers, masked to the capacity, is the cyclic distance
      between them. */
  lemma {:induction false} MaskedDifference(a: Word, b: Word, k: nat)
    requires k <= 64 && a < Pow2(k) && b < Pow2(k)
    ensures BitAnd(Sub64(a, b), Pow2(k) - 1) == if a >= b then a - b else a - b + Pow2(k)
  {
    AndLowBits(Sub64(a, b), k);
    SplitWordLimit(k);
    WrapThenMod(a - b, Pow2(k), Pow2(64 - k), WORD_LIMIT);
  }

  lemma {:induction false} SplitWordLimit(k: nat)
    requires k <= 64
    ensures Pow2(64 - k) * Pow2(k) == WORD_LIMIT
  {
    Pow2Sum(64 - k, k);
    Pow2Values();
  }

  /** Clearing the three low bits of a word rounds it down to a multiple of eight. */
  lemma {:induction false} AndClearsLowThree(x: Word)
    ensures BitAnd(x, 0xffff_ffff_ffff_fff8) == x - x % 8
  {
    AndWithOnes(x / 8);
    assert x / 2 / 2 / 2 == x / 8;
    assert BitAnd(x / 2 / 2, 0x3fff_ffff_ffff_fffe) == 2 * (x / 8);
    assert BitAnd(x / 2, 0x7fff_ffff_ffff_fffc) == 4 * (x / 8);
  }

  lemma {:induction false} AndWithOnes(x: nat)
    requires x < 0x2000_0000_0000_0000
    ensures BitAnd(x, 0x1fff_ffff_ffff_ffff) == x
  {
    Pow2Values();
    AndLowBits(x, 61);
    DivModUnique(x, 0x2000_0000_0000_0000, 0, x);
  }

  lemma {:induction false} AndKeepsLowThree(x: Word)
    ensures BitAnd(x, 7) == x % 8
  {
    assert Pow2(3) == 8;
    AndLowBits(x, 3);
  }

  /** A tag below eight can be or-ed into a multiple of eight without carries. */
  lemma {:induction false} OrTag(key: nat, tag: nat)
    requires key % 8 == 0 && tag < 8
    ensures BitOr(key, tag) == key + tag
  {
    assert BitOr(key / 2 / 2 / 2, tag / 2 / 2 / 2) == key / 8;
    assert BitOr(key / 2 / 2, tag / 2 / 2) == key / 4 + tag / 4;
    assert BitOr(key / 2, tag / 2) == key / 2 + tag / 2;
  }

  /** Two words differ at most in their three low bits exactly when their quotients by eight agree. */
  lemma {:induction false} XorSmall(x: nat, y: nat)
    ensures BitXor(x, y) <= 7 <==> x / 8 == y / 8
  {
    XorHalf(x, y);
    XorHalf(x / 2, y / 2);
    XorHalf(x / 2 / 2, y / 2 / 2);
    assert x / 2 / 2 / 2 == x / 8 && y / 2 / 2 / 2 == y / 8;
  }

  lemma {:induction false} XorHalf(x: nat, y: nat)
    ensures BitXor(x, y) / 2 == BitXor(x / 2, y / 2)
  {
  }
}

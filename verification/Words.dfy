/** The 64-bit machine words the radix tree computes with.  Words are integers
    below 2^64; the shift and mask operators of the source are defined here bit
    by bit, so that their base-64 reading is proved and not assumed. */
module Words {
  const WORD: int := 0x1_0000_0000_0000_0000
  const WORD32: int := 0x1_0000_0000

  /** An `unsigned long`. */
  type Key = k: int | 0 <= k < WORD

  function Pow2(n: nat): (r: nat)
    ensures r > 0
  {
    if n == 0 then 1 else 2 * Pow2(n - 1)
  }

  /** `x >> s`: s successive halvings. */
  function Shr(x: nat, s: nat): (r: nat)
    ensures r <= x
  {
    if s == 0 then x else Shr(x, s - 1) / 2
  }

  /** `a & b`, one binary digit at a time. */
  function And(a: nat, b: nat): (r: nat)
    ensures r <= a && r <= b
  {
    if a == 0 || b == 0 then 0 else 2 * And(a / 2, b / 2) + (a % 2) * (b % 2)
  }

  /** Conversion of a (possibly negative) integer to `unsigned long`. */
  function ToWord(x: int): Key {
    x % WORD
  }

  /** Unsigned 32-bit arithmetic. */
  function ToUint(x: int): nat {
    x % WORD32
  }

  /** `~x` on a two's complement `int`. */
  function NotInt(x: int): int {
    -x - 1
  }

  lemma UintIs(x: int)
    ensures 0 <= x < WORD32 ==> ToUint(x) == x
  {
  }

  lemma {:induction false} ShrInside(x: nat, s: nat)
    ensures Shr(x, s + 1) == Shr(x / 2, s)
  {
    if s > 0 {
      ShrInside(x, s - 1);
    }
  }

  lemma {:induction false} ShrAdd(x: nat, s: nat, t: nat)
    ensures Shr(x, s + t) == Shr(Shr(x, s), t)
  {
    if t > 0 {
      ShrAdd(x, s, t - 1);
      assert s + t - 1 == s + (t - 1);
    }
  }

  lemma {:induction false} Pow2Add(m: nat, n: nat)
    ensures Pow2(m + n) == Pow2(m) * Pow2(n)
  {
    if n > 0 {
      Pow2Add(m, n - 1);
      assert m + n - 1 == m + (n - 1);
    }
  }

  lemma Pow2Word()
    ensures Pow2(64) == WORD
  {
    assert Pow2(2) == 4 && Pow2(4) == 4 * Pow2(2);
    hide Pow2;
    Pow2Add(4, 4);
    Pow2Add(8, 8);
    Pow2Add(16, 16);
    Pow2Add(32, 32);
  }

  /** Adding up to 2^64 wraps to 0 and to nothing else. */
  lemma WrapWord(x: nat)
    requires x <= WORD
    ensures ToWord(x) == if x == WORD then 0 else x
  {
  }

  /** `-p` as an unsigned word. */
  lemma NegativeWord(p: int)
    requires 0 < p <= WORD
    ensures ToWord(-p) == WORD - p
  {
  }

  /** Masking with the low `w - s` bits cleared: `x & (2^w - 2^s)` keeps exactly
      the digits from position s upwards. */
  lemma {:induction false} MaskHigh(x: nat, w: nat, s: nat)
    requires s <= w && x < Pow2(w)
    ensures Pow2(s) <= Pow2(w)
    ensures And(x, Pow2(w) - Pow2(s)) == Shr(x, s) * Pow2(s)
  {
    hide And, Shr;
    Pow2Monotone(s, w);
    if s == 0 {
      MaskAll(x, w);
      ShrNone(x);
    } else {
      MaskHigh(x / 2, w - 1, s - 1);
      ShrInside(x, s - 1);
      var m := Pow2(w - 1) - Pow2(s - 1);
      assert Pow2(w) - Pow2(s) == 2 * m;
      AndStep(x, m);
      Twice(Shr(x, s), Pow2(s - 1));
    }
  }

  lemma ShrNone(x: nat)
    ensures Shr(x, 0) == x
  {
  }

  lemma Twice(a: nat, b: nat)
    ensures 2 * (a * b) == a * (2 * b)
  {
  }

  lemma AndStep(a: nat, m: nat)
    ensures And(a, 2 * m) == 2 * And(a / 2, m)
  {
    assert 2 * m / 2 == m && 2 * m % 2 == 0;
  }

  lemma {:induction false} MaskAll(x: nat, w: nat)
    requires x < Pow2(w)
    ensures And(x, Pow2(w) - 1) == x
  {
    if w > 0 {
      MaskAll(x / 2, w - 1);
      assert (Pow2(w) - 1) / 2 == Pow2(w - 1) - 1;
    }
  }

  lemma {:induction false} Pow2Monotone(s: nat, w: nat)
    requires s <= w
    ensures Pow2(s) <= Pow2(w)
  {
    if s < w {
      Pow2Monotone(s, w - 1);
    }
  }

  lemma AndOdd(a: nat, m: nat)
    ensures And(a, 2 * m + 1) == 2 * And(a / 2, m) + a % 2
  {
    assert (2 * m + 1) / 2 == m && (2 * m + 1) % 2 == 1;
  }

  /** `x & 63` is the last base-64 digit. */
  lemma {:induction false} MaskDigit(x: nat)
    ensures And(x, 63) == x % 64
  {
    hide And;
    AndOdd(x, 31);
    AndOdd(x / 2, 15);
    AndOdd(x / 4, 7);
    AndOdd(x / 8, 3);
    AndOdd(x / 16, 1);
    AndOdd(x / 32, 0);
    AndNone(x / 64);
    assert x / 2 / 2 == x / 4 && x / 4 / 2 == x / 8 && x / 8 / 2 == x / 16;
    assert x / 16 / 2 == x / 32 && x / 32 / 2 == x / 64;
  }

  lemma AndNone(a: nat)
    ensures And(a, 0) == 0
  {
  }
}

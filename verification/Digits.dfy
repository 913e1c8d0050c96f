/** Base-64 digits of keys.  `Prefix(k, l)` drops the last l digits of k and
    `FirstKey(p, l)` is the least key with prefix p; the two form a Galois
    connection, which is the only arithmetic the tree proofs need. */
module Digits {
  import opened Words

  const MAP_SHIFT: int := 6
  const MAP_SIZE: int := 64
  const MAP_MASK: int := MAP_SIZE - 1

  function Prefix(k: nat, l: nat): (r: nat)
    ensures r <= k
  {
    if l == 0 then k else Prefix(k, l - 1) / 64
  }

  function FirstKey(p: nat, l: nat): (r: nat)
    ensures p <= r
    decreases l
  {
    if l == 0 then p else FirstKey(64 * p, l - 1)
  }

  /** The number of base-64 digits of k: the least height whose tree can hold k. */
  function NeededHeight(k: nat): nat {
    if k == 0 then 0 else 1 + NeededHeight(k / 64)
  }

  lemma {:induction false} PrefixGalois(k: nat, p: nat, l: nat)
    ensures FirstKey(p, l) <= k <==> p <= Prefix(k, l)
    decreases l
  {
    if l > 0 {
      PrefixGalois(k, 64 * p, l - 1);
    }
  }

  lemma {:induction false} PrefixOfFirst(p: nat, l: nat)
    ensures Prefix(FirstKey(p, l), l) == p
  {
    PrefixGalois(FirstKey(p, l), p, l);
    PrefixGalois(FirstKey(p, l), p + 1, l);
    FirstKeyStrict(p, p + 1, l);
  }

  lemma {:induction false} FirstKeyStrict(p: nat, q: nat, l: nat)
    requires p < q
    ensures FirstKey(p, l) < FirstKey(q, l)
    decreases l
  {
    if l > 0 {
      FirstKeyStrict(64 * p, 64 * q, l - 1);
    }
  }

  /** Keys with prefix p are one interval of consecutive keys. */
  lemma {:induction false} PrefixInterval(k: nat, p: nat, l: nat)
    ensures Prefix(k, l) == p <==> FirstKey(p, l) <= k < FirstKey(p + 1, l)
  {
    PrefixGalois(k, p, l);
    PrefixGalois(k, p + 1, l);
  }

  lemma {:induction false} PrefixMonotone(a: nat, b: nat, l: nat)
    requires a <= b
    ensures Prefix(a, l) <= Prefix(b, l)
  {
    if l > 0 {
      PrefixMonotone(a, b, l - 1);
    }
  }

  lemma {:induction false} PrefixAdd(k: nat, l: nat, m: nat)
    ensures Prefix(k, l + m) == Prefix(Prefix(k, l), m)
  {
    if m > 0 {
      PrefixAdd(k, l, m - 1);
      assert l + m - 1 == l + (m - 1);
    }
  }

  /** Keys that agree on a longer prefix agree on every shorter one. */
  lemma {:induction false} PrefixAgree(a: nat, b: nat, l: nat, m: nat)
    requires l <= m && Prefix(a, l) == Prefix(b, l)
    ensures Prefix(a, m) == Prefix(b, m)
  {
    PrefixAdd(a, l, m - l);
    PrefixAdd(b, l, m - l);
  }

  lemma {:induction false} PrefixInside(k: nat, l: nat)
    ensures Prefix(k, l + 1) == Prefix(k / 64, l)
  {
    if l > 0 {
      PrefixInside(k, l - 1);
    }
  }

  /** A key fits in height h exactly when it has at most h digits. */
  lemma {:induction false} NeededHeightLeast(k: nat, h: nat)
    ensures Prefix(k, h) == 0 <==> NeededHeight(k) <= h
  {
    if h == 0 || k == 0 {
      if k == 0 { PrefixMonotone(0, 0, h); }
    } else {
      NeededHeightLeast(k / 64, h - 1);
      PrefixInside(k, h - 1);
    }
  }

  lemma {:induction false} FirstKeyScale(p: nat, l: nat)
    ensures FirstKey(p, l) == p * Pow2(6 * l)
    decreases l
  {
    if l > 0 {
      FirstKeyScale(64 * p, l - 1);
      Pow2Add(6 * (l - 1), 6);
      assert Pow2(6) == 64;
      assert 6 * l == 6 * (l - 1) + 6;
      assert 64 * p * Pow2(6 * (l - 1)) == p * (Pow2(6 * (l - 1)) * 64);
    }
  }

  lemma {:induction false} ShrIsPrefix(k: nat, l: nat)
    ensures Shr(k, 6 * l) == Prefix(k, l)
  {
    if l > 0 {
      ShrIsPrefix(k, l - 1);
      ShrAdd(k, 6 * (l - 1), 6);
      ShrSix(Shr(k, 6 * (l - 1)));
    }
  }

  lemma ShrSix(x: nat)
    ensures Shr(x, 6) == x / 64
  {
    assert Shr(x, 1) == x / 2;
    assert Shr(x, 2) == x / 4;
    assert Shr(x, 3) == x / 8;
    assert Shr(x, 4) == x / 16;
    assert Shr(x, 5) == x / 32;
  }

  /** `(index >> shift) & RADIX_TREE_MAP_MASK`. */
  function SlotIndex(index: Key, shift: nat): (r: nat)
    requires shift < 64
  {
    And(Shr(index, shift), MAP_MASK)
  }

  /** Shift and mask select one base-64 digit. */
  lemma {:induction false} SlotIndexIsDigit(index: Key, l: nat)
    requires 6 * l < 64
    ensures SlotIndex(index, 6 * l) == Prefix(index, l) % 64
    ensures Prefix(index, l) == 64 * Prefix(index, l + 1) + SlotIndex(index, 6 * l)
    ensures SlotIndex(index, 6 * l) < 64
  {
    ShrIsPrefix(index, l);
    MaskDigit(Prefix(index, l));
  }

  /** `index &= ~((1 << shift) - 1); index += 1 << shift` before the final
      truncation to a word: the int mask is sign-extended, then the low bits of
      the index are cleared and one block is added. */
  function AdvanceWide(index: Key, shift: nat): nat
    requires shift <= 30
  {
    And(index, ToWord(NotInt(Pow2(shift) - 1))) + Pow2(shift)
  }

  /** The scan's stride moves exactly to the first key of the next block. */
  lemma AdvanceIsNextBlock(index: Key, l: nat)
    requires 6 * l <= 30
    ensures AdvanceWide(index, 6 * l) == FirstKey(Prefix(index, l) + 1, l)
  {
    var s := 6 * l;
    ClearLowBits(index, s);
    ShrIsPrefix(index, l);
    FirstKeyScale(Prefix(index, l) + 1, l);
    Distribute(Prefix(index, l), Pow2(s));
  }

  lemma Distribute(a: nat, b: nat)
    ensures (a + 1) * b == a * b + b
  {
  }

  /** The sign-extended int mask `~((1 << s) - 1)` clears the low s bits. */
  lemma ClearLowBits(index: Key, s: nat)
    requires s <= 30
    ensures And(index, ToWord(NotInt(Pow2(s) - 1))) == Shr(index, s) * Pow2(s)
  {
    hide And, Shr, Pow2, ToWord;
    Pow2Word();
    MaskHigh(index, 64, s);
    NegativeWord(Pow2(s));
  }

  /** Prefixes of 64-bit keys vanish from level 11 on; FirstKey(16, 10) is 2^64. */
  lemma TopLevel()
    ensures FirstKey(16, 10) == WORD
    ensures FirstKey(1, 11) > WORD
    ensures FirstKey(1, 10) < WORD
  {
    assert FirstKey(16, 2) == 0x10000;
    FirstKeyScale(16, 10);
    FirstKeyScale(1, 11);
    FirstKeyScale(1, 10);
    Pow2Word();
    Pow2Add(60, 4);
    Pow2Add(64, 2);
    assert Pow2(4) == 16 && Pow2(2) == 4;
  }
}

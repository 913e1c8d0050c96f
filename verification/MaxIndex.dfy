/** The table `height_to_maxindex`: the greatest key each tree height can hold. */
module MaxIndex {
  import opened Words
  import opened Digits

  /** RADIX_TREE_MAX_PATH: 64 / 6 + 2. */
  const MAX_PATH: int := 12

  /** `__maxindex`.  The source computes the shifted value before testing
      `tmp >= 64`; when the test succeeds that value is overwritten, so the test
      comes first here and every shift is below 64. */
  function MaxIndexOf(height: nat): (r: Key)
    requires height < MAX_PATH
  {
    var tmp := height * MAP_SHIFT;
    if tmp >= 64 then WORD - 1 else Shr(Shr(WORD - 1, 64 - tmp - 1), 1)
  }

  lemma {:induction false} ShrOnes(t: nat, d: nat)
    ensures Shr(Pow2(t + d) - 1, d) == Pow2(t) - 1
  {
    if d > 0 {
      ShrInside(Pow2(t + d) - 1, d - 1);
      assert t + d - 1 == t + (d - 1);
      assert (Pow2(t + d) - 1) / 2 == Pow2(t + (d - 1)) - 1;
      ShrOnes(t, d - 1);
    }
  }

  /** The table in closed form: 64^h - 1 up to height 10, all ones at height 11.  The shift
      amount `64 - 6 * h - 1` is one a 64-bit word can take exactly where its result is kept. */
  lemma MaxIndexClosed(height: nat)
    requires height < MAX_PATH
    ensures 0 <= 64 - height * MAP_SHIFT - 1 < 64 <==> height <= 10
    ensures MaxIndexOf(height) == if height <= 10 then FirstKey(1, height) - 1 else WORD - 1
  {
    if height <= 10 {
      var tmp := height * MAP_SHIFT;
      ShrAdd(WORD - 1, 63 - tmp, 1);
      Pow2Word();
      ShrOnes(tmp, 64 - tmp);
      FirstKeyScale(1, height);
    }
  }

  /** The comparison the source makes, `index > maxindex(height)`, asks whether
      the key has more than `height` digits. */
  lemma FitsIsPrefixZero(index: Key, height: nat)
    requires height < MAX_PATH
    ensures index <= MaxIndexOf(height) <==> Prefix(index, height) == 0
    ensures index <= MaxIndexOf(height) <==> NeededHeight(index) <= height
  {
    MaxIndexClosed(height);
    NeededHeightLeast(index, height);
    PrefixGalois(index, 1, height);
    TopLevel();
  }

  /** No 64-bit key needs more than 11 levels, so the height search stops inside
      the 12-entry table. */
  lemma NeededHeightBound(index: Key)
    ensures NeededHeight(index) <= 11
  {
    FitsIsPrefixZero(index, 11);
  }

  lemma MaxIndexStrictlyIncreasing(g: nat, h: nat)
    requires g < h < MAX_PATH
    ensures MaxIndexOf(g) < MaxIndexOf(h)
  {
    MaxIndexClosed(g);
    MaxIndexClosed(h);
    TopLevel();
    FirstKeyGrows(g, h);
    if g < 10 {
      FirstKeyGrows(g, 10);
    }
  }

  lemma {:induction false} FirstKeyGrows(g: nat, h: nat)
    requires g < h
    ensures FirstKey(1, g) < FirstKey(1, h)
    decreases h
  {
    FirstKeyStrict(1, 64, h - 1);
    if g < h - 1 {
      FirstKeyGrows(g, h - 1);
    }
  }

  /** A complete table. */
  ghost predicate TableReady(table: seq<Key>) {
    |table| == MAX_PATH && forall h :: 0 <= h < MAX_PATH ==> table[h] == MaxIndexOf(h)
  }

  /** `radix_tree_init_maxindex`. */
  method InitMaxIndex(table: array<Key>)
    requires table.Length == MAX_PATH
    modifies table
    ensures TableReady(table[..])
  {
    var i := 0;
    while i < table.Length
      invariant i <= MAX_PATH
      invariant forall h :: 0 <= h < i ==> table[h] == MaxIndexOf(h)
    {
      table[i] := MaxIndexOf(i);
      i := i + 1;
    }
  }
}

/** The reference answer of a range scan: the stored keys of an interval, in
    ascending order. */
module KeyRange {
  import opened Words
  import opened Digits
  import opened RadixLayout

  /** The stored keys in [lo, hi), ascending. */
  ghost function Range(items: map<Key, Item>, lo: nat, hi: nat): seq<Key>
    decreases hi
  {
    if lo >= hi then []
    else Range(items, lo, hi - 1) + if hi - 1 in items then [hi - 1] else []
  }

  lemma {:induction false} RangeSplit(items: map<Key, Item>, lo: nat, mid: nat, hi: nat)
    requires lo <= mid <= hi
    ensures Range(items, lo, hi) == Range(items, lo, mid) + Range(items, mid, hi)
    decreases hi
  {
    if mid < hi {
      RangeSplit(items, lo, mid, hi - 1);
    }
  }

  lemma {:induction false} RangeEmpty(items: map<Key, Item>, lo: nat, hi: nat)
    requires forall k :: k in items ==> !(lo <= k < hi)
    ensures Range(items, lo, hi) == []
    decreases hi
  {
    if lo < hi {
      RangeEmpty(items, lo, hi - 1);
    }
  }

  /** Range lists exactly the stored keys of the interval. */
  lemma {:induction false} RangeMembers(items: map<Key, Item>, lo: nat, hi: nat, k: Key)
    ensures k in Range(items, lo, hi) <==> k in items && lo <= k < hi
    decreases hi
  {
    if lo < hi {
      RangeMembers(items, lo, hi - 1, k);
    }
  }

  ghost predicate Ascending(r: seq<Key>) {
    forall i, j :: 0 <= i < j < |r| ==> r[i] < r[j]
  }

  lemma AscendingPush(r: seq<Key>, k: Key)
    requires Ascending(r) && forall i :: 0 <= i < |r| ==> r[i] < k
    ensures Ascending(r + [k])
  {
  }

  /** Range is strictly ascending, so it lists every key once. */
  lemma {:induction false} RangeAscending(items: map<Key, Item>, lo: nat, hi: nat)
    ensures Ascending(Range(items, lo, hi))
    decreases hi
  {
    if lo < hi {
      var r := Range(items, lo, hi - 1);
      RangeAscending(items, lo, hi - 1);
      forall i | 0 <= i < |r|
        ensures r[i] < hi - 1
      {
        assert r[i] in r;
        RangeMembers(items, lo, hi - 1, r[i]);
      }
      if hi - 1 in items {
        AscendingPush(r, hi - 1);
      } else {
        assert r + [] == r;
      }
    }
  }

  lemma {:induction false} FirstKeyCompose(p: nat, a: nat, b: nat)
    ensures FirstKey(FirstKey(p, a), b) == FirstKey(p, a + b)
    decreases a
  {
    if a > 0 {
      FirstKeyCompose(64 * p, a - 1, b);
      assert a + b - 1 == a - 1 + b;
    }
  }

  /** Blocks tile the 64-bit keys: the block after a key's own starts at most at 2^64. */
  lemma NextBlockBound(k: Key, l: nat)
    requires l <= 10
    ensures k < FirstKey(Prefix(k, l) + 1, l) <= WORD
  {
    hide FirstKey, Prefix;
    var q := FirstKey(16, 10 - l);
    FirstKeyCompose(16, 10 - l, l);
    TopLevel();
    PrefixGalois(k, q, l);
    PrefixGalois(k, Prefix(k, l) + 1, l);
    if Prefix(k, l) + 1 < q {
      FirstKeyStrict(Prefix(k, l) + 1, q, l);
    }
  }

  /** A NULL cell means its whole block of keys is missing. */
  lemma EmptyBlock(layout: Layout, l: nat, q: nat, k: Key)
    requires Linked(layout) && l <= layout.height && SlotFor(layout, l, q) == Empty && k in layout.items
    ensures Prefix(k, l) != q
  {
    if l > 0 {
      PathLive(layout, k, l);
    }
  }

  lemma EmptyBlockRange(layout: Layout, l: nat, q: nat, lo: nat)
    requires Linked(layout) && l <= layout.height && SlotFor(layout, l, q) == Empty && FirstKey(q, l) <= lo
    ensures Range(layout.items, lo, FirstKey(q + 1, l)) == []
  {
    hide Linked, SlotFor;
    forall k | k in layout.items
      ensures !(lo <= k < FirstKey(q + 1, l))
    {
      EmptyBlock(layout, l, q, k);
      PrefixInterval(k, q, l);
    }
    RangeEmpty(layout.items, lo, FirstKey(q + 1, l));
  }
}

/** The ordered range scan: `__lookup` and `radix_tree_gang_lookup`. */
module Scan {
  import opened Words
  import opened Digits
  import opened MaxIndex
  import opened RadixLayout
  import opened RadixTree
  import opened KeyRange

  /** A next_index of 0 means that the scan ran past the last key. */
  ghost function Stop(next: Key): nat {
    if next == 0 then WORD else next
  }

  /** res[base..] starts with the items stored under ks. */
  ghost predicate Collected(res: seq<int>, base: nat, items: map<Key, Item>, ks: seq<Key>) {
    && base + |ks| <= |res|
    && forall t :: 0 <= t < |ks| ==> ks[t] in items && res[base + t] == items[ks[t]]
  }

  /** Nothing outside res[base..base+n] was written. */
  ghost predicate SameOutside(res: seq<int>, was: seq<int>, base: nat, n: nat) {
    |res| == |was| && forall t :: 0 <= t < |res| && !(base <= t < base + n) ==> res[t] == was[t]
  }

  /** node is the one on index's path at level h. */
  ghost predicate OnNode(root: Tree, node: Node, h: nat, index: Key)
    reads root
  {
    && 1 <= h <= root.height <= 11
    && Pos(h, Prefix(index, h)) in root.at && root.at[Pos(h, Prefix(index, h))] == node
  }

  lemma ReadCell(root: Tree, node: Node, h: nat, p: nat, i: nat)
    requires root.Sync() && Linked(root.State()) && i < 64 && h > 0
    requires Pos(h, p) in root.at && root.at[Pos(h, p)] == node
    ensures node.slots.Length == 64 && node.slots[i] == SlotFor(root.State(), h - 1, 64 * p + i)
  {
    assert Down(p, i) == 64 * p + i;
  }

  /** One step over a NULL cell: the whole block has no keys. */
  lemma SkipBlock(root: Tree, h: nat, q: nat, start: nat, index: Key)
    requires Linked(root.State()) && 1 <= h <= root.height <= 11 && 6 * (h - 1) <= 30
    requires SlotFor(root.State(), h - 1, q) == Empty
    requires Prefix(index, h - 1) == q
    requires start <= index && Range(root.items, start, index) == []
    ensures var wide := AdvanceWide(index, 6 * (h - 1));
      && wide == FirstKey(q + 1, h - 1) && Prefix(wide, h - 1) == q + 1
      && index < wide <= WORD && Range(root.items, start, wide) == []
  {
    hide Linked, Prefix, FirstKey, AdvanceWide, SlotFor;
    AdvanceIsNextBlock(index, h - 1);
    NextBlockBound(index, h - 1);
    PrefixOfFirst(q + 1, h - 1);
    PrefixGalois(index, q, h - 1);
    EmptyBlockRange(root.State(), h - 1, q, index);
    RangeSplit(root.items, start, index, FirstKey(q + 1, h - 1));
  }

  /** The digit at level h - 1 extends the prefix at level h. */
  lemma DigitExtends(k: Key, h: nat)
    requires 1 <= h <= 11
    ensures Prefix(k, h - 1) == 64 * Prefix(k, h) + SlotIndex(k, 6 * (h - 1)) && SlotIndex(k, 6 * (h - 1)) < 64
  {
    SlotIndexIsDigit(k, h - 1);
  }

  lemma SameNode(k: Key, h: nat, p: nat, i: nat)
    requires h >= 1 && i < 64 && Prefix(k, h - 1) == 64 * p + i
    ensures Prefix(k, h) == p
  {
  }

  /** Lines 219-233 of `__lookup`: step over NULL cells of one node.  `defined`
      is false when `1 << shift` is evaluated with a shift an int cannot take. */
  method SkipEmpty(root: Tree, node: Node, h: nat, shift: nat, from: Key, ghost start: nat)
    returns (defined: bool, out: bool, i: nat, index: Key)
    requires root.Valid() && OnNode(root, node, h, from) && shift == 6 * (h - 1)
    requires start <= from && Range(root.items, start, from) == []
    ensures defined || out ==> h <= 6 || (index == from && !out)
    ensures !defined ==> h >= 7 && SlotFor(root.State(), h - 1, Prefix(from, h - 1)) == Empty
    ensures defined && !out ==>
      && i < 64 && from <= index && Range(root.items, start, index) == []
      && Prefix(index, h) == Prefix(from, h) && Prefix(index, h - 1) == 64 * Prefix(from, h) + i
      && SlotFor(root.State(), h - 1, Prefix(index, h - 1)) != Empty
    ensures defined && out ==>
      && from < Stop(index) <= FirstKey(Prefix(from, h) + 1, h)
      && Range(root.items, start, Stop(index)) == []
  {
    hide Linked, Counted, Tight, Tree.Mirrored, Tree.Conserved, TableReady;
    hide Prefix, FirstKey, AdvanceWide, SlotFor, Range, SlotIndex, ToWord;
    ghost var p := Prefix(from, h);
    DigitExtends(from, h);
    defined, out := true, false;
    index := from;
    i := SlotIndex(index, shift);
    while i < MAP_SIZE
      invariant i <= 64 && from <= index
      invariant Prefix(index, h - 1) == 64 * p + i
      invariant index == from || (h <= 6 && index == FirstKey(64 * p + i, h - 1))
      invariant Range(root.items, start, index) == []
      invariant i == 64 ==> index != from
    {
      ReadCell(root, node, h, p, i);
      if node.slots[i] != Empty {
        break;
      }
      if shift > 30 {
        defined := false;
        return;
      }
      SkipBlock(root, h, 64 * p + i, start, index);
      var wide := AdvanceWide(index, shift);
      NextInNode(p, i, h);
      WrapWord(wide);
      index := ToWord(wide);
      if index == 0 {
        out := true;
        return;
      }
      i := i + 1;
    }
    if i == MAP_SIZE {
      out := true;
      NextInNode(p, 63, h);
    } else {
      SameNode(index, h, p, i);
    }
  }

  /** Within one node the blocks end where the node's own block ends. */
  lemma NextInNode(p: nat, i: nat, h: nat)
    requires h >= 1 && i < 64
    ensures FirstKey(64 * p + i + 1, h - 1) <= FirstKey(p + 1, h)
    ensures i == 63 ==> FirstKey(64 * p + i + 1, h - 1) == FirstKey(p + 1, h)
  {
    if i < 63 {
      FirstKeyStrict(64 * p + i + 1, 64 * (p + 1), h - 1);
    }
  }

  /** One more item collected. */
  lemma CollectOne(res: seq<int>, was: seq<int>, base: nat, items: map<Key, Item>, ks: seq<Key>, k: Key)
    requires Collected(res, base, items, ks) && SameOutside(res, was, base, |ks|)
    requires base + |ks| < |res| && k in items
    ensures var now := res[base + |ks| := items[k]];
      Collected(now, base, items, ks + [k]) && SameOutside(now, was, base, |ks| + 1)
  {
  }

  /** The cell of one key, and what it adds to the range. */
  lemma BottomCell(root: Tree, node: Node, p: nat, j: nat, start: nat)
    requires root.Sync() && Linked(root.State()) && j < 64
    requires Pos(1, p) in root.at && root.at[Pos(1, p)] == node && start <= 64 * p + j
    ensures node.slots.Length == 64
    ensures var k := 64 * p + j;
      if k in root.items then node.slots[j] == Stored(root.items[k]) else node.slots[j] == Empty
    ensures var k := 64 * p + j;
      Range(root.items, start, k + 1) == Range(root.items, start, k) + if k in root.items then [k] else []
  {
    ReadCell(root, node, 1, p, j);
  }

  /** The last digit. */
  lemma LastDigit(k: Key)
    ensures k == 64 * Prefix(k, 1) + And(k, MAP_MASK) && And(k, MAP_MASK) < 64
    ensures FirstKey(Prefix(k, 1) + 1, 1) == 64 * Prefix(k, 1) + 64 <= WORD
  {
    MaskDigit(k);
    NextBlockBound(k, 1);
    assert Prefix(k, 1) == Prefix(k, 0) / 64;
    assert FirstKey(Prefix(k, 1) + 1, 1) == FirstKey(64 * (Prefix(k, 1) + 1), 0);
  }

  /** Lines 236-246 of `__lookup`: collect from a bottom node. */
  method GrabItems(root: Tree, node: Node, from: Key, results: array<int>, base: nat, maxItems: nat, ghost start: nat)
    returns (found: nat, index: Key)
    requires root.Valid() && OnNode(root, node, 1, from) && results as object !in root.repr + {root.maxindex}
    requires start <= from && Range(root.items, start, from) == []
    requires 0 < maxItems && base + maxItems <= results.Length
    modifies results
    ensures from < Stop(index) <= FirstKey(Prefix(from, 1) + 1, 1)
    ensures found == |Range(root.items, start, Stop(index))| <= maxItems
    ensures found == maxItems || Stop(index) == FirstKey(Prefix(from, 1) + 1, 1)
    ensures Collected(results[..], base, root.items, Range(root.items, start, Stop(index)))
    ensures SameOutside(results[..], old(results[..]), base, found)
  {
    hide Linked, Counted, Tight, Tree.Mirrored, Tree.Conserved, TableReady;
    hide Prefix, FirstKey, And, Range, ToWord, Collected, SameOutside;
    ghost var p := Prefix(from, 1);
    LastDigit(from);
    var j := And(from, MAP_MASK);
    index := from;
    found := 0;
    CollectNone(results[..], base, root.items);
    while j < MAP_SIZE
      invariant 0 <= j <= 64 && from <= 64 * p + j <= WORD && (j == 64 ==> from < 64 * p + j)
      invariant index == if 64 * p + j == WORD then 0 else 64 * p + j
      invariant found == |Range(root.items, start, 64 * p + j)| < maxItems
      invariant Collected(results[..], base, root.items, Range(root.items, start, 64 * p + j))
      invariant SameOutside(results[..], old(results[..]), base, found)
      invariant root.Valid()
    {
      WrapWord(64 * p + j + 1);
      index := ToWord(index + 1);
      BottomCell(root, node, p, j, start);
      if node.slots[j] != Empty {
        ghost var was := results[..];
        CollectOne(was, old(results[..]), base, root.items, Range(root.items, start, 64 * p + j), 64 * p + j);
        Within(was, old(results[..]), base, found);
        results[base + found] := node.slots[j].item;
        assert results[..] == was[base + found := node.slots[j].item];
        found := found + 1;
        if found == maxItems {
          return;
        }
      } else {
        assert Range(root.items, start, 64 * p + j + 1) == Range(root.items, start, 64 * p + j);
      }
      assert 64 * p + (j + 1) == 64 * p + j + 1;
      j := j + 1;
    }
  }

  lemma CollectNone(res: seq<int>, base: nat, items: map<Key, Item>)
    requires base <= |res|
    ensures Collected(res, base, items, []) && SameOutside(res, res, base, 0)
  {
  }

  lemma Within(res: seq<int>, was: seq<int>, base: nat, n: nat)
    requires SameOutside(res, was, base, n)
    ensures |res| == |was|
  {
  }

  /** `__lookup` from start never evaluates `1 << shift` with a shift above 30:
      the tree is at most 6 high, or start shares its upper 28 bits with a key. */
  ghost predicate ScanDefined(height: nat, items: map<Key, Item>, start: Key) {
    height <= 6 || Occupied(items, Pos(6, Prefix(start, 6)))
  }

  ghost function Top(height: nat): nat {
    if height <= 6 then height else 6
  }

  /** The end of the block that a scan from start cannot leave. */
  ghost function BlockEnd(height: nat, start: Key): nat {
    FirstKey(Prefix(start, Top(height)) + 1, Top(height))
  }

  /** The whole outcome of a scan step that ends at next. */
  ghost predicate Scanned(height: nat, items: map<Key, Item>, start: Key, next: Key,
                          res: seq<int>, was: seq<int>, base: nat, found: nat) {
    && start < Stop(next) <= BlockEnd(height, start)
    && found == |Range(items, start, Stop(next))|
    && Collected(res, base, items, Range(items, start, Stop(next)))
    && SameOutside(res, was, base, found)
  }

  lemma NestedBlocks(k: Key, h: nat, m: nat)
    requires h <= m
    ensures FirstKey(Prefix(k, h) + 1, h) <= FirstKey(Prefix(k, m) + 1, m)
    decreases m
  {
    if h < m {
      NestedBlocks(k, h, m - 1);
      var q := Prefix(k, m - 1);
      if q + 1 < 64 * (q / 64 + 1) {
        FirstKeyStrict(q + 1, 64 * (q / 64 + 1), m - 1);
      }
    }
  }

  /** A NULL cell at level 6 or above: no key shares start's upper 28 bits. */
  lemma NotDefined(root: Tree, start: Key, l: nat)
    requires Linked(root.State()) && 6 <= l < root.height
    requires SlotFor(root.State(), l, Prefix(start, l)) == Empty
    ensures !ScanDefined(root.height, root.items, start)
  {
    hide Linked, SlotFor, Prefix;
    forall k | k in root.items
      ensures Prefix(k, 6) != Prefix(start, 6)
    {
      EmptyBlock(root.State(), l, Prefix(start, l), k);
      if Prefix(k, 6) == Prefix(start, 6) {
        PrefixAgree(k, start, 6, l);
      }
    }
  }

  /** Where the descent of a scan stands: at next, in the level-h node on next's path. */
  ghost predicate Descending(root: Tree, slot: Slot, h: nat, start: Key, next: Key)
    reads root
  {
    && slot.Child? && OnNode(root, slot.node, h, next)
    && start <= next && Range(root.items, start, next) == []
    && (h >= 6 ==> next == start)
    && (h < 6 ==> Prefix(start, Top(root.height)) == Prefix(next, Top(root.height)))
    && (h <= 6 ==> root.height <= 6 || Pos(6, Prefix(start, 6)) in root.at)
  }

  lemma StartScan(root: Tree, start: Key)
    requires root.Valid() && root.height > 0 && root.rnode != Empty && start <= root.maxindex[root.height]
    ensures Descending(root, root.rnode, root.height, start, start)
  {
    hide Counted, Tight, Prefix;
    FitsIsPrefixZero(start, root.height);
    RangeEmpty(root.items, start, start);
  }

  /** Having skipped to next inside its node, the scan enters the child there. */
  lemma EnterChild(root: Tree, node: Node, h: nat, start: Key, from: Key, next: Key, i: nat)
    requires root.Valid() && h >= 2 && Descending(root, Child(node), h, start, from)
    requires from <= next && Range(root.items, start, next) == [] && (h > 6 ==> next == from)
    requires i < 64 && Prefix(next, h) == Prefix(from, h) && Prefix(next, h - 1) == 64 * Prefix(from, h) + i
    requires SlotFor(root.State(), h - 1, Prefix(next, h - 1)) != Empty
    ensures node.slots.Length == 64 && Descending(root, node.slots[i], h - 1, start, next)
  {
    hide Counted, Tight, Tree.Mirrored, Range, Prefix, FirstKey;
    ReadCell(root, node, h, Prefix(from, h), i);
    if h <= 6 {
      PrefixAgree(next, from, h, Top(root.height));
    }
  }

  /** The scan ends inside start's block. */
  lemma StopsInBlock(root: Tree, slot: Slot, h: nat, start: Key, next: Key, stop: nat)
    requires h <= 6 && Descending(root, slot, h, start, next)
    requires stop <= FirstKey(Prefix(next, h) + 1, h)
    ensures stop <= BlockEnd(root.height, start)
  {
    hide Prefix, FirstKey, Range;
    NestedBlocks(next, h, Top(root.height));
  }

  /** A scan that got down to level 6 was defined throughout. */
  lemma GotDefined(root: Tree, slot: Slot, h: nat, start: Key, next: Key)
    requires root.Valid() && h <= 6 && Descending(root, slot, h, start, next)
    ensures ScanDefined(root.height, root.items, start)
  {
    hide Linked, Counted, Tight, Range, Prefix;
    if root.height > 6 {
      NodesExact(root.State(), Pos(6, Prefix(start, 6)));
    }
  }

  /** `__lookup`. */
  method LookupFrom(root: Tree, results: array<int>, base: nat, start: Key, maxItems: nat)
    returns (defined: bool, found: nat, next: Key)
    requires root.Valid() && root.height > 0 && root.rnode != Empty && start <= root.maxindex[root.height]
    requires results as object !in root.repr + {root.maxindex}
    requires 0 < maxItems && base + maxItems <= results.Length
    modifies results
    ensures defined <==> ScanDefined(root.height, root.items, start)
    ensures defined ==> found <= maxItems
    ensures defined ==> Scanned(root.height, root.items, start, next, results[..], old(results[..]), base, found)
    ensures !defined ==> results[..] == old(results[..])
  {
    hide Linked, Counted, Tight, Tree.Mirrored, Tree.Conserved, TableReady, SlotFor;
    hide Prefix, FirstKey, Range, Collected, SameOutside, ScanDefined, BlockEnd;
    var h := root.height;
    var shift := ToUint((h - 1) * MAP_SHIFT);
    var slot := root.rnode;
    next := start;
    found := 0;
    defined := true;
    StartScan(root, start);
    while true
      invariant 1 <= h <= root.height && shift == 6 * (h - 1)
      invariant Descending(root, slot, h, start, next)
      invariant root.Valid() && found == 0 && defined && results[..] == old(results[..])
      decreases h
    {
      var node := slot.node;
      var ok, out, i, index := SkipEmpty(root, node, h, shift, next, start);
      if !ok {
        NotDefined(root, start, h - 1);
        defined := false;
        return;
      }
      if out {
        GotDefined(root, slot, h, start, next);
        StopsInBlock(root, slot, h, start, next, Stop(index));
        next := index;
        NothingFound(root.items, start, next, results[..], base);
        return;
      }
      if h == 1 {
        GotDefined(root, slot, h, start, next);
        assert OnNode(root, node, 1, index);
        ghost var from := index;
        found, index := GrabItems(root, node, index, results, base, maxItems, start);
        StopsInBlock(root, slot, h, start, next, Stop(index));
        next := index;
        return;
      }
      EnterChild(root, node, h, start, next, index, i);
      next := index;
      h := h - 1;
      shift := ToUint(shift - MAP_SHIFT);
      slot := node.slots[i];
    }
  }

  lemma NothingFound(items: map<Key, Item>, start: Key, next: Key, res: seq<int>, base: nat)
    requires base <= |res| && Range(items, start, Stop(next)) == []
    ensures Collected(res, base, items, Range(items, start, Stop(next))) && SameOutside(res, res, base, 0)
  {
  }

  // ---------------------------------------------------------- gang lookup

  /** Every 2^36-key block that [first, cur) touches contains a stored key. */
  ghost predicate BlocksHit(items: map<Key, Item>, first: nat, cur: nat) {
    first < cur ==>
      forall b: nat :: Prefix(first, 6) <= b && FirstKey(b, 6) < cur ==> Occupied(items, Pos(6, b))
  }

  /** The scan never evaluates an undefined shift exactly when the tree is at most
      6 high, nothing is asked for, the start is beyond the last index, or every
      block from the start to the last item delivered (to the last index, if the
      items run out) contains a key. */
  ghost predicate GangDefined(height: nat, items: map<Key, Item>, first: Key, maxItems: nat)
    requires height <= 11
  {
    || height <= 6 || maxItems == 0 || first > MaxIndexOf(height)
    || BlocksHit(items, first, LastVisited(height, items, first, maxItems) + 1)
  }

  ghost function LastVisited(height: nat, items: map<Key, Item>, first: Key, maxItems: nat): nat
    requires height <= 11 && maxItems > 0
  {
    var all := Range(items, first, WORD);
    if maxItems <= |all| then all[maxItems - 1] else MaxIndexOf(height)
  }

  /** One defined scan step extends the blocks hit. */
  lemma BlocksStep(items: map<Key, Item>, first: nat, cur: Key, stop: nat)
    requires first <= cur && BlocksHit(items, first, cur)
    requires Occupied(items, Pos(6, Prefix(cur, 6))) && stop <= FirstKey(Prefix(cur, 6) + 1, 6)
    ensures BlocksHit(items, first, stop)
  {
    hide Occupied, Prefix, FirstKey;
    forall b: nat | Prefix(first, 6) <= b && FirstKey(b, 6) < stop
      ensures Occupied(items, Pos(6, b))
    {
      var c := Prefix(cur, 6);
      PrefixGalois(cur, b, 6);
      if b > c + 1 {
        FirstKeyStrict(c + 1, b, 6);
      }
      if b < c {
        PrefixGalois(cur, b + 1, 6);
        FirstKeyStrict(b, b + 1, 6);
      }
    }
  }

  /** Fewer blocks are touched by a shorter interval. */
  lemma BlocksShrink(items: map<Key, Item>, first: nat, cur: nat, less: nat)
    requires BlocksHit(items, first, cur) && less <= cur
    ensures BlocksHit(items, first, less)
  {
  }

  /** A scan that has delivered Range(first, cur) and stopped was defined. */
  lemma StoppedDefined(layout: Layout, first: Key, cur: nat, maxItems: nat)
    requires layout.height <= 11 && first <= cur <= WORD
    requires layout.height <= 6 || BlocksHit(layout.items, first, cur)
    requires forall k :: k in layout.items ==> k <= MaxIndexOf(layout.height)
    requires |Range(layout.items, first, cur)| <= maxItems
    requires |Range(layout.items, first, cur)| == maxItems || cur > MaxIndexOf(layout.height)
    ensures GangDefined(layout.height, layout.items, first, maxItems)
  {
    hide Range, MaxIndexOf;
    if layout.height > 6 && maxItems > 0 && first <= MaxIndexOf(layout.height) {
      RangeSplit(layout.items, first, cur, WORD);
      var part := Range(layout.items, first, cur);
      if |part| == maxItems {
        assert part[maxItems - 1] in part;
        RangeMembers(layout.items, first, cur, part[maxItems - 1]);
      } else {
        RangeEmpty(layout.items, cur, WORD);
      }
      BlocksShrink(layout.items, first, cur, LastVisited(layout.height, layout.items, first, maxItems) + 1);
    }
  }

  /** An undefined step makes the whole scan undefined. */
  lemma StuckUndefined(layout: Layout, first: Key, cur: Key, maxItems: nat)
    requires layout.height <= 11 && first <= cur <= MaxIndexOf(layout.height)
    requires |Range(layout.items, first, cur)| < maxItems
    requires !ScanDefined(layout.height, layout.items, cur)
    ensures !GangDefined(layout.height, layout.items, first, maxItems)
  {
    hide Range, MaxIndexOf, Prefix, FirstKey;
    var last := LastVisited(layout.height, layout.items, first, maxItems);
    RangeSplit(layout.items, first, cur, WORD);
    var part, rest := Range(layout.items, first, cur), Range(layout.items, cur, WORD);
    if maxItems <= |part + rest| {
      assert rest[maxItems - 1 - |part|] in rest;
      RangeMembers(layout.items, cur, WORD, rest[maxItems - 1 - |part|]);
    }
    PrefixMonotone(first, cur, 6);
    PrefixGalois(cur, Prefix(cur, 6), 6);
  }

  /** What has been delivered so far is the start of the full answer. */
  lemma Delivered(items: map<Key, Item>, first: Key, cur: nat, maxItems: nat)
    requires first <= cur <= WORD && |Range(items, first, cur)| <= maxItems
    requires |Range(items, first, cur)| == maxItems || forall k :: k in items ==> k < cur
    ensures var all := Range(items, first, WORD);
      && |Range(items, first, cur)| == (if maxItems <= |all| then maxItems else |all|)
      && all[..|Range(items, first, cur)|] == Range(items, first, cur)
  {
    hide Range;
    RangeSplit(items, first, cur, WORD);
    if |Range(items, first, cur)| != maxItems {
      RangeEmpty(items, cur, WORD);
    }
  }

  /** Two consecutive portions of the answer, delivered one after the other. */
  lemma DeliverMore(items: map<Key, Item>, first: nat, cur: nat, stop: nat, was: seq<int>, mid: seq<int>, now: seq<int>)
    requires first <= cur <= stop
    requires var n := |Range(items, first, cur)|;
      && Collected(mid, 0, items, Range(items, first, cur)) && SameOutside(mid, was, 0, n)
      && Collected(now, n, items, Range(items, cur, stop)) && SameOutside(now, mid, n, |Range(items, cur, stop)|)
    ensures Collected(now, 0, items, Range(items, first, stop))
    ensures SameOutside(now, was, 0, |Range(items, first, stop)|)
    ensures |Range(items, first, stop)| == |Range(items, first, cur)| + |Range(items, cur, stop)|
  {
    hide Range;
    RangeSplit(items, first, cur, stop);
  }

  /** The tree of height 0 holds at most key 0, in the root cell. */
  lemma HeightZero(root: Tree, first: Key)
    requires root.Valid() && root.height == 0
    ensures var all := Range(root.items, first, WORD);
      if root.rnode != Empty && first == 0
      then 0 in root.items && all == [0] && root.rnode == Stored(root.items[0])
      else all == []
  {
    hide Range, Tree.Mirrored, Counted, Tight;
    forall k | k in root.items
      ensures k == 0
    {
    }
    if 0 in root.items && first == 0 {
      RangeSplit(root.items, 0, 1, WORD);
      RangeEmpty(root.items, 1, WORD);
      RangeEmpty(root.items, 0, 0);
      OneKey(root.items, 0);
    } else {
      RangeEmpty(root.items, first, WORD);
    }
  }

  lemma OneKey(items: map<Key, Item>, k: Key)
    requires k in items
    ensures Range(items, k, k + 1) == [k]
  {
  }

  lemma KeysBelow(root: Tree)
    requires root.Valid()
    ensures forall k :: k in root.items ==> k <= MaxIndexOf(root.height)
  {
    hide Tree.Mirrored, Linked, Counted, Tight, MaxIndexOf;
    forall k | k in root.items
      ensures k <= MaxIndexOf(root.height)
    {
      if root.maxindex[root.height] < k {
        root.TooLarge(k);
      }
    }
  }

  lemma MaxIndexZero(height: nat)
    requires height <= 11
    ensures MaxIndexOf(height) == 0 <==> height == 0
  {
    MaxIndexClosed(height);
    if height > 0 {
      MaxIndexStrictlyIncreasing(0, height);
    }
  }

  /** The answer of a scan: the first maxItems of the stored keys from first on. */
  ghost predicate Answered(items: map<Key, Item>, first: Key, maxItems: nat, res: seq<int>, was: seq<int>, ret: nat) {
    var all := Range(items, first, WORD);
    && ret == (if maxItems <= |all| then maxItems else |all|)
    && Collected(res, 0, items, all[..ret])
    && SameOutside(res, was, 0, ret)
  }

  /** `radix_tree_gang_lookup`. */
  method GangLookup(root: Tree, results: array<int>, first: Key, maxItems: nat) returns (defined: bool, ret: nat)
    requires root.Valid()
    requires results as object !in root.repr + {root.maxindex} && maxItems <= results.Length
    modifies results
    ensures root.Valid()
    ensures defined <==> GangDefined(root.height, root.items, first, maxItems)
    ensures defined ==> Answered(root.items, first, maxItems, results[..], old(results[..]), ret)
  {
    hide Linked, Counted, Tight, Tree.Mirrored, Tree.Conserved, MaxIndexOf, Range, Collected, SameOutside, GangDefined;
    KeysBelow(root);
    MaxIndexZero(root.height);
    var maxIndex := root.maxindex[root.height];
    if root.rnode == Empty || maxIndex == 0 {
      defined := true;
      ret := SmallGang(root, results, first, maxItems);
      return;
    }
    defined, ret := MainGang(root, results, first, maxItems);
  }

  /** Lines 277-288: an empty tree, or one that can only hold key 0. */
  method SmallGang(root: Tree, results: array<int>, first: Key, maxItems: nat) returns (ret: nat)
    requires root.Valid() && (root.rnode == Empty || root.height == 0)
    requires results as object !in root.repr + {root.maxindex} && maxItems <= results.Length
    modifies results
    ensures root.Valid()
    ensures GangDefined(root.height, root.items, first, maxItems)
    ensures Answered(root.items, first, maxItems, results[..], old(results[..]), ret)
  {
    hide Counted, Tight, Tree.Mirrored, MaxIndexOf, Range;
    RootOccupied(root.State());
    HeightZero(root, first);
    ret := 0;
    if root.rnode != Empty && first == 0 {
      if maxItems > 0 {
        results[0] := root.rnode.item;
        ret := 1;
      }
    }
  }

  /** Lines 289-303: repeat `__lookup` until enough is found. */
  method MainGang(root: Tree, results: array<int>, first: Key, maxItems: nat) returns (defined: bool, ret: nat)
    requires root.Valid() && root.rnode != Empty && root.height > 0
    requires results as object !in root.repr + {root.maxindex} && maxItems <= results.Length
    modifies results
    ensures root.Valid()
    ensures defined <==> GangDefined(root.height, root.items, first, maxItems)
    ensures defined ==> Answered(root.items, first, maxItems, results[..], old(results[..]), ret)
  {
    hide Linked, Counted, Tight, Tree.Mirrored, Tree.Conserved, MaxIndexOf, Range, Collected, SameOutside, GangDefined;
    hide ScanDefined, BlockEnd, BlocksHit;
    KeysBelow(root);
    var maxIndex := root.maxindex[root.height];
    var curIndex := first;
    ghost var cur: nat := first;
    ret := 0;
    NothingYet(root.items, first, results[..]);
    while ret < maxItems
      invariant first <= cur == curIndex
      invariant root.Valid() && ret == |Range(root.items, first, cur)| <= maxItems
      invariant root.height <= 6 || BlocksHit(root.items, first, cur)
      invariant Collected(results[..], 0, root.items, Range(root.items, first, cur))
      invariant SameOutside(results[..], old(results[..]), 0, ret)
      decreases WORD - cur
    {
      if curIndex > maxIndex {
        break;
      }
      ghost var mid := results[..];
      var ok, found, next := LookupFrom(root, results, ret, curIndex, maxItems - ret);
      if !ok {
        StuckUndefined(root.State(), first, curIndex, maxItems);
        defined := false;
        return;
      }
      StepBlocks(root.height, root.items, first, curIndex, Stop(next));
      DeliverMore(root.items, first, cur, Stop(next), old(results[..]), mid, results[..]);
      ret := ret + found;
      cur := Stop(next);
      if next == 0 {
        break;
      }
      curIndex := next;
    }
    defined := true;
    StoppedDefined(root.State(), first, cur, maxItems);
    Delivered(root.items, first, cur, maxItems);
  }

  lemma NothingYet(items: map<Key, Item>, first: Key, res: seq<int>)
    ensures Range(items, first, first) == []
    ensures Collected(res, 0, items, Range(items, first, first)) && SameOutside(res, res, 0, 0)
    ensures BlocksHit(items, first, first)
  {
  }

  lemma StepBlocks(height: nat, items: map<Key, Item>, first: nat, cur: Key, stop: nat)
    requires first <= cur && (height <= 6 || BlocksHit(items, first, cur))
    requires ScanDefined(height, items, cur) && stop <= BlockEnd(height, cur)
    ensures height <= 6 || BlocksHit(items, first, stop)
  {
    if height > 6 {
      BlocksStep(items, first, cur, stop);
    }
  }

  /** A scan the source cannot do: keys 0 and 3 * 2^36, starting in the empty
      block between them. */
  lemma UndefinedScan(items: map<Key, Item>, first: Key, far: Key)
    requires first == FirstKey(1, 6) && far == FirstKey(3, 6)
    requires items.Keys == {0, far}
    ensures NeededHeight(far) == 7 && !GangDefined(7, items, first, 1)
  {
    hide MaxIndexOf, Range, FirstKey, Prefix;
    PrefixOfFirst(0, 6);
    PrefixOfFirst(1, 6);
    PrefixOfFirst(3, 6);
    assert FirstKey(0, 6) == 0 by {
      FirstKeyScale(0, 6);
    }
    FirstKeyStrict(1, 3, 6);
    NeededHeightLeast(far, 6);
    NeededHeightLeast(far, 7);
    assert Prefix(far, 7) == Prefix(far, 6) / 64 by {
      SameNode(far, 7, 0, 3);
    }
    FitsIsPrefixZero(far, 7);
    RangeEmpty(items, first, first);
    StuckUndefined(Layout(7, Empty, map[], map[], map[], items), first, first, 1);
  }
}

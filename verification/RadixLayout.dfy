/** What the radix tree's memory looks like.  Every live node is placed at a
    position (level, prefix): it holds exactly the keys whose base-64 expansion,
    without its last `level` digits, is `prefix`.  A Layout is a snapshot of the
    whole structure as a value; the predicates below are the tree invariant and
    the lemmas say what each pointer write of the source does to it. */
module RadixLayout {
  import opened Common
  import opened Words
  import opened Digits

  /** A non-NULL `void *`. */
  type Item = v: int | 0 < v < WORD witness 1

  /** One `void *` cell: NULL, a pointer to a node, or a stored item. */
  datatype Slot = Empty | Child(node: Node) | Stored(item: Item)

  /** `struct radix_tree_node`. */
  class Node {
    var count: nat
    const slots: array<Slot>

    /** `calloc(1, sizeof(struct radix_tree_node))`. */
    constructor ()
      ensures count == 0
      ensures slots.Length == MAP_SIZE && fresh(slots)
      ensures slots[..] == NoSlots()
    {
      count := 0;
      slots := new Slot[MAP_SIZE](_ => Empty);
    }
  }

  datatype Pos = Pos(level: nat, prefix: nat)

  /** Height, root cell, live nodes with their slots and counters, and the
      key-to-item map the tree stands for. */
  datatype Layout = Layout(height: nat, root: Slot, at: map<Pos, Node>,
                           slots: map<Pos, seq<Slot>>, counts: map<Pos, int>, items: map<Key, Item>)

  function NoSlots(): (s: seq<Slot>)
    ensures |s| == MAP_SIZE && OccCount(s) == 0
  {
    var s := seq(MAP_SIZE, _ => Empty);
    OccCountZero(s);
    s
  }

  // ---------------------------------------------------------------- occupancy

  /** 1 for a cell that is not NULL. */
  function Full(x: Slot): nat {
    if x == Empty then 0 else 1
  }

  /** The number of slots that are not NULL. */
  function OccCount(s: seq<Slot>): (r: nat)
    ensures r <= |s|
  {
    if s == [] then 0 else OccCount(s[..|s| - 1]) + Full(s[|s| - 1])
  }

  lemma {:induction false} OccCountZero(s: seq<Slot>)
    ensures OccCount(s) == 0 <==> forall i :: 0 <= i < |s| ==> s[i] == Empty
  {
    if s != [] {
      OccCountZero(s[..|s| - 1]);
      assert forall i :: 0 <= i < |s| - 1 ==> s[..|s| - 1][i] == s[i];
    }
  }

  lemma {:induction false} OccCountUpdate(s: seq<Slot>, i: nat, x: Slot)
    requires i < |s|
    ensures OccCount(s[i := x]) + Full(s[i]) == OccCount(s) + Full(x)
  {
    var t := s[..|s| - 1];
    if i == |s| - 1 {
      assert s[i := x][..|s| - 1] == t;
    } else {
      OccCountUpdate(t, i, x);
      assert s[i := x][..|s| - 1] == t[i := x];
    }
  }

  // ---------------------------------------------------------------- invariant

  /** The prefix of slot i below prefix p. */
  function Down(p: nat, i: nat): (q: nat)
    ensures i < 64 ==> q / 64 == p && q % 64 == i
  {
    64 * p + i
  }

  /** The position one level up. */
  function Up(pos: Pos): Pos {
    Pos(pos.level + 1, pos.prefix / 64)
  }

  /** What the slot for (l, p) has to contain: the node placed there, or at
      level 0 the item stored under key p. */
  ghost function SlotFor(layout: Layout, l: nat, p: nat): Slot {
    if l == 0 then
      if p in layout.items then Stored(layout.items[p]) else Empty
    else
      if Pos(l, p) in layout.at then Child(layout.at[Pos(l, p)]) else Empty
  }

  ghost predicate Placed(layout: Layout) {
    && (forall pos :: pos in layout.at ==>
          1 <= pos.level <= layout.height && (pos.level == layout.height ==> pos.prefix == 0))
    && (forall pos {:trigger Up(pos)} :: pos in layout.at && pos.level < layout.height ==> Up(pos) in layout.at)
  }

  ghost predicate Hung(layout: Layout) {
    forall k :: k in layout.items ==> if layout.height == 0 then k == 0 else Pos(1, k / 64) in layout.at
  }

  ghost predicate Wired0(layout: Layout) {
    layout.slots.Keys == layout.at.Keys && forall pos :: pos in layout.at ==> |layout.slots[pos]| == MAP_SIZE
  }

  ghost predicate Wired(layout: Layout)
    requires Placed(layout)
  {
    && Wired0(layout)
    && layout.root == SlotFor(layout, layout.height, 0)
    && (forall pos, i :: pos in layout.at && 0 <= i < MAP_SIZE ==>
          layout.slots[pos][i] == SlotFor(layout, pos.level - 1, Down(pos.prefix, i)))
  }

  /** The shape invariant, without the counters. */
  ghost predicate Linked(layout: Layout) {
    Placed(layout) && Hung(layout) && Wired(layout)
  }

  /** Counters equal occupancy, except that node `off` is still one too high. */
  ghost predicate CountsMatch(slots: map<Pos, seq<Slot>>, counts: map<Pos, int>, off: Option<Pos>) {
    && counts.Keys == slots.Keys
    && forall pos :: pos in slots ==> counts[pos] == OccCount(slots[pos]) + (if off == Some(pos) then 1 else 0)
  }

  ghost predicate Counted(layout: Layout, off: Option<Pos>) {
    layout.slots.Keys == layout.at.Keys && CountsMatch(layout.slots, layout.counts, off)
  }

  /** No node is empty, except possibly `bare`. */
  ghost predicate Tight(layout: Layout, bare: Option<Pos>) {
    && layout.counts.Keys == layout.at.Keys
    && forall pos :: pos in layout.at && bare != Some(pos) ==> layout.counts[pos] > 0
  }

  /** A tree between operations. */
  ghost predicate WellFormed(layout: Layout) {
    && Linked(layout) && Counted(layout, None) && Tight(layout, None)
    && layout.height <= 11 && (layout.items == map[] ==> layout.height == 0)
  }

  // ---------------------------------------------------------- pointer writes

  /** The cell for (l, p) exists: it is the root cell, or the node above is live. */
  ghost predicate Held(height: nat, at: map<Pos, Node>, l: nat, p: nat) {
    l <= height && (l == height ==> p == 0) && (l < height ==> Pos(l + 1, p / 64) in at)
  }

  /** The node that contains the cell for (l, p); none for the root cell. */
  ghost function Holder(height: nat, l: nat, p: nat): Option<Pos> {
    if l >= height then None else Some(Pos(l + 1, p / 64))
  }

  /** The slot arrays after `*slot = x`, where slot is the cell for (l, p). */
  ghost function SlotsAfter(height: nat, slots: map<Pos, seq<Slot>>, l: nat, p: nat, x: Slot): map<Pos, seq<Slot>> {
    if l >= height || Pos(l + 1, p / 64) !in slots || |slots[Pos(l + 1, p / 64)]| != MAP_SIZE then slots
    else slots[Pos(l + 1, p / 64) := slots[Pos(l + 1, p / 64)][p % 64 := x]]
  }

  /** The root cell after the same write. */
  ghost function RootAfter(height: nat, root: Slot, l: nat, x: Slot): Slot {
    if l >= height then x else root
  }

  /** The counters after `if (node) node->count += d`, where node contains the cell for (l, p). */
  ghost function CountsAfter(height: nat, counts: map<Pos, int>, l: nat, p: nat, d: int): map<Pos, int> {
    if l >= height || Pos(l + 1, p / 64) !in counts then counts
    else counts[Pos(l + 1, p / 64) := counts[Pos(l + 1, p / 64)] + d]
  }

  lemma DownUp(p: nat)
    ensures Down(p / 64, p % 64) == p
  {
  }

  lemma Cell(layout: Layout, l: nat, p: nat)
    requires Linked(layout) && Held(layout.height, layout.at, l, p)
    ensures l == layout.height ==> layout.root == SlotFor(layout, l, p)
    ensures l < layout.height ==> layout.slots[Pos(l + 1, p / 64)][p % 64] == SlotFor(layout, l, p)
  {
    DownUp(p);
  }

  /** The next layout answers every slot like the first, except that (l, p) now holds x. */
  ghost predicate SlotsChanged(layout: Layout, next: Layout, l: nat, p: nat, x: Slot) {
    forall m: nat, q: nat :: SlotFor(next, m, q) == if m == l && q == p then x else SlotFor(layout, m, q)
  }

  /** The next layout has the first one's cells with one write; nodes new in it are blank. */
  ghost predicate CellsWritten(layout: Layout, next: Layout, l: nat, p: nat, x: Slot)
    requires Wired0(layout)
  {
    && next.slots.Keys == next.at.Keys
    && next.root == RootAfter(layout.height, layout.root, l, x)
    && (forall spot :: spot in next.at && spot in layout.at ==>
          next.slots[spot] ==
            if Holder(layout.height, l, p) == Some(spot) then layout.slots[spot][p % 64 := x] else layout.slots[spot])
    && (forall spot :: spot in next.at && spot !in layout.at ==> next.slots[spot] == NoSlots())
    && (forall spot, i :: spot in next.at && spot !in layout.at && 0 <= i < MAP_SIZE && spot.level > 0 ==>
          SlotFor(next, spot.level - 1, Down(spot.prefix, i)) == Empty)
  }

  /** What one slot of a live node holds. */
  lemma SlotAt(layout: Layout, pos: Pos, i: nat)
    requires Linked(layout) && pos in layout.at && i < MAP_SIZE
    ensures Wired0(layout) && pos in layout.slots && |layout.slots[pos]| == MAP_SIZE
    ensures 0 < pos.level <= layout.height
    ensures layout.slots[pos][i] == SlotFor(layout, pos.level - 1, Down(pos.prefix, i))
  {
    hide Hung, SlotFor;
  }

  lemma WrittenAt(layout: Layout, next: Layout, l: nat, p: nat, x: Slot, spot: Pos, i: nat)
    requires Wired0(layout) && CellsWritten(layout, next, l, p, x)
    requires spot in layout.at && spot in next.at && i < MAP_SIZE
    ensures spot in next.slots && |next.slots[spot]| == MAP_SIZE
    ensures next.slots[spot][i] ==
      if Holder(layout.height, l, p) == Some(spot) && i == p % 64 then x else layout.slots[spot][i]
  {
    hide SlotFor, NoSlots;
  }

  lemma ChangedAt(layout: Layout, next: Layout, l: nat, p: nat, x: Slot, m: nat, q: nat)
    requires SlotsChanged(layout, next, l, p, x)
    ensures SlotFor(next, m, q) == if m == l && q == p then x else SlotFor(layout, m, q)
  {
    hide SlotFor;
  }

  lemma RewiredAt(layout: Layout, next: Layout, l: nat, p: nat, x: Slot, spot: Pos, i: nat)
    requires Linked(layout) && Held(layout.height, layout.at, l, p)
    requires CellsWritten(layout, next, l, p, x) && SlotsChanged(layout, next, l, p, x)
    requires next.height == layout.height && spot in layout.at && spot in next.at && i < MAP_SIZE && spot.level > 0
    ensures next.slots[spot][i] == SlotFor(next, spot.level - 1, Down(spot.prefix, i))
  {
    hide Linked, CellsWritten, SlotsChanged, SlotFor, Wired0;
    SlotAt(layout, spot, i);
    WrittenAt(layout, next, l, p, x, spot, i);
    ChangedAt(layout, next, l, p, x, spot.level - 1, Down(spot.prefix, i));
    DownUp(p);
  }

  /** One pointer write keeps the wiring when the tree's contents change at
      exactly the written cell. */
  lemma Rewired(layout: Layout, next: Layout, l: nat, p: nat, x: Slot)
    requires Linked(layout) && Held(layout.height, layout.at, l, p)
    requires CellsWritten(layout, next, l, p, x) && SlotsChanged(layout, next, l, p, x)
    requires next.height == layout.height && Placed(next)
    ensures Wired(next)
  {
    forall spot, i | spot in next.at && 0 <= i < MAP_SIZE
      ensures next.slots[spot][i] == SlotFor(next, spot.level - 1, Down(spot.prefix, i))
    {
      if spot in layout.at {
        RewiredAt(layout, next, l, p, x, spot, i);
      }
    }
  }

  /** `*slot = tmp` for a fresh node n. */
  ghost predicate NodeAdded(layout: Layout, next: Layout, l: nat, p: nat, n: Node) {
    && 1 <= l && Pos(l, p) !in layout.at
    && next.height == layout.height && next.items == layout.items
    && next.at == layout.at[Pos(l, p) := n]
    && next.root == RootAfter(layout.height, layout.root, l, Child(n))
    && next.slots == SlotsAfter(layout.height, layout.slots[Pos(l, p) := NoSlots()], l, p, Child(n))
  }

  lemma NodeAddedPlaced(layout: Layout, next: Layout, l: nat, p: nat, n: Node)
    requires Linked(layout) && Held(layout.height, layout.at, l, p) && NodeAdded(layout, next, l, p, n)
    ensures Placed(next) && Hung(next)
  {
  }

  lemma BelowNewNode(layout: Layout, next: Layout, l: nat, p: nat, n: Node, i: nat)
    requires Placed(layout) && Hung(layout) && Held(layout.height, layout.at, l, p)
    requires Wired0(layout) && NodeAdded(layout, next, l, p, n) && i < 64
    ensures SlotFor(next, l - 1, Down(p, i)) == Empty
  {
    assert Up(Pos(l - 1, Down(p, i))) == Pos(l, p);
  }

  lemma NodeAddedCells(layout: Layout, next: Layout, l: nat, p: nat, n: Node)
    requires Placed(layout) && Hung(layout) && Held(layout.height, layout.at, l, p)
    requires Wired0(layout) && NodeAdded(layout, next, l, p, n)
    ensures CellsWritten(layout, next, l, p, Child(n))
  {
    forall i | 0 <= i < MAP_SIZE
      ensures SlotFor(next, l - 1, Down(p, i)) == Empty
    {
      BelowNewNode(layout, next, l, p, n, i);
    }
  }

  lemma NodeAddedSlots(layout: Layout, next: Layout, l: nat, p: nat, n: Node)
    requires Wired0(layout) && Held(layout.height, layout.at, l, p) && NodeAdded(layout, next, l, p, n)
    ensures SlotsChanged(layout, next, l, p, Child(n))
  {
  }

  lemma NodeAddedLinked(layout: Layout, next: Layout, l: nat, p: nat, n: Node)
    requires Linked(layout) && Held(layout.height, layout.at, l, p) && NodeAdded(layout, next, l, p, n)
    ensures Linked(next)
  {
    NodeAddedPlaced(layout, next, l, p, n);
    NodeAddedCells(layout, next, l, p, n);
    NodeAddedSlots(layout, next, l, p, n);
    Rewired(layout, next, l, p, Child(n));
  }

  /** Writing one cell and adjusting its node's counter by the change in
      occupancy keeps the counters exact. */
  lemma CountedWrite(s: map<Pos, seq<Slot>>, c: map<Pos, int>, spot: Pos, i: nat, x: Slot, off: Option<Pos>)
    requires CountsMatch(s, c, off) && spot in s && i < |s[spot]|
    ensures CountsMatch(s[spot := s[spot][i := x]],
                        c[spot := c[spot] + Full(x) - Full(s[spot][i])], off)
  {
    OccCountUpdate(s[spot], i, x);
  }

  /** A blank node counts 0. */
  lemma CountedPut(s: map<Pos, seq<Slot>>, c: map<Pos, int>, pos: Pos)
    requires CountsMatch(s, c, None) && pos !in s
    ensures CountsMatch(s[pos := NoSlots()], c[pos := 0], None)
  {
    hide OccCount;
  }

  lemma CountedKeys(s: map<Pos, seq<Slot>>, c: map<Pos, int>, off: Option<Pos>)
    requires CountsMatch(s, c, off)
    ensures c.Keys == s.Keys
  {
  }

  lemma NodeAddedCounted(layout: Layout, next: Layout, l: nat, p: nat, n: Node)
    requires Wired0(layout) && Counted(layout, None)
    requires Held(layout.height, layout.at, l, p) && NodeAdded(layout, next, l, p, n)
    requires l < layout.height ==> layout.slots[Pos(l + 1, p / 64)][p % 64] == Empty
    requires next.counts == CountsAfter(layout.height, layout.counts[Pos(l, p) := 0], l, p, 1)
    ensures Counted(next, None)
  {
    hide OccCount, CountsMatch;
    var s, c := layout.slots[Pos(l, p) := NoSlots()], layout.counts[Pos(l, p) := 0];
    CountedPut(layout.slots, layout.counts, Pos(l, p));
    CountedKeys(s, c, None);
    if l < layout.height {
      CountedWrite(s, c, Pos(l + 1, p / 64), p % 64, Child(n), None);
    }
    hide NoSlots;
    SlotKeys(layout, next, l, p, n);
  }

  lemma SlotKeys(layout: Layout, next: Layout, l: nat, p: nat, n: Node)
    requires Wired0(layout) && NodeAdded(layout, next, l, p, n)
    ensures next.slots.Keys == next.at.Keys
  {
  }

  /** `*slot = x; if (node) node->count += d;` where slot is the cell for (l, p)
      and node is the node containing it. */
  ghost function WithWrite(layout: Layout, l: nat, p: nat, x: Slot, d: int): Layout {
    layout.(root := RootAfter(layout.height, layout.root, l, x),
            slots := SlotsAfter(layout.height, layout.slots, l, p, x),
            counts := CountsAfter(layout.height, layout.counts, l, p, d))
  }

  /** Node n, with the given contents, placed at pos. */
  ghost function WithNode(layout: Layout, pos: Pos, n: Node, cells: seq<Slot>, c: int): Layout {
    layout.(at := layout.at[pos := n], slots := layout.slots[pos := cells], counts := layout.counts[pos := c])
  }

  /** `*slot = tmp; if (node) node->count++;` with a blank node tmp. */
  ghost function WithChild(layout: Layout, l: nat, p: nat, n: Node): Layout {
    WithWrite(WithNode(layout, Pos(l, p), n, NoSlots(), 0), l, p, Child(n), 1)
  }

  lemma WithChildLinked(layout: Layout, l: nat, p: nat, n: Node)
    requires Linked(layout) && Counted(layout, None) && Held(layout.height, layout.at, l, p)
    requires 1 <= l && Pos(l, p) !in layout.at
    ensures var next := WithChild(layout, l, p, n); Linked(next) && Counted(next, None)
  {
    hide Placed, Hung;
    var next := WithChild(layout, l, p, n);
    NodeAddedLinked(layout, next, l, p, n);
    Cell(layout, l, p);
    NodeAddedCounted(layout, next, l, p, n);
  }

  /** The parent is no longer empty; the child still is. */
  lemma WithChildTight(layout: Layout, l: nat, p: nat, n: Node, bare: Option<Pos>)
    requires Tight(layout, bare) && Counted(layout, None)
    requires Held(layout.height, layout.at, l, p) && 1 <= l && Pos(l, p) !in layout.at
    requires bare.Some? ==> bare == Holder(layout.height, l, p)
    ensures Tight(WithChild(layout, l, p, n), Some(Pos(l, p)))
  {
  }

  /** The child's own cells are NULL. */
  lemma WithChildBlank(layout: Layout, l: nat, p: nat, n: Node, q: nat)
    requires Linked(layout) && Held(layout.height, layout.at, l, p)
    requires 1 <= l && Pos(l, p) !in layout.at && q / 64 == p
    ensures SlotFor(WithChild(layout, l, p, n), l - 1, q) == Empty
  {
    assert NodeAdded(layout, WithChild(layout, l, p, n), l, p, n);
    BelowNewNode(layout, WithChild(layout, l, p, n), l, p, n, q % 64);
    DownUp(q);
  }

  // ------------------------------------------------------------ item writes

  /** The map with k bound to the contents of a cell. */
  ghost function Bind(items: map<Key, Item>, k: Key, x: Slot): map<Key, Item> {
    if x.Stored? then items[k := x.item] else items - {k}
  }

  /** `*slot = item` or `*slot = NULL` on the cell for key k. */
  ghost predicate ItemWritten(layout: Layout, next: Layout, k: Key, x: Slot) {
    && !x.Child?
    && next.height == layout.height && next.at == layout.at
    && next.items == Bind(layout.items, k, x)
    && next.root == RootAfter(layout.height, layout.root, 0, x)
    && next.slots == SlotsAfter(layout.height, layout.slots, 0, k, x)
  }

  lemma ItemWrittenSlots(layout: Layout, next: Layout, k: Key, x: Slot)
    requires Placed(layout) && Wired0(layout) && Held(layout.height, layout.at, 0, k)
    requires ItemWritten(layout, next, k, x)
    ensures SlotsChanged(layout, next, 0, k, x) && CellsWritten(layout, next, 0, k, x)
  {
  }

  lemma ItemWrittenLinked(layout: Layout, next: Layout, k: Key, x: Slot)
    requires Linked(layout) && Held(layout.height, layout.at, 0, k) && ItemWritten(layout, next, k, x)
    ensures Linked(next)
  {
    ItemWrittenSlots(layout, next, k, x);
    Rewired(layout, next, 0, k, x);
  }

  lemma ItemAddedCounted(layout: Layout, next: Layout, k: Key, x: Slot)
    requires Wired0(layout) && Counted(layout, None) && Held(layout.height, layout.at, 0, k)
    requires ItemWritten(layout, next, k, x) && x.Stored?
    requires 0 < layout.height ==> layout.slots[Pos(1, k / 64)][k % 64] == Empty
    requires next.counts == CountsAfter(layout.height, layout.counts, 0, k, 1)
    ensures Counted(next, None)
  {
    hide OccCount, CountsMatch;
    CountedKeys(layout.slots, layout.counts, None);
    if 0 < layout.height {
      CountedWrite(layout.slots, layout.counts, Pos(1, k / 64), k % 64, x, None);
    }
  }

  /** `if (node) node->count++; *slot = item;` */
  ghost function WithItem(layout: Layout, k: Key, v: Item): Layout {
    WithWrite(layout, 0, k, Stored(v), 1).(items := layout.items[k := v])
  }

  lemma WithItemLinked(layout: Layout, k: Key, v: Item)
    requires Linked(layout) && Held(layout.height, layout.at, 0, k) && k !in layout.items
    ensures Linked(WithItem(layout, k, v))
  {
    hide Placed, Hung, SlotFor;
    ItemWrittenLinked(layout, WithItem(layout, k, v), k, Stored(v));
  }

  lemma WithItemCounted(layout: Layout, k: Key, v: Item)
    requires Linked(layout) && Counted(layout, None) && Held(layout.height, layout.at, 0, k) && k !in layout.items
    ensures Counted(WithItem(layout, k, v), None)
  {
    hide Placed, Hung, OccCount, CountsMatch;
    Cell(layout, 0, k);
    CountedKeys(layout.slots, layout.counts, None);
    hide Wired;
    ItemAddedCounted(layout, WithItem(layout, k, v), k, Stored(v));
  }

  lemma WithItemTight(layout: Layout, k: Key, v: Item, bare: Option<Pos>)
    requires Tight(layout, bare) && Counted(layout, None) && Held(layout.height, layout.at, 0, k)
    requires bare.Some? ==> bare == Holder(layout.height, 0, k)
    ensures Tight(WithItem(layout, k, v), None)
  {
  }

  /** `*slot = NULL` on the cell for key k. */
  ghost function WithoutItem(layout: Layout, k: Key): Layout {
    layout.(root := RootAfter(layout.height, layout.root, 0, Empty),
            slots := SlotsAfter(layout.height, layout.slots, 0, k, Empty), items := layout.items - {k})
  }

  lemma WithoutItemLinked(layout: Layout, k: Key)
    requires Linked(layout) && Held(layout.height, layout.at, 0, k)
    ensures Linked(WithoutItem(layout, k))
  {
    hide Placed, Hung, SlotFor;
    ItemWrittenLinked(layout, WithoutItem(layout, k), k, Empty);
  }

  lemma WithoutItemCounted(layout: Layout, k: Key)
    requires Linked(layout) && Counted(layout, None) && Held(layout.height, layout.at, 0, k) && k in layout.items
    ensures Counted(WithoutItem(layout, k), Holder(layout.height, 0, k))
  {
    hide Placed, Hung;
    CellClearedCounted(layout, WithoutItem(layout, k), 0, k, {});
  }

  // ---------------------------------------------------------------- removal

  /** `*slot = NULL` for the cell of (l, p), and the node there freed. */
  ghost predicate NodeFreed(layout: Layout, next: Layout, l: nat, p: nat) {
    && 1 <= l && Pos(l, p) in layout.at && Pos(l, p) in layout.slots && OccCount(layout.slots[Pos(l, p)]) == 0
    && next.height == layout.height && next.items == layout.items
    && next.at == layout.at - {Pos(l, p)}
    && next.root == RootAfter(layout.height, layout.root, l, Empty)
    && next.slots == SlotsAfter(layout.height, layout.slots, l, p, Empty) - {Pos(l, p)}
  }

  /** An empty node has nothing below it. */
  lemma NothingBelow(layout: Layout, l: nat, p: nat)
    requires Linked(layout) && 1 <= l && Pos(l, p) in layout.at && OccCount(layout.slots[Pos(l, p)]) == 0
    ensures forall q :: q / 64 == p ==> SlotFor(layout, l - 1, q) == Empty
  {
    OccCountZero(layout.slots[Pos(l, p)]);
    forall q | q / 64 == p
      ensures SlotFor(layout, l - 1, q) == Empty
    {
      DownUp(q);
      assert layout.slots[Pos(l, p)][q % 64] == SlotFor(layout, l - 1, Down(p, q % 64));
    }
  }

  lemma NodeFreedPlaced(layout: Layout, next: Layout, l: nat, p: nat)
    requires Placed(layout) && Hung(layout) && Wired0(layout)
    requires Held(layout.height, layout.at, l, p) && NodeFreed(layout, next, l, p)
    requires forall q :: q / 64 == p ==> SlotFor(layout, l - 1, q) == Empty
    ensures Placed(next) && Hung(next)
  {
    forall pos | pos in next.at && pos.level < next.height
      ensures Up(pos) in next.at
    {
      assert Up(pos) in layout.at && SlotFor(layout, pos.level, pos.prefix) != Empty;
    }
    forall k | k in next.items
      ensures if next.height == 0 then k == 0 else Pos(1, k / 64) in next.at
    {
      assert SlotFor(layout, 0, k) != Empty;
    }
  }

  lemma NodeFreedSlots(layout: Layout, next: Layout, l: nat, p: nat)
    requires Wired0(layout) && Held(layout.height, layout.at, l, p) && NodeFreed(layout, next, l, p)
    ensures SlotsChanged(layout, next, l, p, Empty) && CellsWritten(layout, next, l, p, Empty)
  {
  }

  lemma NodeFreedLinked(layout: Layout, next: Layout, l: nat, p: nat)
    requires Linked(layout) && Held(layout.height, layout.at, l, p) && NodeFreed(layout, next, l, p)
    ensures Linked(next)
  {
    NothingBelow(layout, l, p);
    NodeFreedPlaced(layout, next, l, p);
    NodeFreedSlots(layout, next, l, p);
    hide Placed, Hung, SlotFor;
    Rewired(layout, next, l, p, Empty);
  }

  /** Clearing a cell leaves its node's counter one too high. */
  lemma CountedClear(s: map<Pos, seq<Slot>>, c: map<Pos, int>, spot: Pos, i: nat)
    requires CountsMatch(s, c, None) && spot in s && i < |s[spot]| && s[spot][i] != Empty
    ensures CountsMatch(s[spot := s[spot][i := Empty]], c, Some(spot))
  {
    OccCountUpdate(s[spot], i, Empty);
    hide OccCount;
  }

  lemma CountedWithout(s: map<Pos, seq<Slot>>, c: map<Pos, int>, gone: set<Pos>, off: Option<Pos>)
    requires CountsMatch(s, c, off)
    ensures CountsMatch(s - gone, c - gone, off)
  {
    hide OccCount;
  }

  /** The counters after a cell is cleared and some nodes are freed: the node around the
      cell is now one too high. */
  lemma CellClearedCounted(layout: Layout, next: Layout, l: nat, p: nat, gone: set<Pos>)
    requires Linked(layout) && Counted(layout, None)
    requires Held(layout.height, layout.at, l, p) && SlotFor(layout, l, p) != Empty
    requires next.at.Keys == layout.at.Keys - gone && next.counts == layout.counts - gone
    requires next.slots == SlotsAfter(layout.height, layout.slots, l, p, Empty) - gone
    ensures Counted(next, Holder(layout.height, l, p))
  {
    Cell(layout, l, p);
    hide OccCount, Placed, Hung, SlotFor, CountsMatch;
    if l < layout.height {
      CountedClear(layout.slots, layout.counts, Pos(l + 1, p / 64), p % 64);
    }
    var cleared := SlotsAfter(layout.height, layout.slots, l, p, Empty);
    CountedWithout(cleared, layout.counts, gone, Holder(layout.height, l, p));
  }

  /** `*slot = NULL; free(node);` for the node at (l, p). */
  ghost function WithoutNode(layout: Layout, l: nat, p: nat): Layout {
    Layout(layout.height, RootAfter(layout.height, layout.root, l, Empty), layout.at - {Pos(l, p)},
           SlotsAfter(layout.height, layout.slots, l, p, Empty) - {Pos(l, p)}, layout.counts - {Pos(l, p)},
           layout.items)
  }

  lemma WithoutNodeLinked(layout: Layout, l: nat, p: nat)
    requires Linked(layout) && Counted(layout, None) && Held(layout.height, layout.at, l, p)
    requires 1 <= l && Pos(l, p) in layout.at && layout.counts[Pos(l, p)] == 0
    ensures var next := WithoutNode(layout, l, p); Linked(next) && Counted(next, Holder(layout.height, l, p))
  {
    var next := WithoutNode(layout, l, p);
    NodeFreedLinked(layout, next, l, p);
    CellClearedCounted(layout, next, l, p, {Pos(l, p)});
  }

  /** `--node->count`. */
  ghost function WithCount(layout: Layout, l: nat, p: nat, d: int): Layout {
    layout.(counts := CountsAfter(layout.height, layout.counts, l, p, d))
  }

  lemma WithCountCounted(layout: Layout, l: nat, p: nat)
    requires Linked(layout) && Counted(layout, Holder(layout.height, l, p)) && Held(layout.height, layout.at, l, p)
    ensures var next := WithCount(layout, l, p, -1); Linked(next) && Counted(next, None)
  {
    hide OccCount, Linked;
    LinkedSame(layout, WithCount(layout, l, p, -1).counts);
    if l < layout.height {
      CountedDrop(layout.slots, layout.counts, Pos(l + 1, p / 64));
    }
  }

  /** The counters are no part of the shape. */
  lemma LinkedSame(layout: Layout, counts: map<Pos, int>)
    requires Linked(layout)
    ensures Linked(layout.(counts := counts))
  {
    assert forall m, q :: SlotFor(layout.(counts := counts), m, q) == SlotFor(layout, m, q);
  }

  lemma CountedDrop(s: map<Pos, seq<Slot>>, c: map<Pos, int>, pos: Pos)
    requires CountsMatch(s, c, Some(pos)) && pos in s
    ensures CountsMatch(s, c[pos := c[pos] - 1], None)
  {
    hide OccCount;
  }

  // ----------------------------------------------------------------- height

  /** One round of `radix_tree_extend`: a new root whose slot 0 is the old one. */
  ghost function WithRoot(layout: Layout, n: Node): Layout {
    Layout(layout.height + 1, Child(n), layout.at[Pos(layout.height + 1, 0) := n],
           layout.slots[Pos(layout.height + 1, 0) := NoSlots()[0 := layout.root]],
           layout.counts[Pos(layout.height + 1, 0) := 1], layout.items)
  }

  lemma WithRootPlaced(layout: Layout, n: Node)
    requires Placed(layout) && Hung(layout)
    ensures Placed(WithRoot(layout, n)) && Hung(WithRoot(layout, n))
  {
  }

  lemma WithRootSlot(layout: Layout, n: Node, spot: Pos, i: nat)
    requires Placed(layout) && Hung(layout) && Wired(layout)
    requires spot in WithRoot(layout, n).at && i < MAP_SIZE && spot.level > 0
    ensures WithRoot(layout, n).slots[spot][i] == SlotFor(WithRoot(layout, n), spot.level - 1, Down(spot.prefix, i))
  {
    if spot in layout.at {
      assert layout.slots[spot][i] == SlotFor(layout, spot.level - 1, Down(spot.prefix, i));
    }
  }

  lemma WithRootWired(layout: Layout, n: Node)
    requires Linked(layout) && Placed(WithRoot(layout, n))
    ensures Wired(WithRoot(layout, n))
  {
    var next := WithRoot(layout, n);
    forall spot, i | spot in next.at && 0 <= i < MAP_SIZE
      ensures next.slots[spot][i] == SlotFor(next, spot.level - 1, Down(spot.prefix, i))
    {
      WithRootSlot(layout, n, spot, i);
    }
  }

  lemma WithRootLinked(layout: Layout, n: Node)
    requires Linked(layout)
    ensures Linked(WithRoot(layout, n))
  {
    hide Placed, Hung, Wired, WithRoot;
    WithRootPlaced(layout, n);
    WithRootWired(layout, n);
  }

  lemma WithRootCounted(layout: Layout, n: Node)
    requires Counted(layout, None) && layout.root != Empty
    ensures Counted(WithRoot(layout, n), None)
  {
    OccCountUpdate(NoSlots(), 0, layout.root);
  }

  lemma WithRootTight(layout: Layout, n: Node)
    requires Tight(layout, None)
    ensures Tight(WithRoot(layout, n), None)
  {
  }

  lemma RootOnTop(layout: Layout)
    requires Linked(layout)
    ensures Pos(layout.height + 1, 0) !in layout.at
  {
  }

  lemma EmptyCounted(layout: Layout, h: nat)
    requires Counted(layout, None) && layout.at == map[]
    ensures Counted(layout.(height := h), None) && Tight(layout.(height := h), None)
  {
  }

  /** With nothing stored the height can be set freely. */
  lemma HeightFree(layout: Layout, h: nat)
    requires Linked(layout) && layout.root == Empty
    ensures Linked(layout.(height := h)) && layout.at == map[] && layout.items == map[]
  {
    RootOccupied(layout);
  }

  /** Every ancestor of a live node is live. */
  lemma {:induction false} Ancestors(layout: Layout, pos: Pos, m: nat)
    requires Placed(layout) && pos in layout.at && pos.level + m <= layout.height
    ensures Pos(pos.level + m, Prefix(pos.prefix, m)) in layout.at
  {
    if m > 0 {
      Ancestors(layout, pos, m - 1);
      var above := Pos(pos.level + (m - 1), Prefix(pos.prefix, m - 1));
      assert Up(above) == Pos(pos.level + m, Prefix(pos.prefix, m));
    }
  }

  /** Every node on the path of a stored key is live. */
  lemma PathLive(layout: Layout, k: Key, l: nat)
    requires Placed(layout) && Hung(layout) && k in layout.items && 1 <= l <= layout.height
    ensures Pos(l, Prefix(k, l)) in layout.at
  {
    Ancestors(layout, Pos(1, k / 64), l - 1);
    PrefixAdd(k, 1, l - 1);
  }

  /** The root cell is NULL exactly when nothing is stored, and then nothing is live. */
  lemma RootOccupied(layout: Layout)
    requires Linked(layout)
    ensures layout.at != map[] || layout.items != map[] ==> layout.root != Empty
  {
    if pos :| pos in layout.at {
      Ancestors(layout, pos, layout.height - pos.level);
      assert Prefix(pos.prefix, layout.height - pos.level) == 0;
    } else if k :| k in layout.items {
    }
  }

  // ------------------------------------------------------------------ paths

  /** The cell for the level-l prefix of key k exists. */
  ghost predicate OnPath(layout: Layout, l: nat, k: Key) {
    Held(layout.height, layout.at, l, Prefix(k, l))
  }

  /** If the cell on k's path is NULL at some level, k is not stored. */
  lemma PathBroken(layout: Layout, l: nat, k: Key)
    requires Linked(layout) && OnPath(layout, l, k) && SlotFor(layout, l, Prefix(k, l)) == Empty
    ensures k !in layout.items
  {
    if k in layout.items && l > 0 {
      PathLive(layout, k, l);
    }
  }

  /** A non-NULL cell above the bottom level leads one level down. */
  lemma PathDown(layout: Layout, l: nat, k: Key)
    requires Linked(layout) && OnPath(layout, l, k) && 1 <= l <= 11 && SlotFor(layout, l, Prefix(k, l)) != Empty
    ensures OnPath(layout, l - 1, k)
    ensures Pos(l, Prefix(k, l)) in layout.at
    ensures SlotFor(layout, l, Prefix(k, l)) == Child(layout.at[Pos(l, Prefix(k, l))])
    ensures Holder(layout.height, l - 1, Prefix(k, l - 1)) == Some(Pos(l, Prefix(k, l)))
    ensures SlotIndex(k, 6 * (l - 1)) == Prefix(k, l - 1) % 64
  {
    SlotIndexIsDigit(k, l - 1);
  }

  /** Stored keys have no digits beyond the height. */
  lemma KeyFits(layout: Layout, k: Key)
    requires Placed(layout) && Hung(layout) && k in layout.items
    ensures Prefix(k, layout.height) == 0
  {
    if layout.height > 0 {
      PathLive(layout, k, layout.height);
    }
  }

  // ------------------------------------------------------------- exactness

  /** Some stored key lies below position pos. */
  ghost predicate Occupied(items: map<Key, Item>, pos: Pos) {
    exists k :: k in items && Prefix(k, pos.level) == pos.prefix
  }

  /** A node that counts something has a cell that is not NULL. */
  lemma SomeCell(layout: Layout, pos: Pos) returns (q: nat)
    requires Linked(layout) && Counted(layout, None) && Tight(layout, None) && pos in layout.at
    ensures pos.level > 0 && q / 64 == pos.prefix && SlotFor(layout, pos.level - 1, q) != Empty
  {
    hide OccCount, SlotFor, Hung;
    var i := SomeOccupied(layout.slots[pos]);
    q := Down(pos.prefix, i);
    assert layout.slots[pos][i] == SlotFor(layout, pos.level - 1, q);
  }

  lemma SomeOccupied(s: seq<Slot>) returns (i: nat)
    requires OccCount(s) > 0
    ensures i < |s| && s[i] != Empty
  {
    OccCountZero(s);
    i :| i < |s| && s[i] != Empty;
  }

  /** Below every live node of a tight tree there is a stored key. */
  lemma {:induction false} NodeHasKey(layout: Layout, pos: Pos)
    requires Linked(layout) && Counted(layout, None) && Tight(layout, None) && pos in layout.at
    ensures Occupied(layout.items, pos)
    decreases pos.level
  {
    hide Linked, Counted, Tight, Occupied;
    var q := SomeCell(layout, pos);
    if pos.level == 1 {
      KeyBelow(layout.items, q, pos);
    } else {
      NodeHasKey(layout, Pos(pos.level - 1, q));
      OccupiedUp(layout.items, q, pos);
    }
  }

  lemma OccupiedUp(items: map<Key, Item>, q: nat, pos: Pos)
    requires pos.level > 1 && q / 64 == pos.prefix && Occupied(items, Pos(pos.level - 1, q))
    ensures Occupied(items, pos)
  {
    var k :| k in items && Prefix(k, pos.level - 1) == q;
    assert Prefix(k, pos.level) == pos.prefix;
  }

  lemma KeyBelow(items: map<Key, Item>, k: nat, pos: Pos)
    requires k in items && pos.level == 1 && k / 64 == pos.prefix
    ensures Occupied(items, pos)
  {
    assert Prefix(k, 1) == Prefix(k, 0) / 64;
  }

  /** The live nodes are exactly the prefixes of the stored keys. */
  lemma NodesExact(layout: Layout, pos: Pos)
    requires Linked(layout) && Counted(layout, None) && Tight(layout, None)
    ensures pos in layout.at <==> 1 <= pos.level <= layout.height && Occupied(layout.items, pos)
  {
    if pos in layout.at {
      NodeHasKey(layout, pos);
    } else if 1 <= pos.level <= layout.height && Occupied(layout.items, pos) {
      var k :| k in layout.items && Prefix(k, pos.level) == pos.prefix;
      PathLive(layout, k, pos.level);
    }
  }

  /** A tight tree with a non-NULL root stores something. */
  lemma RootStores(layout: Layout)
    requires Linked(layout) && Counted(layout, None) && Tight(layout, None) && layout.root != Empty
    ensures layout.items != map[]
  {
    hide Counted, Tight;
    if layout.height > 0 {
      NodeHasKey(layout, Pos(layout.height, 0));
    }
  }

  /** Going from a tree to one with fewer keys and the same height, the nodes
      that disappear are those with no key left below them. */
  lemma NodesLeft(layout: Layout, next: Layout, pos: Pos)
    requires Linked(layout) && Counted(layout, None) && Tight(layout, None)
    requires Linked(next) && Counted(next, None) && Tight(next, None)
    requires layout.height == next.height && next.items.Keys <= layout.items.Keys
    ensures pos in next.at <==> pos in layout.at && Occupied(next.items, pos)
  {
    hide Linked, Counted, Tight;
    NodesExact(layout, pos);
    NodesExact(next, pos);
    if Occupied(next.items, pos) {
      var k :| k in next.items && Prefix(k, pos.level) == pos.prefix;
      assert k in layout.items;
    }
  }
}

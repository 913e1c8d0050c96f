/** The radix tree itself: nodes in the heap, cells reached through pointers,
    and the operations of radix_tree.c on them. */
module RadixTree {
  import opened Common
  import opened Words
  import opened Digits
  import opened MaxIndex
  import opened RadixLayout

  const EEXIST: int := 17

  /** A `struct radix_tree_node **`: the address of `root->rnode` or of one slot. */
  datatype CellRef = RootCell | NodeCell(node: Node, index: nat)

  lemma ValuesAdd<K, V>(m: map<K, V>, k: K, v: V)
    requires k !in m
    ensures m[k := v].Values == m.Values + {v}
  {
    assert forall j :: j in m ==> m[k := v][j] == m[j];
    assert m[k := v][k] == v;
  }

  lemma ValuesRemove<K, V>(m: map<K, V>, k: K)
    requires k in m && forall j :: j in m && m[j] == m[k] ==> j == k
    ensures (m - {k}).Values == m.Values - {m[k]}
  {
    assert forall j :: j in m && j != k ==> (m - {k})[j] == m[j];
  }

  /** The address of the cell for (l, p), and the node containing it. */
  ghost function CellOf(height: nat, at: map<Pos, Node>, l: nat, p: nat): CellRef
    requires Held(height, at, l, p)
  {
    if l >= height then RootCell else NodeCell(at[Pos(l + 1, p / 64)], p % 64)
  }

  ghost function NodeOf(height: nat, at: map<Pos, Node>, l: nat, p: nat): Node?
    requires Held(height, at, l, p)
  {
    if l >= height then null else at[Pos(l + 1, p / 64)]
  }

  ghost predicate ReachedIn(height: nat, at: map<Pos, Node>, slot: CellRef, node: Node?, l: nat, index: Key) {
    && Held(height, at, l, Prefix(index, l))
    && slot == CellOf(height, at, l, Prefix(index, l)) && node == NodeOf(height, at, l, Prefix(index, l))
  }

  /** `struct radix_tree_path`. */
  datatype PathEntry = PathEntry(node: Node?, slot: CellRef)

  /** Entries 0..d of delete's path array name the cells on index's path. */
  ghost predicate PathHolds(height: nat, at: map<Pos, Node>, path: seq<PathEntry>, d: nat, index: Key) {
    && d <= height && d < |path|
    && forall j: nat :: j <= d ==> ReachedIn(height, at, path[j].slot, path[j].node, height - j, index)
  }

  /** after keeps exactly the nodes of before that still have a key below them,
      each where it was. */
  ghost predicate Pruned(before: map<Pos, Node>, after: map<Pos, Node>, items: map<Key, Item>) {
    && (forall pos :: pos in after <==> pos in before && Occupied(items, pos))
    && (forall pos :: pos in after ==> after[pos] == before[pos])
  }

  /** Freeing the node below entry d leaves the entries up to d in place. */
  lemma PathKept(height: nat, at: map<Pos, Node>, path: seq<PathEntry>, d: nat, index: Key)
    requires PathHolds(height, at, path, d, index)
    ensures PathHolds(height, at - {Pos(height - d, Prefix(index, height - d))}, path, d, index)
  {
  }

  /** Every placed node has its own slot array. */
  ghost predicate Owned(at: map<Pos, Node>, owner: map<array<Slot>, Pos>) {
    forall pos :: pos in at ==>
      && at[pos].slots.Length == MAP_SIZE
      && at[pos].slots in owner && owner[at[pos].slots] == pos
  }

  ghost predicate SlotsAre(at: map<Pos, Node>, slots: map<Pos, seq<Slot>>)
    reads set pos | pos in at :: at[pos].slots
  {
    slots.Keys == at.Keys && forall pos :: pos in at ==> slots[pos] == at[pos].slots[..]
  }

  ghost predicate CountsAre(at: map<Pos, Node>, counts: map<Pos, int>)
    reads (set pos | pos in at :: at[pos])`count
  {
    counts.Keys == at.Keys && forall pos :: pos in at ==> counts[pos] == at[pos].count
  }

  /** One more node in the snapshot. */
  lemma OwnedPut(at: map<Pos, Node>, owner: map<array<Slot>, Pos>, pos: Pos, n: Node)
    requires Owned(at, owner) && pos !in at && n.slots.Length == MAP_SIZE
    requires forall spot :: spot in at ==> at[spot].slots != n.slots
    ensures Owned(at[pos := n], owner[n.slots := pos])
  {
  }

  lemma SlotsPut(at: map<Pos, Node>, slots: map<Pos, seq<Slot>>, pos: Pos, n: Node)
    requires SlotsAre(at, slots)
    ensures SlotsAre(at[pos := n], slots[pos := n.slots[..]])
  {
  }

  lemma CountsPut(at: map<Pos, Node>, counts: map<Pos, int>, pos: Pos, n: Node)
    requires CountsAre(at, counts)
    ensures CountsAre(at[pos := n], counts[pos := n.count])
  {
  }

  /** One node fewer. */
  lemma AllTaken(at: map<Pos, Node>, owner: map<array<Slot>, Pos>, slots: map<Pos, seq<Slot>>, counts: map<Pos, int>,
                 pos: Pos)
    requires Owned(at, owner) && SlotsAre(at, slots) && CountsAre(at, counts)
    ensures Owned(at - {pos}, owner) && SlotsAre(at - {pos}, slots - {pos}) && CountsAre(at - {pos}, counts - {pos})
  {
  }

  lemma PathFirst(height: nat, at: map<Pos, Node>, path: seq<PathEntry>, index: Key)
    requires |path| > 0 && ReachedIn(height, at, path[0].slot, path[0].node, height, index)
    ensures PathHolds(height, at, path, 0, index)
  {
  }

  /** One more entry, for the cell one level down. */
  lemma PathMore(height: nat, at: map<Pos, Node>, path: seq<PathEntry>, d: nat, index: Key, entry: PathEntry)
    requires PathHolds(height, at, path, d, index) && d < height && d + 1 < |path|
    requires ReachedIn(height, at, entry.slot, entry.node, height - d - 1, index)
    ensures PathHolds(height, at, path[d + 1 := entry], d + 1, index)
  {
    hide ReachedIn;
  }

  /** `struct radix_tree_root`, together with the shared table of greatest keys. */
  class Tree {
    var height: nat
    var rnode: Slot
    const maxindex: array<Key>

    /** Where each live node is placed, the nodes allocated and not yet freed,
        and which node each slot array belongs to. */
    ghost var at: map<Pos, Node>
    ghost var live: set<Node>
    ghost var owner: map<array<Slot>, Pos>
    /** The contents of the nodes, kept equal to the heap by Sync. */
    ghost var slots: map<Pos, seq<Slot>>
    ghost var counts: map<Pos, int>
    /** The map the tree stands for. */
    ghost var items: map<Key, Item>

    /** Every object the tree may touch. */
    ghost var repr: set<object>

    /** No two placed nodes share cells. */
    ghost predicate Separate()
      reads this`at, this`owner
    {
      Owned(at, owner)
    }

    /** The nodes allocated and not freed are exactly those the tree reaches. */
    ghost predicate Conserved()
      reads this`at, this`live, this`repr
    {
      live == at.Values && this in repr && forall pos :: pos in at ==> at[pos] in repr && at[pos].slots in repr
    }

    ghost predicate SlotsSync()
      reads this`at, this`slots, set pos | pos in at :: at[pos].slots
    {
      SlotsAre(at, slots)
    }

    ghost predicate CountsSync()
      reads this`at, this`counts, (set pos | pos in at :: at[pos])`count
    {
      CountsAre(at, counts)
    }

    /** The snapshot is what the memory holds. */
    ghost predicate Mirrored()
      reads this`at, this`owner, this`slots, this`counts
      reads set pos | pos in at :: at[pos], set pos | pos in at :: at[pos].slots
    {
      Separate() && SlotsSync() && CountsSync()
    }

    ghost predicate Sync()
      reads this, repr
    {
      Conserved() && Mirrored()
    }

    /** The tree as a value. */
    ghost function State(): Layout
      reads this
    {
      Layout(height, rnode, at, slots, counts, items)
    }

    ghost predicate Valid()
      reads this, repr, maxindex
    {
      && Sync() && WellFormed(State())
      && maxindex !in repr && TableReady(maxindex[..])
    }

    /** INIT_RADIX_TREE. */
    constructor (table: array<Key>)
      requires TableReady(table[..])
      ensures Valid() && items == map[] && height == 0 && live == {} && maxindex == table && repr == {this}
    {
      height := 0;
      rnode := Empty;
      maxindex := table;
      at, slots, counts, items := map[], map[], map[], map[];
      owner, live, repr := map[], {}, {this};
    }

    // -------------------------------------------------------------- pointers

    ghost function CellAt(l: nat, p: nat): CellRef
      requires Held(height, at, l, p)
      reads this`height, this`at
    {
      CellOf(height, at, l, p)
    }

    ghost function NodeAt(l: nat, p: nat): Node?
      requires Held(height, at, l, p)
      reads this`height, this`at
    {
      NodeOf(height, at, l, p)
    }

    /** `*slot`. */
    function Load(slot: CellRef): Slot
      requires slot.NodeCell? ==> slot.index < slot.node.slots.Length
      reads this`rnode, if slot.NodeCell? then {slot.node.slots} else {}
    {
      match slot
      case RootCell => rnode
      case NodeCell(n, i) => n.slots[i]
    }

    /** What a cell of the tree holds. */
    lemma LoadIs(l: nat, p: nat)
      requires Sync() && Linked(State()) && Held(height, at, l, p)
      ensures CellAt(l, p).NodeCell? ==> CellAt(l, p).index < CellAt(l, p).node.slots.Length
      ensures Load(CellAt(l, p)) == SlotFor(State(), l, p)
    {
      Cell(State(), l, p);
    }

    /** `*slot = x`. */
    method Store(slot: CellRef, x: Slot, ghost l: nat, ghost p: nat)
      requires Separate() && SlotsSync() && Held(height, at, l, p) && slot == CellAt(l, p)
      modifies this`rnode, this`slots, if slot.NodeCell? then {slot.node.slots} else {}
      ensures SlotsSync()
      ensures rnode == RootAfter(height, old(rnode), l, x)
      ensures slots == SlotsAfter(height, old(slots), l, p, x)
    {
      match slot {
        case RootCell => rnode := x;
        case NodeCell(n, i) => n.slots[i] := x;
      }
      slots := SlotsAfter(height, slots, l, p, x);
    }

    /** `if (node) node->count += d`. */
    method Count(node: Node?, d: int, ghost l: nat, ghost p: nat)
      requires Separate() && CountsSync() && Held(height, at, l, p) && node == NodeAt(l, p)
      requires node != null ==> node.count + d >= 0
      modifies this`counts, (if node != null then {node} else {})`count
      ensures CountsSync()
      ensures counts == CountsAfter(height, old(counts), l, p, d)
    {
      if node != null {
        node.count := node.count + d;
      }
      counts := CountsAfter(height, counts, l, p, d);
    }

    /** `*slot = x; if (node) node->count += d`. */
    method Link(slot: CellRef, node: Node?, x: Slot, d: int, ghost l: nat, ghost p: nat)
      requires Mirrored() && Held(height, at, l, p) && slot == CellAt(l, p) && node == NodeAt(l, p)
      requires node != null ==> node.count + d >= 0
      modifies this`rnode, this`slots, this`counts
      modifies if slot.NodeCell? then {slot.node.slots} else {}
      modifies (if node != null then {node} else {})`count
      ensures Mirrored() && State() == WithWrite(old(State()), l, p, x, d)
    {
      hide Separate, SlotsSync, CountsSync, RootAfter, SlotsAfter, CountsAfter;
      Store(slot, x, l, p);
      Count(node, d, l, p);
    }

    /** `radix_tree_node_alloc`. */
    method NodeAlloc() returns (ret: Node)
      modifies this`live, this`repr
      ensures fresh(ret) && fresh(ret.slots) && live == old(live) + {ret}
      ensures old(repr) <= repr && fresh(repr - old(repr)) && ret in repr && ret.slots in repr
      ensures ret.count == 0 && ret.slots.Length == MAP_SIZE && ret.slots[..] == NoSlots()
    {
      ret := new Node();
      live := live + {ret};
      repr := repr + {ret, ret.slots};
    }

    /** Record that node n, with the given contents, is now the node at pos. */
    ghost method Place(pos: Pos, n: Node, cells: seq<Slot>, c: int)
      requires Mirrored() && pos !in at
      requires n.count == c && n.slots.Length == MAP_SIZE && n.slots[..] == cells
      requires forall spot :: spot in at ==> at[spot].slots != n.slots
      modifies this`at, this`owner, this`slots, this`counts
      ensures Mirrored() && State() == WithNode(old(State()), pos, n, cells, c)
    {
      hide Owned, SlotsAre, CountsAre, NoSlots;
      OwnedPut(at, owner, pos, n);
      SlotsPut(at, slots, pos, n);
      CountsPut(at, counts, pos, n);
      at := at[pos := n];
      slots := slots[pos := cells];
      counts := counts[pos := c];
      owner := owner[n.slots := pos];
    }

    /** A fresh node for position pos. */
    method NewNode(ghost pos: Pos) returns (tmp: Node)
      requires Mirrored() && pos !in at
      modifies this`at, this`owner, this`slots, this`counts, this`live, this`repr
      ensures live == old(live) + {tmp}
      ensures old(repr) <= repr && fresh(repr - old(repr)) && tmp in repr && tmp.slots in repr
      ensures Mirrored() && State() == WithNode(old(State()), pos, tmp, NoSlots(), 0)
    {
      hide SlotsSync, CountsSync, NoSlots, WithNode;
      tmp := NodeAlloc();
      Place(pos, tmp, NoSlots(), 0);
    }

    /** `tmp = alloc(); *slot = tmp; if (node) node->count++;` */
    method HangChild(slot: CellRef, node: Node?, ghost l: nat, ghost p: nat) returns (tmp: Node)
      requires Mirrored() && Held(height, at, l, p) && slot == CellAt(l, p) && node == NodeAt(l, p)
      requires 1 <= l && Pos(l, p) !in at
      modifies this`rnode, this`at, this`owner, this`slots, this`counts, this`live, this`repr
      modifies if slot.NodeCell? then {slot.node.slots} else {}
      modifies (if node != null then {node} else {})`count
      ensures live == old(live) + {tmp}
      ensures old(repr) <= repr && fresh(repr - old(repr)) && tmp in repr && tmp.slots in repr
      ensures Mirrored() && State() == WithChild(old(State()), l, p, tmp)
    {
      hide Mirrored, WithWrite;
      tmp := NewNode(Pos(l, p));
      Link(slot, node, Child(tmp), 1, l, p);
    }

    /** Between two writes of an operation the tree is linked, with exact counters. */
    ghost predicate Steady()
      reads this, repr
    {
      Sync() && Linked(State()) && Counted(State(), None)
    }

    /** Lines 143-150 of insert: a missing child is added. */
    method AddChild(slot: CellRef, node: Node?, ghost l: nat, ghost p: nat, ghost bare: Option<Pos>)
      requires Steady() && Tight(State(), bare)
      requires Held(height, at, l, p) && slot == CellAt(l, p) && node == NodeAt(l, p)
      requires 1 <= l && Pos(l, p) !in at
      requires bare.Some? ==> bare == Holder(height, l, p)
      modifies repr
      ensures Steady() && Tight(State(), Some(Pos(l, p)))
      ensures height == old(height) && items == old(items)
      ensures Pos(l, p) in at && at == old(at)[Pos(l, p) := at[Pos(l, p)]]
      ensures forall q: nat :: q / 64 == p ==> SlotFor(State(), l - 1, q) == Empty
      ensures old(repr) <= repr && fresh(repr - old(repr))
    {
      hide Linked, Counted, Tight, Mirrored, SlotFor;
      ghost var before := State();
      var tmp := HangChild(slot, node, l, p);
      ValuesAdd(before.at, Pos(l, p), tmp);
      WithChildLinked(before, l, p, tmp);
      WithChildTight(before, l, p, tmp, bare);
      forall q: nat | q / 64 == p
        ensures SlotFor(State(), l - 1, q) == Empty
      {
        WithChildBlank(before, l, p, tmp, q);
      }
    }

    /** Lines 164-168 of insert. */
    method AddItem(slot: CellRef, node: Node?, index: Key, item: Item, ghost bare: Option<Pos>)
      requires Steady() && Tight(State(), bare) && index !in items
      requires Held(height, at, 0, index) && slot == CellAt(0, index) && node == NodeAt(0, index)
      requires bare.Some? ==> bare == Holder(height, 0, index)
      modifies repr
      ensures Steady() && Tight(State(), None)
      ensures height == old(height) && at == old(at) && items == old(items)[index := item] && repr == old(repr)
    {
      hide Linked, Counted, Tight, Separate, SlotsSync, CountsSync, RootAfter, SlotsAfter, CountsAfter;
      ghost var before := State();
      Link(slot, node, Stored(item), 1, 0, index);
      items := items[index := item];
      WithItemLinked(before, index, item);
      WithItemCounted(before, index, item);
      WithItemTight(before, index, item, bare);
      assert State() == WithItem(before, index, item);
    }

    // ---------------------------------------------------------------- extend

    /** Lines 97-105: a new root whose slot 0 is the old one. */
    method MountRoot() returns (node: Node)
      requires Mirrored() && Pos(height + 1, 0) !in at
      modifies this`rnode, this`height, this`at, this`owner, this`slots, this`counts, this`live, this`repr
      ensures live == old(live) + {node}
      ensures old(repr) <= repr && fresh(repr - old(repr)) && node in repr && node.slots in repr
      ensures Mirrored() && State() == WithRoot(old(State()), node)
    {
      hide Separate, SlotsSync, CountsSync, NoSlots;
      node := NodeAlloc();
      node.slots[0] := rnode;
      node.count := 1;
      assert node.slots[..] == NoSlots()[0 := rnode];
      Place(Pos(height + 1, 0), node, NoSlots()[0 := rnode], 1);
      rnode := Child(node);
      height := height + 1;
    }

    /** The same as a step of the tree. */
    method RaiseRoot()
      requires Steady() && Tight(State(), None) && rnode != Empty
      modifies repr
      ensures Steady() && Tight(State(), None) && rnode != Empty
      ensures height == old(height) + 1 && items == old(items)
      ensures old(repr) <= repr && fresh(repr - old(repr))
    {
      hide Linked, Counted, Tight, Mirrored;
      ghost var before := State();
      RootOnTop(before);
      var node := MountRoot();
      ValuesAdd(before.at, Pos(before.height + 1, 0), node);
      WithRootLinked(before, node);
      WithRootCounted(before, node);
      WithRootTight(before, node);
    }

    /** `radix_tree_extend`. */
    method Extend(index: Key)
      requires Valid() && index > maxindex[height]
      modifies repr
      ensures Steady() && Tight(State(), None)
      ensures height == NeededHeight(index) <= 11 && items == old(items)
      ensures old(repr) <= repr && fresh(repr - old(repr))
    {
      hide Linked, Counted, Tight, Mirrored, MaxIndexOf;
      NeededHeightBound(index);
      FitsIsPrefixZero(index, height);
      var h := height + 1;
      while index > maxindex[h]
        invariant height < h <= NeededHeight(index)
        modifies {}
        decreases NeededHeight(index) - h
      {
        FitsIsPrefixZero(index, h);
        h := h + 1;
      }
      FitsIsPrefixZero(index, h);
      if rnode != Empty {
        RaiseRoot();
        while h > height
          invariant Steady() && Tight(State(), None) && rnode != Empty
          invariant height <= h && items == old(items)
          invariant old(repr) <= repr && fresh(repr - old(repr))
          decreases h - height
        {
          RaiseRoot();
        }
      } else {
        HeightFree(State(), h);
        EmptyCounted(State(), h);
        height := h;
      }
    }

    // --------------------------------------------------------------- descent

    /** slot is the cell of index's level-l prefix and node the node around it. */
    ghost predicate Reached(slot: CellRef, node: Node?, l: nat, index: Key)
      reads this`height, this`at
    {
      ReachedIn(height, at, slot, node, l, index)
    }

    /** A descent starts at the root cell. */
    lemma StartDescent(index: Key)
      requires TableReady(maxindex[..]) && height <= 11 && index <= maxindex[height]
      ensures Prefix(index, height) == 0 && Reached(RootCell, null, height, index)
    {
      FitsIsPrefixZero(index, height);
    }

    /** What `*slot` is on the way down. */
    lemma LoadOnPath(slot: CellRef, node: Node?, l: nat, index: Key)
      requires Sync() && Linked(State()) && Reached(slot, node, l, index)
      ensures slot.NodeCell? ==> slot.index < slot.node.slots.Length
      ensures Load(slot) == SlotFor(State(), l, Prefix(index, l))
    {
      hide Linked;
      LoadIs(l, Prefix(index, l));
    }

    /** Shift and mask select the next cell. */
    lemma StepDown(slot: CellRef, node: Node?, l: nat, index: Key)
      requires Sync() && Linked(State()) && Reached(slot, node, l, index) && 1 <= l <= 11
      requires SlotFor(State(), l, Prefix(index, l)) != Empty
      ensures var c := SlotFor(State(), l, Prefix(index, l));
              c.Child? && Reached(NodeCell(c.node, SlotIndex(index, 6 * (l - 1))), c.node, l - 1, index)
    {
      hide Linked;
      PathDown(State(), l, index);
    }

    /** `radix_tree_lookup`: the stored item, or 0 for NULL. */
    method Lookup(index: Key) returns (item: int)
      requires Valid()
      ensures item == if index in items then items[index] else 0
    {
      hide Linked, Counted, Tight, Mirrored, MaxIndexOf, ToUint;
      var h := height;
      if index > maxindex[h] {
        TooLarge(index);
        return 0;
      }
      UintIs((h - 1) * MAP_SHIFT);
      var shift := ToUint((h - 1) * MAP_SHIFT);
      var slot := RootCell;
      ghost var node: Node? := null;
      StartDescent(index);
      while h > 0
        invariant h <= height && (h > 0 ==> shift == (h - 1) * MAP_SHIFT)
        invariant Reached(slot, node, h, index)
      {
        LoadOnPath(slot, node, h, index);
        if Load(slot) == Empty {
          PathBroken(State(), h, index);
          return 0;
        }
        StepDown(slot, node, h, index);
        node := Load(slot).node;
        slot := NodeCell(Load(slot).node, SlotIndex(index, shift));
        UintIs(shift - MAP_SHIFT);
        shift := ToUint(shift - MAP_SHIFT);
        h := h - 1;
      }
      LoadOnPath(slot, node, 0, index);
      return match Load(slot) { case Stored(v) => v case _ => 0 };
    }

    /** Keys beyond the height are not stored. */
    lemma TooLarge(index: Key)
      requires Valid() && index > maxindex[height]
      ensures index !in items
    {
      FitsIsPrefixZero(index, height);
      if index in items {
        KeyFits(State(), index);
      }
    }

    /** The node missing on index's path at level l is added. */
    method AddPathNode(slot: CellRef, node: Node?, ghost l: nat, ghost index: Key, ghost bare: Option<Pos>)
      requires Steady() && Tight(State(), bare) && 1 <= l <= 11
      requires Reached(slot, node, l, index) && SlotFor(State(), l, Prefix(index, l)) == Empty
      requires bare.Some? ==> bare == Holder(height, l, Prefix(index, l))
      modifies repr
      ensures Steady() && Tight(State(), Some(Pos(l, Prefix(index, l))))
      ensures height == old(height) && items == old(items)
      ensures Reached(slot, node, l, index) && SlotFor(State(), l, Prefix(index, l)) != Empty
      ensures SlotFor(State(), l - 1, Prefix(index, l - 1)) == Empty
      ensures old(repr) <= repr && fresh(repr - old(repr))
    {
      hide Linked, Counted, Tight, Mirrored;
      AddChild(slot, node, l, Prefix(index, l), bare);
      assert Prefix(index, l - 1) / 64 == Prefix(index, l);
    }

    /** Lines 129-159 of insert: walk to index's bottom cell, adding what is missing.
        When nothing was missing the tree is untouched. */
    method Descend(index: Key) returns (slot: CellRef, node: Node?, ghost bare: Option<Pos>)
      requires Steady() && Tight(State(), None) && height <= 11
      requires Reached(RootCell, null, height, index)
      modifies repr
      ensures Steady() && Tight(State(), bare) && items == old(items) && height == old(height)
      ensures Reached(slot, node, 0, index)
      ensures bare == None ==> State() == old(State())
      ensures bare.Some? ==> bare == Holder(height, 0, index) && index !in items
      ensures old(repr) <= repr && fresh(repr - old(repr))
    {
      hide Linked, Counted, Tight, Mirrored, ReachedIn, ToUint;
      slot := RootCell;
      node := null;
      bare := None;
      var h := height;
      UintIs((h - 1) * MAP_SHIFT);
      var shift := ToUint((h - 1) * MAP_SHIFT);
      while h > 0
        invariant 0 <= h <= height && (h > 0 ==> shift == (h - 1) * MAP_SHIFT)
        invariant Steady() && Tight(State(), bare) && items == old(items) && height == old(height)
        invariant Reached(slot, node, h, index)
        invariant bare == None ==> State() == old(State())
        invariant bare.Some? ==> bare == Holder(height, h, Prefix(index, h))
        invariant bare.Some? ==> SlotFor(State(), h, Prefix(index, h)) == Empty
        invariant old(repr) <= repr && fresh(repr - old(repr))
      {
        LoadOnPath(slot, node, h, index);
        if Load(slot) == Empty {
          AddPathNode(slot, node, h, index, bare);
          bare := Some(Pos(h, Prefix(index, h)));
          LoadOnPath(slot, node, h, index);
        }
        StepDown(slot, node, h, index);
        node := Load(slot).node;
        slot := NodeCell(node, SlotIndex(index, shift));
        UintIs(shift - MAP_SHIFT);
        shift := ToUint(shift - MAP_SHIFT);
        h := h - 1;
      }
    }

    /** `radix_tree_insert`. */
    method Insert(index: Key, item: Item) returns (error: int)
      requires Valid()
      modifies repr
      ensures Valid() && old(repr) <= repr && fresh(repr - old(repr))
      ensures index in old(items) ==> error == -EEXIST && State() == old(State())
      ensures index !in old(items) ==>
                && error == 0 && items == old(items)[index := item]
                && height == Max(old(height), NeededHeight(index))
    {
      hide Linked, Counted, Tight, Mirrored, MaxIndexOf, NeededHeight;
      FitsIsPrefixZero(index, height);
      if index > maxindex[height] {
        TooLarge(index);
        Extend(index);
        FitsIsPrefixZero(index, height);
      }
      StartDescent(index);
      var slot, node, bare := Descend(index);
      LoadOnPath(slot, node, 0, index);
      if Load(slot) != Empty {
        return -EEXIST;
      }
      PathBroken(State(), 0, index);
      AddItem(slot, node, index, item, bare);
      assert index in items;
      return 0;
    }

    // ---------------------------------------------------------------- delete

    /** `radix_tree_node_free`. */
    method NodeFree(node: Node)
      requires node in live
      modifies this`live, this`repr
      ensures live == old(live) - {node} && repr == old(repr) - {node, node.slots}
    {
      live := live - {node};
      repr := repr - {node, node.slots};
    }

    /** Position pos no longer has a node. */
    ghost method Unplace(pos: Pos)
      requires Mirrored()
      modifies this`at, this`slots, this`counts
      ensures Mirrored()
      ensures State() ==
        old(State()).(at := old(at) - {pos}, slots := old(slots) - {pos}, counts := old(counts) - {pos})
    {
      hide Owned, SlotsAre, CountsAre;
      AllTaken(at, owner, slots, counts, pos);
      at := at - {pos};
      slots := slots - {pos};
      counts := counts - {pos};
    }

    /** `*slot = NULL; free(node);`: the writes. */
    method CutNode(slot: CellRef, node: Node, ghost l: nat, ghost p: nat)
      requires Mirrored() && Held(height, at, l, p) && slot == CellAt(l, p)
      requires 1 <= l && Pos(l, p) in at && at[Pos(l, p)] == node && node in live
      modifies this`rnode, this`at, this`slots, this`counts, this`live, this`repr
      modifies if slot.NodeCell? then {slot.node.slots} else {}
      ensures live == old(live) - {node} && repr == old(repr) - {node, node.slots}
      ensures Mirrored() && State() == WithoutNode(old(State()), l, p)
    {
      hide Separate, SlotsSync, CountsSync, SlotsAfter, RootAfter;
      Store(slot, Empty, l, p);
      NodeFree(node);
      Unplace(Pos(l, p));
    }

    /** The nodes that stay are still the tree's own after one is freed. */
    lemma StillConserved(before: map<Pos, Node>, pos: Pos)
      requires pos in before && at == before - {pos}
      requires forall spot :: spot in before ==> before[spot].slots in owner && owner[before[spot].slots] == spot
      requires live == before.Values - {before[pos]}
      requires this in repr && forall spot :: spot in at ==> before[spot] in repr && before[spot].slots in repr
      ensures Conserved()
    {
      ValuesRemove(before, pos);
    }

    /** The same as a step of the tree: one node above the last cleared cell is freed. */
    method RemoveNode(slot: CellRef, node: Node, ghost l: nat, ghost p: nat)
      requires Steady() && Tight(State(), Some(Pos(l, p)))
      requires Held(height, at, l, p) && slot == CellAt(l, p)
      requires 1 <= l && Pos(l, p) in at && at[Pos(l, p)] == node && counts[Pos(l, p)] == 0
      modifies repr
      ensures Sync() && Linked(State()) && Counted(State(), Holder(height, l, p)) && Tight(State(), None)
      ensures height == old(height) && items == old(items) && at == old(at) - {Pos(l, p)}
      ensures repr <= old(repr)
    {
      hide Linked, Counted, SlotsSync, CountsSync;
      ghost var before := State();
      CutNode(slot, node, l, p);
      StillConserved(before.at, Pos(l, p));
      hide Separate, Conserved;
      WithoutNodeLinked(before, l, p);
    }

    /** Line 350: the item's cell is cleared. */
    method ClearItem(slot: CellRef, ghost index: Key)
      requires Steady() && Tight(State(), None) && index in items
      requires Held(height, at, 0, index) && slot == CellAt(0, index)
      modifies repr
      ensures Sync() && Linked(State()) && Counted(State(), Holder(height, 0, index)) && Tight(State(), None)
      ensures height == old(height) && at == old(at) && repr == old(repr)
      ensures items == old(items) - {index}
    {
      hide Linked, Counted, Separate, SlotsSync, CountsSync, SlotsAfter, RootAfter;
      ghost var before := State();
      Store(slot, Empty, 0, index);
      items := items - {index};
      WithoutItemLinked(before, index);
      WithoutItemCounted(before, index);
      assert State() == WithoutItem(before, index);
    }

    /** Line 351: `--pathp[0].node->count`. */
    method DropCount(node: Node, ghost l: nat, ghost p: nat)
      requires Sync() && Linked(State()) && Counted(State(), Holder(height, l, p)) && Tight(State(), None)
      requires Held(height, at, l, p) && node == NodeAt(l, p)
      modifies repr
      ensures Steady() && Tight(State(), if node.count == 0 then Holder(height, l, p) else None)
      ensures l < height && Pos(l + 1, p / 64) in counts && counts[Pos(l + 1, p / 64)] == node.count
      ensures height == old(height) && at == old(at) && repr == old(repr) && items == old(items)
    {
      hide Linked, Counted, SlotsSync;
      ghost var before := State();
      Count(node, -1, l, p);
      WithCountCounted(before, l, p);
      assert State() == WithCount(before, l, p, -1);
    }

    /** Lines 328-343 of delete: record the path to index's bottom cell. */
    method FindPath(index: Key) returns (path: array<PathEntry>, d: nat, found: bool)
      requires Valid() && Reached(RootCell, null, height, index)
      ensures fresh(path) && path.Length == MAX_PATH
      ensures PathHolds(height, at, path[..], d, index)
      ensures found ==> d == height
      ensures !found ==> index !in items
    {
      hide Linked, Counted, Tight, Mirrored, ReachedIn, Conserved, TableReady, SlotFor, PathHolds, Prefix, ToUint;
      path := new PathEntry[MAX_PATH](_ => PathEntry(null, RootCell));
      d := 0;
      PathFirst(height, at, path[..], index);
      var h := height;
      UintIs((h - 1) * MAP_SHIFT);
      var shift := ToUint((h - 1) * MAP_SHIFT);
      while h > 0
        invariant 0 <= h && h + d == height && (h > 0 ==> shift == (h - 1) * MAP_SHIFT)
        invariant d < MAX_PATH && PathHolds(height, at, path[..], d, index)
        modifies path
      {
        EntryAt(path[..], d, index);
        LoadOnPath(path[d].slot, path[d].node, h, index);
        if Load(path[d].slot) == Empty {
          PathBroken(State(), h, index);
          found := false;
          return;
        }
        StepDown(path[d].slot, path[d].node, h, index);
        var node := Load(path[d].slot).node;
        PathMore(height, at, path[..], d, index, PathEntry(node, NodeCell(node, SlotIndex(index, shift))));
        ghost var was := path[..];
        path[d + 1] := PathEntry(node, NodeCell(node, SlotIndex(index, shift)));
        assert path[..] == was[d + 1 := path[d + 1]];
        d := d + 1;
        UintIs(shift - MAP_SHIFT);
        shift := ToUint(shift - MAP_SHIFT);
        h := h - 1;
      }
      found := true;
    }

    /** Lines 351-355 of delete: empty nodes are freed from the bottom upwards. */
    method Prune(path: array<PathEntry>, ghost index: Key)
      requires Sync() && Linked(State()) && Counted(State(), Holder(height, 0, index)) && Tight(State(), None)
      requires path.Length == MAX_PATH && path !in repr
      requires PathHolds(height, at, path[..], height, index)
      modifies repr
      ensures Steady() && Tight(State(), None)
      ensures height == old(height) && items == old(items) && repr <= old(repr)
      ensures forall pos :: pos in at ==> pos in old(at) && at[pos] == old(at)[pos]
    {
      hide Linked, Counted, Tight, Mirrored, ReachedIn;
      var d := height;
      while true
        invariant 0 <= d <= height == old(height) && items == old(items) && repr <= old(repr)
        invariant Sync() && Linked(State()) && Tight(State(), None)
        invariant Counted(State(), Holder(height, height - d, Prefix(index, height - d)))
        invariant PathHolds(height, at, path[..], d, index)
        invariant forall pos :: pos in at ==> pos in old(at) && at[pos] == old(at)[pos]
        decreases d
      {
        ghost var l := height - d;
        var node := path[d].node;
        EntryAt(path[..], d, index);
        if node == null {
          break;
        }
        DropCount(node, l, Prefix(index, l));
        if node.count != 0 {
          break;
        }
        d := d - 1;
        EntryAt(path[..], d, index);
        PathKept(height, at, path[..], d, index);
        RemoveNode(path[d].slot, path[d + 1].node, l + 1, Prefix(index, l + 1));
      }
    }

    /** What a path entry names. */
    lemma EntryAt(path: seq<PathEntry>, d: nat, index: Key)
      requires PathHolds(height, at, path, d, index)
      ensures Held(height, at, height - d, Prefix(index, height - d))
      ensures path[d].slot == CellAt(height - d, Prefix(index, height - d))
      ensures path[d].node == NodeAt(height - d, Prefix(index, height - d))
      ensures path[d].node == null <==> d == 0
      ensures ReachedIn(height, at, path[d].slot, path[d].node, height - d, index)
      ensures d > 0 ==> PathHolds(height, at, path, d - 1, index)
    {
      assert ReachedIn(height, at, path[d].slot, path[d].node, height - d, index);
    }

    /** Lines 357-359: an empty tree gets height 0 again. */
    method ResetHeight()
      requires Steady() && Tight(State(), None) && height <= 11
      modifies repr
      ensures Steady() && WellFormed(State())
      ensures items == old(items) && at == old(at) && repr == old(repr)
      ensures height == if items == map[] then 0 else old(height)
    {
      hide Linked, Counted, Tight, Mirrored;
      if rnode == Empty {
        HeightFree(State(), 0);
        EmptyCounted(State(), 0);
        height := 0;
      } else {
        RootStores(State());
      }
    }

    /** `radix_tree_delete`: the removed item, or 0 for NULL. */
    method Delete(index: Key) returns (ret: int)
      requires Valid()
      modifies repr
      ensures Valid() && repr <= old(repr)
      ensures ret == if index in old(items) then old(items)[index] else 0
      ensures index !in old(items) ==> State() == old(State())
      ensures items == old(items) - {index}
      ensures height == if items == map[] then 0 else old(height)
      ensures Pruned(old(at), at, items)
    {
      hide Linked, Counted, Tight, Mirrored, MaxIndexOf, Occupied, ReachedIn;
      ghost var before := State();
      forall pos
        ensures pos in before.at ==> Occupied(before.items, pos)
      {
        NodesExact(before, pos);
      }
      if index > maxindex[height] {
        TooLarge(index);
        return 0;
      }
      StartDescent(index);
      var path, d, found := FindPath(index);
      if !found {
        return 0;
      }
      EntryAt(path[..], d, index);
      LoadOnPath(path[d].slot, path[d].node, 0, index);
      ret := match Load(path[d].slot) { case Stored(v) => v case _ => 0 };
      if Load(path[d].slot) == Empty {
        PathBroken(State(), 0, index);
        return;
      }
      ClearItem(path[d].slot, index);
      Prune(path, index);
      forall pos
        ensures pos in at <==> pos in before.at && Occupied(items, pos)
      {
        NodesLeft(before, State(), pos);
      }
      ResetHeight();
    }
  }
}

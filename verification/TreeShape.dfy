/** The canonical form of the tree and the number of its nodes. */
module TreeShape {
  import opened Common
  import opened Words
  import opened Digits
  import opened RadixLayout
  import RadixTree

  /** A cell with the address of the node forgotten. */
  datatype Mark = Null | Node | Value(item: Item)

  function MarkOf(s: Slot): Mark {
    match s
    case Empty => Null
    case Child(_) => Mark.Node
    case Stored(v) => Value(v)
  }

  /** Equal up to where the nodes are in memory. */
  ghost predicate SameShape(layout: Layout, other: Layout)
    requires Wired0(layout) && Wired0(other) && layout.counts.Keys == layout.at.Keys
    requires other.counts.Keys == other.at.Keys
  {
    && layout.height == other.height && MarkOf(layout.root) == MarkOf(other.root)
    && layout.at.Keys == other.at.Keys
    && (forall pos :: pos in layout.at ==> layout.counts[pos] == other.counts[pos])
    && (forall pos, i :: pos in layout.at && 0 <= i < MAP_SIZE ==>
          MarkOf(layout.slots[pos][i]) == MarkOf(other.slots[pos][i]))
  }

  lemma SameCell(layout: Layout, other: Layout, l: nat, p: nat)
    requires layout.at.Keys == other.at.Keys && layout.items == other.items
    ensures MarkOf(SlotFor(layout, l, p)) == MarkOf(SlotFor(other, l, p))
  {
  }

  /** Occupancy does not depend on node addresses. */
  lemma {:induction false} SameCount(s: seq<Slot>, t: seq<Slot>)
    requires |s| == |t| && forall i :: 0 <= i < |s| ==> MarkOf(s[i]) == MarkOf(t[i])
    ensures OccCount(s) == OccCount(t)
  {
    if s != [] {
      var n := |s| - 1;
      assert forall i :: 0 <= i < n ==> s[..n][i] == s[i] && t[..n][i] == t[i];
      SameCount(s[..n], t[..n]);
      assert MarkOf(s[n]) == MarkOf(t[n]);
    }
  }

  lemma SameNodes(layout: Layout, other: Layout)
    requires WellFormed(layout) && WellFormed(other) && layout.height == other.height && layout.items == other.items
    ensures layout.at.Keys == other.at.Keys
  {
    hide Linked, Counted, Tight, Occupied;
    forall pos
      ensures pos in layout.at <==> pos in other.at
    {
      NodesExact(layout, pos);
      NodesExact(other, pos);
    }
  }

  lemma SameSlots(layout: Layout, other: Layout, pos: Pos)
    requires Linked(layout) && Linked(other) && layout.at.Keys == other.at.Keys
    requires layout.items == other.items && pos in layout.at
    ensures |layout.slots[pos]| == |other.slots[pos]| == MAP_SIZE
    ensures forall i :: 0 <= i < MAP_SIZE ==> MarkOf(layout.slots[pos][i]) == MarkOf(other.slots[pos][i])
  {
    hide SlotFor, Hung, MarkOf;
    forall i | 0 <= i < MAP_SIZE
      ensures MarkOf(layout.slots[pos][i]) == MarkOf(other.slots[pos][i])
    {
      assert layout.slots[pos][i] == SlotFor(layout, pos.level - 1, Down(pos.prefix, i));
      assert other.slots[pos][i] == SlotFor(other, pos.level - 1, Down(pos.prefix, i));
      SameCell(layout, other, pos.level - 1, Down(pos.prefix, i));
    }
  }

  /** Height and contents determine the tree: two well-formed trees that agree on
      both differ at most in the addresses of their nodes. */
  lemma Canonical(layout: Layout, other: Layout)
    requires WellFormed(layout) && WellFormed(other) && layout.height == other.height && layout.items == other.items
    ensures SameShape(layout, other)
  {
    hide OccCount, SlotFor, Hung, MarkOf;
    SameNodes(layout, other);
    SameCell(layout, other, layout.height, 0);
    forall pos | pos in layout.at
      ensures layout.counts[pos] == other.counts[pos]
      ensures forall i :: 0 <= i < MAP_SIZE ==> MarkOf(layout.slots[pos][i]) == MarkOf(other.slots[pos][i])
    {
      SameSlots(layout, other, pos);
      SameCount(layout.slots[pos], other.slots[pos]);
    }
  }

  // -------------------------------------------------------------------- size

  /** The positions of level l on the paths of the given keys. */
  ghost function LevelOf(keys: set<Key>, l: nat): set<Pos> {
    set k | k in keys :: Pos(l, Prefix(k, l))
  }

  lemma {:induction false} LevelSize(keys: set<Key>, l: nat)
    ensures |LevelOf(keys, l)| <= |keys|
    decreases keys
  {
    if keys != {} {
      var k :| k in keys;
      LevelSize(keys - {k}, l);
      assert LevelOf(keys, l) == LevelOf(keys - {k}, l) + {Pos(l, Prefix(k, l))};
    } else {
      assert LevelOf(keys, l) == {};
    }
  }

  /** The positions of levels 1 to h on those paths. */
  ghost function Paths(keys: set<Key>, h: nat): set<Pos> {
    if h == 0 then {} else Paths(keys, h - 1) + LevelOf(keys, h)
  }

  lemma {:induction false} PathsSize(keys: set<Key>, h: nat)
    ensures |Paths(keys, h)| <= h * |keys|
  {
    if h > 0 {
      PathsSize(keys, h - 1);
      LevelSize(keys, h);
      UnionSize(Paths(keys, h - 1), LevelOf(keys, h));
      assert h * |keys| == (h - 1) * |keys| + |keys|;
    }
  }

  lemma UnionSize<T>(a: set<T>, b: set<T>)
    ensures |a + b| <= |a| + |b|
  {
    assert |a + b| + |a * b| == |a| + |b|;
  }

  lemma {:induction false} PathsHas(keys: set<Key>, h: nat, k: Key, l: nat)
    requires k in keys && 1 <= l <= h
    ensures Pos(l, Prefix(k, l)) in Paths(keys, h)
  {
    if l < h {
      PathsHas(keys, h - 1, k, l);
    }
  }

  /** A tree has at most height times as many nodes as stored items. */
  lemma SpaceBound(layout: Layout)
    requires WellFormed(layout)
    ensures |layout.at| <= layout.height * |layout.items|
  {
    hide Linked, Counted, Tight, Paths;
    forall pos | pos in layout.at
      ensures pos in Paths(layout.items.Keys, layout.height)
    {
      NodesExact(layout, pos);
      var k :| k in layout.items && Prefix(k, pos.level) == pos.prefix;
      PathsHas(layout.items.Keys, layout.height, k, pos.level);
    }
    SubsetSize(layout.at.Keys, Paths(layout.items.Keys, layout.height));
    PathsSize(layout.items.Keys, layout.height);
  }

  lemma {:induction false} ValuesSize<K, V>(m: map<K, V>)
    ensures |m.Values| <= |m|
    decreases |m|
  {
    if k :| k in m {
      var rest := m - {k};
      assert m.Keys == rest.Keys + {k};
      ValuesSize(rest);
      assert m.Values == rest.Values + {m[k]} by {
        assert forall j :: j in m ==> j == k || (j in rest && rest[j] == m[j]);
      }
      UnionSize(rest.Values, {m[k]});
    } else {
      assert m.Values == {};
    }
  }

  /** The cells with these indices, one below the other, lead from a cell to node n. */
  ghost predicate Leads(from: Slot, path: seq<nat>, n: RadixLayout.Node)
    reads *
    decreases |path|
  {
    from.Child? &&
    if path == [] then from.node == n
    else path[0] < from.node.slots.Length && Leads(from.node.slots[path[0]], path[1..], n)
  }

  /** Node n can be reached from the root cell. */
  ghost predicate Reachable(root: RadixTree.Tree, n: RadixLayout.Node)
    reads *
  {
    exists path :: Leads(root.rnode, path, n)
  }

  /** What a cell of a live node holds. */
  lemma CellHolds(root: RadixTree.Tree, pos: Pos, i: nat)
    requires root.Valid() && pos in root.at && pos.level >= 1 && (i < 64 || i < root.at[pos].slots.Length)
    ensures root.at[pos].slots.Length == 64
    ensures root.at[pos].slots[i] == SlotFor(root.State(), pos.level - 1, Down(pos.prefix, i))
  {
    hide Counted, Tight, Hung, SlotFor;
    assert root.slots[pos][i] == SlotFor(root.State(), pos.level - 1, Down(pos.prefix, i));
  }

  /** Following cells from a live node stays among the live nodes. */
  lemma {:induction false} LeadsToLive(root: RadixTree.Tree, pos: Pos, path: seq<nat>, n: RadixLayout.Node)
    requires root.Valid() && pos in root.at && Leads(Child(root.at[pos]), path, n)
    ensures n in root.at.Values
    decreases |path|
  {
    hide RadixTree.Tree.Mirrored, RadixTree.Tree.Conserved, Counted, Tight, Hung, Wired;
    if path != [] {
      CellHolds(root, pos, path[0]);
      LeadsToLive(root, Pos(pos.level - 1, Down(pos.prefix, path[0])), path[1..], n);
    }
  }

  /** One more cell at the end of a path. */
  lemma {:induction false} LeadsOn(from: Slot, path: seq<nat>, n: RadixLayout.Node, i: nat, m: RadixLayout.Node)
    requires Leads(from, path, n) && i < n.slots.Length && n.slots[i] == Child(m)
    ensures Leads(from, path + [i], m)
    decreases |path|
  {
    if path == [] {
      assert [i][1..] == [];
    } else {
      LeadsOn(from.node.slots[path[0]], path[1..], n, i, m);
      assert (path + [i])[1..] == path[1..] + [i];
    }
  }

  /** Every live node can be reached. */
  lemma {:induction false} LiveIsReachable(root: RadixTree.Tree, pos: Pos)
    requires root.Valid() && pos in root.at
    ensures Reachable(root, root.at[pos])
    decreases root.height - pos.level
  {
    hide RadixTree.Tree.Mirrored, RadixTree.Tree.Conserved, Counted, Tight, Hung;
    if pos.level == root.height {
      assert Leads(root.rnode, [], root.at[pos]);
    } else {
      var up := Up(pos);
      assert up in root.at;
      LiveIsReachable(root, up);
      var path :| Leads(root.rnode, path, root.at[up]);
      CellHolds(root, up, pos.prefix % 64);
      DownUp(pos.prefix);
      LeadsOn(root.rnode, path, root.at[up], pos.prefix % 64, root.at[pos]);
    }
  }

  /** The nodes allocated and not freed are exactly those that a chain of cells from the
      root leads to, and there are at most height times as many of them as stored items. */
  lemma LiveNodes(root: RadixTree.Tree, n: RadixLayout.Node)
    requires root.Valid()
    ensures n in root.live <==> Reachable(root, n)
    ensures |root.live| <= root.height * |root.items|
  {
    hide RadixTree.Tree.Mirrored, Counted, Tight, Hung, Leads;
    if n in root.live {
      var pos :| pos in root.at && root.at[pos] == n;
      LiveIsReachable(root, pos);
    }
    if Reachable(root, n) {
      var path :| Leads(root.rnode, path, n);
      LeadsChild(root.rnode, path, n);
      LeadsToLive(root, Pos(root.height, 0), path, n);
    }
    ValuesSize(root.at);
    SpaceBound(root.State());
  }

  lemma LeadsChild(from: Slot, path: seq<nat>, n: RadixLayout.Node)
    requires Leads(from, path, n)
    ensures from.Child?
  {
  }

  /** A full-height root uses only its first 16 slots: keys have 64 bits. */
  lemma TopSlots(layout: Layout, i: nat)
    requires WellFormed(layout) && layout.height == 11 && 16 <= i < MAP_SIZE && Pos(11, 0) in layout.at
    ensures layout.slots[Pos(11, 0)][i] == Empty
  {
    hide Counted, Tight, Hung, FirstKey, Prefix, Occupied;
    assert layout.slots[Pos(11, 0)][i] == SlotFor(layout, 10, Down(0, i));
    if Pos(10, i) in layout.at {
      NodesExact(layout, Pos(10, i));
      NoSuchKey(layout.items, i);
    }
  }

  lemma NoSuchKey(items: map<Key, Item>, i: nat)
    requires i >= 16
    ensures !Occupied(items, Pos(10, i))
  {
    hide FirstKey, Prefix;
    forall k | k in items
      ensures Prefix(k, 10) != i
    {
      TopLevel();
      PrefixGalois(k, 16, 10);
    }
  }
}


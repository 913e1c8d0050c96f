/** Whole runs of the radix tree: the abstract machine that insert, lookup and
    delete refine, the canonical form of its trees, and their size. */
module TreeRuns {
  import opened Common
  import opened Words
  import opened Digits
  import opened MaxIndex
  import opened RadixLayout
  import opened RadixTree
  import TreeShape

  /** What a caller can observe of a tree, and what determines its shape. */
  datatype Abs = Abs(height: nat, items: map<Key, Item>)

  datatype Op = Insert(key: Key, item: Item) | Lookup(key: Key) | Delete(key: Key)

  const START: Abs := Abs(0, map[])

  function Get(items: map<Key, Item>, k: Key): int {
    if k in items then items[k] else 0
  }

  function Step(s: Abs, op: Op): (Abs, int) {
    match op
    case Insert(k, v) =>
      if k in s.items then (s, -EEXIST) else (Abs(Max(s.height, NeededHeight(k)), s.items[k := v]), 0)
    case Lookup(k) => (s, Get(s.items, k))
    case Delete(k) =>
      var left := s.items - {k};
      (Abs(if left == map[] then 0 else s.height, left), Get(s.items, k))
  }

  /** The state after a run. */
  function Run(s: Abs, ops: seq<Op>): Abs {
    if ops == [] then s else Step(Run(s, ops[..|ops| - 1]), ops[|ops| - 1]).0
  }

  /** What each operation of a run returns. */
  function Returns(s: Abs, ops: seq<Op>): seq<int> {
    if ops == [] then []
    else Returns(s, ops[..|ops| - 1]) + [Step(Run(s, ops[..|ops| - 1]), ops[|ops| - 1]).1]
  }

  /** Every reachable state: keys fit the height, and an empty tree has height 0. */
  ghost predicate Reachable(s: Abs) {
    && s.height <= 11 && (s.items == map[] ==> s.height == 0)
    && forall k :: k in s.items ==> NeededHeight(k) <= s.height
  }

  ghost function View(root: Tree): Abs
    reads root
  {
    Abs(root.height, root.items)
  }

  /** Any run of operations on a tree is the run of the abstract machine. */
  method Execute(root: Tree, ops: seq<Op>) returns (rets: seq<int>)
    requires root.Valid()
    modifies root.repr
    ensures root.Valid()
    ensures View(root) == Run(old(View(root)), ops)
    ensures rets == Returns(old(View(root)), ops)
  {
    hide Tree.Mirrored, Linked, Counted, Tight, NeededHeight;
    rets := [];
    var i := 0;
    while i < |ops|
      invariant 0 <= i <= |ops| && root.Valid() && fresh(root.repr - old(root.repr))
      invariant View(root) == Run(old(View(root)), ops[..i])
      invariant rets == Returns(old(View(root)), ops[..i])
    {
      assert ops[..i + 1][..i] == ops[..i];
      var r := ExecuteOne(root, ops[i]);
      rets := rets + [r];
      i := i + 1;
    }
    assert ops[..|ops|] == ops;
  }

  method ExecuteOne(root: Tree, op: Op) returns (r: int)
    requires root.Valid()
    modifies root.repr
    ensures root.Valid() && fresh(root.repr - old(root.repr))
    ensures (View(root), r) == Step(old(View(root)), op)
  {
    hide Tree.Mirrored, Linked, Counted, Tight, NeededHeight;
    match op {
      case Insert(k, v) => r := root.Insert(k, v);
      case Lookup(k) => r := root.Lookup(k);
      case Delete(k) => r := root.Delete(k);
    }
  }

  // ------------------------------------------------------------ invariants

  lemma ReachableStep(s: Abs, op: Op)
    requires Reachable(s)
    ensures Reachable(Step(s, op).0)
  {
    hide NeededHeight;
    NeededHeightBound(op.key);
    if op.Insert? {
      assert op.key in s.items[op.key := op.item];
    }
  }

  /** What every run keeps, whatever the operations. */
  lemma {:induction false} ReachableRun(s: Abs, ops: seq<Op>)
    requires Reachable(s)
    ensures Reachable(Run(s, ops))
  {
    hide NeededHeight;
    if ops != [] {
      ReachableRun(s, ops[..|ops| - 1]);
      ReachableStep(Run(s, ops[..|ops| - 1]), ops[|ops| - 1]);
    }
  }

  // ---------------------------------------------------- keys do not interact

  /** What the cell of key k holds after ops, when only k's own operations count. */
  function CellAfter(v: int, ops: seq<Op>, k: Key): int {
    if ops == [] then v
    else
      var w := CellAfter(v, ops[..|ops| - 1], k);
      match ops[|ops| - 1]
      case Insert(j, x) => if j == k && w == 0 then x else w
      case Lookup(_) => w
      case Delete(j) => if j == k then 0 else w
  }

  /** Distinct keys have distinct cells: a run acts on every key as if the
      operations on the other keys were not there. */
  lemma {:induction false} RunActsPerKey(s: Abs, ops: seq<Op>, k: Key)
    ensures Get(Run(s, ops).items, k) == CellAfter(Get(s.items, k), ops, k)
  {
    hide NeededHeight;
    if ops != [] {
      RunActsPerKey(s, ops[..|ops| - 1], k);
    }
  }

  /** Every return value of a run, from the history of its own key alone. */
  lemma {:induction false} ReturnsPerKey(s: Abs, ops: seq<Op>, i: nat)
    requires i < |ops|
    ensures |Returns(s, ops)| == |ops|
    ensures var cell := CellAfter(Get(s.items, ops[i].key), ops[..i], ops[i].key);
      Returns(s, ops)[i] == if ops[i].Insert? then (if cell == 0 then 0 else -EEXIST) else cell
  {
    hide NeededHeight, Run, CellAfter;
    var last := |ops| - 1;
    ReturnsLength(s, ops[..last]);
    if i == last {
      RunActsPerKey(s, ops[..i], ops[i].key);
    } else {
      ReturnsPerKey(s, ops[..last], i);
      assert ops[..last][..i] == ops[..i];
    }
  }

  lemma {:induction false} ReturnsLength(s: Abs, ops: seq<Op>)
    ensures |Returns(s, ops)| == |ops|
  {
    if ops != [] {
      ReturnsLength(s, ops[..|ops| - 1]);
    }
  }

  /** Deleting a key just inserted restores the map always, and the whole tree
      exactly when the insert did not have to raise a non-empty tree. */
  lemma DeleteUndoesInsert(s: Abs, k: Key, v: Item)
    requires Reachable(s) && k !in s.items
    ensures Run(s, [Insert(k, v), Delete(k)]).items == s.items
    ensures Run(s, [Insert(k, v), Delete(k)]) == s <==> NeededHeight(k) <= s.height || s.items == map[]
  {
    hide NeededHeight;
    var ops := [Insert(k, v), Delete(k)];
    assert ops[..1] == [Insert(k, v)] && ops[..1][..0] == [];
    assert Run(s, ops[..1]) == Step(s, Insert(k, v)).0;
    assert s.items[k := v] - {k} == s.items;
  }

  // ------------------------------------------------------ least heights

  /** The height is the least that fits the stored keys. */
  ghost predicate Least(s: Abs) {
    s.height > 0 ==> exists k :: k in s.items && NeededHeight(k) == s.height
  }

  ghost predicate InsertsOnly(ops: seq<Op>) {
    forall o :: o in ops ==> o.Insert?
  }

  lemma {:induction false} InsertsKeepLeast(s: Abs, ops: seq<Op>)
    requires InsertsOnly(ops) && Least(s)
    ensures Least(Run(s, ops))
  {
    hide NeededHeight;
    if ops != [] {
      var before := Run(s, ops[..|ops| - 1]);
      InsertsKeepLeast(s, ops[..|ops| - 1]);
      var o := ops[|ops| - 1];
      assert o in ops;
      if o.key !in before.items {
        InsertKeepsLeast(before, o.key, o.item);
      }
    }
  }

  lemma InsertKeepsLeast(s: Abs, k: Key, v: Item)
    requires Least(s) && k !in s.items
    ensures Least(Step(s, Insert(k, v)).0)
  {
    hide NeededHeight;
    var t := Step(s, Insert(k, v)).0;
    if t.height == NeededHeight(k) {
      assert k in t.items;
    } else {
      var j :| j in s.items && NeededHeight(j) == s.height;
      assert j in t.items;
    }
  }

  /** The stored keys alone determine a least height. */
  lemma LeastUnique(s: Abs, t: Abs)
    requires Reachable(s) && Reachable(t) && Least(s) && Least(t) && s.items == t.items
    ensures s == t
  {
    hide NeededHeight;
  }

  ghost predicate DistinctKeys(ops: seq<Op>) {
    forall i, j :: 0 <= i < j < |ops| ==> ops[i].key != ops[j].key
  }

  /** Inserting distinct keys stores exactly the given bindings. */
  lemma {:induction false} InsertsStore(ops: seq<Op>, k: Key, v: Item)
    requires InsertsOnly(ops) && DistinctKeys(ops)
    ensures k in Run(START, ops).items && Run(START, ops).items[k] == v <==> Insert(k, v) in ops
  {
    hide NeededHeight;
    if ops != [] {
      var before := ops[..|ops| - 1];
      var o := ops[|ops| - 1];
      assert ops == before + [o];
      forall i | 0 <= i < |before|
        ensures before[i].key != o.key
      {
        assert before[i] == ops[i];
      }
      InsertsStore(before, k, v);
      if o.key in Run(START, before).items {
        InsertsStore(before, o.key, Run(START, before).items[o.key]);
      }
    }
  }

  /** Inserting the same bindings, with distinct keys, in any two orders gives the
      same state, of the least height that fits the greatest key. */
  lemma InsertOrderIrrelevant(ops: seq<Op>, other: seq<Op>)
    requires InsertsOnly(ops) && DistinctKeys(ops) && InsertsOnly(other) && DistinctKeys(other)
    requires forall o :: o in ops <==> o in other
    ensures Run(START, ops) == Run(START, other)
    ensures Least(Run(START, ops)) && Reachable(Run(START, ops))
  {
    hide NeededHeight, Run;
    var s, t := Run(START, ops), Run(START, other);
    RunFromStart(ops);
    RunFromStart(other);
    SameItems(ops, other);
    SameItems(other, ops);
    LeastUnique(s, t);
  }

  lemma RunFromStart(ops: seq<Op>)
    requires InsertsOnly(ops)
    ensures Least(Run(START, ops)) && Reachable(Run(START, ops))
  {
    hide Run;
    InsertsKeepLeast(START, ops);
    ReachableRun(START, ops);
  }

  lemma SameItems(ops: seq<Op>, other: seq<Op>)
    requires InsertsOnly(ops) && DistinctKeys(ops) && InsertsOnly(other) && DistinctKeys(other)
    requires forall o :: o in ops <==> o in other
    ensures forall k :: k in Run(START, ops).items ==>
              k in Run(START, other).items && Run(START, other).items[k] == Run(START, ops).items[k]
  {
    hide Run;
    forall k | k in Run(START, ops).items
      ensures k in Run(START, other).items && Run(START, other).items[k] == Run(START, ops).items[k]
    {
      InsertsStore(ops, k, Run(START, ops).items[k]);
      InsertsStore(other, k, Run(START, ops).items[k]);
    }
  }

  /** A valid tree is in a reachable state. */
  lemma ValidIsReachable(root: Tree)
    requires root.Valid()
    ensures Reachable(View(root))
  {
    hide Tree.Mirrored, Counted, Tight, Wired, NeededHeight;
    forall k | k in root.items
      ensures NeededHeight(k) <= root.height
    {
      KeyFits(root.State(), k);
      NeededHeightLeast(k, root.height);
    }
  }

  /** Trees in the same abstract state are equal up to node addresses. */
  lemma SameStateSameShape(a: Tree, b: Tree)
    requires a.Valid() && b.Valid() && View(a) == View(b)
    ensures TreeShape.SameShape(a.State(), b.State())
  {
    TreeShape.Canonical(a.State(), b.State());
  }

  /** Trees built from nothing by inserting the same bindings, with distinct keys, in any
      two orders are equal up to node addresses. */
  lemma InsertOrdersSameShape(a: Tree, b: Tree, ops: seq<Op>, other: seq<Op>)
    requires a.Valid() && b.Valid() && View(a) == Run(START, ops) && View(b) == Run(START, other)
    requires InsertsOnly(ops) && DistinctKeys(ops) && InsertsOnly(other) && DistinctKeys(other)
    requires forall o :: o in ops <==> o in other
    ensures TreeShape.SameShape(a.State(), b.State())
  {
    hide Run, Tree.Valid, TreeShape.SameShape;
    InsertOrderIrrelevant(ops, other);
    SameStateSameShape(a, b);
  }
}

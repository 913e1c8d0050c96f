/** The buffer registry of io_mm.c: a table of DMA buffers and a radix tree from
    buffer address to table index, kept inverse to each other. */
module BufferRegistry {
  import opened Common
  import opened Words
  import opened MaxIndex
  import opened RadixLayout
  import opened RadixTree

  const MAX_IO_PTR_NUM: int := 4096
  const SPDK_MM_ENT_OFFSET: int := 996

  /** Which allocator a live pointer came from. */
  datatype Source = User | Spdk

  /** `struct mm_entry`. */
  datatype MmEntry = MmEntry(ptr: Key, used: bool)

  /** A pointer is handed out (0 is NULL), or an assertion stops the process. */
  datatype Outcome = Returned(ptr: Key) | Aborted

  /** What an allocator's realloc did: nothing (it returned NULL), released the
      buffer (it returned NULL), or gave a buffer at ptr. */
  datatype Realloc = Kept | Gone | Now(ptr: Key)

  /** Table and tree are inverse: index i holds k exactly when the tree maps k to i + 996. */
  ghost predicate Inverse(table: seq<MmEntry>, items: map<Key, Item>) {
    && (forall i :: 0 <= i < |table| && table[i].used ==>
          table[i].ptr in items && items[table[i].ptr] == i + SPDK_MM_ENT_OFFSET)
    && (forall k :: k in items ==>
          && SPDK_MM_ENT_OFFSET <= items[k] < SPDK_MM_ENT_OFFSET + |table|
          && table[items[k] - SPDK_MM_ENT_OFFSET] == MmEntry(k, true))
  }

  /** The registered addresses are the live DMA buffers. */
  ghost predicate Tracks(items: map<Key, Item>, live: map<Key, Source>) {
    forall k :: k in items <==> k in live && live[k] == Spdk
  }

  /** The live pointers after a realloc of ptr. */
  ghost function AfterRealloc(live: map<Key, Source>, ptr: Key, outcome: Realloc): map<Key, Source> {
    match outcome
    case Kept => live
    case Gone => live - {ptr}
    case Now(p) => (live - {ptr})[p := if ptr in live then live[ptr] else User]
  }

  /** The live DMA buffers. */
  ghost function SpdkLive(live: map<Key, Source>): set<Key> {
    set k | k in live && live[k] == Spdk
  }

  ghost function UsedSlots(table: seq<MmEntry>): set<int> {
    set i | 0 <= i < |table| && table[i].used
  }

  /** Forgetting the entry of one key on both sides. */
  lemma InverseRemove(table: seq<MmEntry>, items: map<Key, Item>, k: Key)
    requires Inverse(table, items) && k in items
    ensures var i := items[k] - SPDK_MM_ENT_OFFSET;
      && 0 <= i < |table| && table[i] == MmEntry(k, true)
      && Inverse(table[i := MmEntry(k, false)], items - {k})
  {
  }

  lemma InverseAdd(table: seq<MmEntry>, items: map<Key, Item>, i: nat, k: Key)
    requires Inverse(table, items) && i < |table| && !table[i].used && k !in items && i + SPDK_MM_ENT_OFFSET < WORD
    ensures Inverse(table[i := MmEntry(k, true)], items[k := i + SPDK_MM_ENT_OFFSET])
  {
  }

  lemma UsedSlotsRemove(table: seq<MmEntry>, i: nat, k: Key)
    requires i < |table| && table[i].used
    ensures UsedSlots(table) == UsedSlots(table[i := MmEntry(k, false)]) + {i}
    ensures i !in UsedSlots(table[i := MmEntry(k, false)])
  {
  }

  /** As many table slots are used as buffers are registered. */
  lemma {:induction false} InverseSize(table: seq<MmEntry>, items: map<Key, Item>)
    requires Inverse(table, items)
    ensures |UsedSlots(table)| == |items|
    decreases |items|
  {
    if k :| k in items {
      var i := items[k] - SPDK_MM_ENT_OFFSET;
      InverseRemove(table, items, k);
      UsedSlotsRemove(table, i, k);
      hide Inverse, UsedSlots;
      assert items.Keys == (items - {k}).Keys + {k};
      InverseSize(table[i := MmEntry(k, false)], items - {k});
    } else {
      assert UsedSlots(table) == {};
    }
  }

  class Registry {
    var table: array<MmEntry>
    var tableCount: int
    var tree: Tree
    /** The live pointers, by the allocator that produced them. */
    ghost var live: map<Key, Source>

    ghost predicate Shape()
      reads this, tree, tree.repr, tree.maxindex, table
    {
      && table.Length == MAX_IO_PTR_NUM && tableCount == 0
      && tree.Valid()
      && {this, table} !! tree.repr + {tree.maxindex} && this != table as object
      && !table[MAX_IO_PTR_NUM - 1].used
      && Inverse(table[..], tree.items)
      && 0 !in tree.items && 0 !in live
    }

    /** Between calls: tree and table agree with each other and with the allocators. */
    ghost predicate Valid()
      reads this, tree, tree.repr, tree.maxindex, table
    {
      Shape() && Tracks(tree.items, live)
    }

    /** NULL is never live. */
    lemma NoNull()
      requires Valid()
      ensures 0 !in live
    {
    }

    /** The zeroed statics, and `spdkfs_mm_init`. */
    constructor ()
      ensures Valid() && tree.items == map[] && live == map[]
      ensures fresh(table) && fresh(tree) && fresh(tree.repr) && fresh(tree.maxindex)
    {
      hide Linked, Counted, Tight, MaxIndexOf, Tree.Mirrored, WellFormed;
      var maxindex := new Key[MAX_PATH](_ => 0);
      InitMaxIndex(maxindex);
      table := new MmEntry[MAX_IO_PTR_NUM](_ => MmEntry(0, false));
      tableCount := 0;
      tree := new Tree(maxindex);
      live := map[];
    }

    /** `find_next_entry`: the first unused entry. */
    method FindNextEntry() returns (r: int)
      requires table.Length == MAX_IO_PTR_NUM && tableCount == 0
      ensures r == -1 ==> forall i :: 0 <= i < MAX_IO_PTR_NUM - 1 ==> table[i].used
      ensures r != -1 ==> 0 <= r < MAX_IO_PTR_NUM - 1 && !table[r].used && forall i :: 0 <= i < r ==> table[i].used
    {
      if tableCount >= MAX_IO_PTR_NUM {
        return -1;
      }
      var i := tableCount;
      while i != (tableCount + MAX_IO_PTR_NUM - 1) % MAX_IO_PTR_NUM
        invariant 0 <= i <= MAX_IO_PTR_NUM - 1
        invariant forall j :: 0 <= j < i ==> table[j].used
        decreases MAX_IO_PTR_NUM - i
      {
        if !table[i].used {
          return i;
        }
        i := (i + 1) % MAX_IO_PTR_NUM;
      }
      return -1;
    }

    /** The scan fails exactly when 4095 buffers are registered. */
    lemma FullTable()
      requires Shape()
      ensures (forall i :: 0 <= i < MAX_IO_PTR_NUM - 1 ==> table[i].used) <==> |tree.items| == MAX_IO_PTR_NUM - 1
    {
      hide Tree.Valid;
      InverseSize(table[..], tree.items);
      IntervalIs(MAX_IO_PTR_NUM - 1);
      var all := Interval(MAX_IO_PTR_NUM - 1);
      hide Inverse, Interval;
      assert UsedSlots(table[..]) <= all;
      if |tree.items| == MAX_IO_PTR_NUM - 1 {
        SubsetSize(UsedSlots(table[..]), all);
        forall i | 0 <= i < MAX_IO_PTR_NUM - 1
          ensures table[i].used
        {
          assert i in all;
        }
      }
      if forall i :: 0 <= i < MAX_IO_PTR_NUM - 1 ==> table[i].used {
        assert UsedSlots(table[..]) == all;
      }
    }

    /** `spdkfs_mm_find`. */
    method Find(ptr: Key) returns (found: bool)
      requires tree.Valid()
      ensures found <==> ptr in tree.items
    {
      var item := tree.Lookup(ptr);
      found := item != 0;
    }

    /** `spdkfs_malloc`; spdkMem and userMem are what the two allocators give when asked. */
    method Malloc(size: nat, spdkMem: Key, userMem: Key) returns (r: Outcome)
      requires Valid()
      requires spdkMem !in live && userMem !in live
      modifies this, table, tree.repr
      ensures Valid() && tree == old(tree) && fresh(tree.repr - old(tree.repr)) && table == old(table)
      ensures size % 4096 != 0 ==>
                if userMem == 0 then r == Aborted && live == old(live)
                else r == Returned(userMem) && live == old(live)[userMem := User]
      ensures size % 4096 == 0 && spdkMem == 0 ==>
                r == Returned(userMem) && live == if userMem == 0 then old(live) else old(live)[userMem := User]
      ensures size % 4096 == 0 && spdkMem != 0 ==>
                if |SpdkLive(old(live))| == 4095 then r == Aborted && live == old(live)
                else r == Returned(spdkMem) && live == old(live)[spdkMem := Spdk]
    {
      hide Tree.Valid, Inverse;
      if size % 4096 != 0 {
        if userMem == 0 {
          return Aborted;
        }
        live := live[userMem := User];
        return Returned(userMem);
      }
      if spdkMem == 0 {
        if userMem != 0 {
          live := live[userMem := User];
        }
        return Returned(userMem);
      }
      FullTable();
      assert tree.items.Keys == SpdkLive(live);
      var nextEnt := FindNextEntry();
      if nextEnt == -1 {
        return Aborted;
      }
      Register(spdkMem, nextEnt);
      live := live[spdkMem := Spdk];
      return Returned(spdkMem);
    }

    /** Lines 64-66: the buffer enters table and tree; the insert never collides. */
    method Register(spdkMem: Key, nextEnt: int)
      requires Shape() && spdkMem !in tree.items && spdkMem != 0
      requires 0 <= nextEnt < MAX_IO_PTR_NUM - 1 && !table[nextEnt].used
      modifies table, tree.repr
      ensures Shape() && fresh(tree.repr - old(tree.repr))
      ensures tree.items == old(tree.items)[spdkMem := nextEnt + 996]
      ensures table[..] == old(table[..])[nextEnt := MmEntry(spdkMem, true)]
    {
      hide Tree.Valid;
      InverseAdd(table[..], tree.items, nextEnt, spdkMem);
      table[nextEnt] := table[nextEnt].(used := true);
      table[nextEnt] := table[nextEnt].(ptr := spdkMem);
      var error := tree.Insert(spdkMem, nextEnt + SPDK_MM_ENT_OFFSET);
      assert error == 0;
      assert table[..] == old(table[..])[nextEnt := MmEntry(spdkMem, true)];
    }

    /** `spdkfs_free`: the allocator that is asked to free. */
    method Free(ptr: Key) returns (asked: Source)
      requires Valid()
      requires ptr == 0 || ptr in live
      modifies this, table, tree.repr
      ensures Valid() && tree == old(tree) && fresh(tree.repr - old(tree.repr)) && table == old(table)
      ensures asked == if ptr == 0 then User else old(live)[ptr]
      ensures live == old(live) - {ptr}
    {
      hide Tree.Valid, Inverse;
      var found := Find(ptr);
      if found {
        Unregister(ptr);
        live := live - {ptr};
        return Spdk;
      }
      live := live - {ptr};
      return User;
    }

    /** `mm_table[i].used = false`. */
    method ClearUsed(i: nat)
      requires i < table.Length
      modifies table
      ensures table[..] == old(table[..])[i := old(table[i]).(used := false)]
    {
      table[i] := table[i].(used := false);
    }

    /** Lines 81-82: the buffer leaves tree and table. */
    method Unregister(ptr: Key)
      requires Shape() && ptr in tree.items
      modifies table, tree.repr
      ensures Shape() && fresh(tree.repr - old(tree.repr))
      ensures tree.items == old(tree.items) - {ptr}
      ensures SPDK_MM_ENT_OFFSET <= old(tree.items)[ptr] < SPDK_MM_ENT_OFFSET + MAX_IO_PTR_NUM
      ensures table[..] == old(table[..])[old(tree.items)[ptr] - SPDK_MM_ENT_OFFSET := MmEntry(ptr, false)]
    {
      hide Tree.Valid, Tree.State, Pruned, Inverse;
      InverseRemove(table[..], tree.items, ptr);
      var nextEnt := tree.Delete(ptr);
      ClearUsed(nextEnt - SPDK_MM_ENT_OFFSET);
    }

    /** `spdkfs_realloc`; outcome is what the allocator that is asked does. */
    method Reallocate(ptr: Key, outcome: Realloc) returns (r: Key, asked: Source)
      requires Valid()
      requires ptr == 0 || ptr in live
      requires outcome.Now? ==> outcome.ptr != 0 && (outcome.ptr == ptr || outcome.ptr !in live)
      modifies this`live
      ensures asked == if ptr == 0 then User else old(live)[ptr]
      ensures r == if outcome.Now? then outcome.ptr else 0
      ensures live == AfterRealloc(old(live), ptr, outcome)
      ensures Shape()
      ensures Valid() <==> asked == User || outcome == Kept || outcome == Now(ptr)
    {
      hide Tree.Valid, Inverse;
      var found := Find(ptr);
      asked := if found then Spdk else User;
      r := if outcome.Now? then outcome.ptr else 0;
      live := AfterRealloc(live, ptr, outcome);
    }
  }

  // -------------------------------------------------------------------- runs

  /** One call, with what the allocators would answer. */
  datatype Request = Alloc(size: nat, spdkMem: Key, userMem: Key) | Release(ptr: Key)

  /** The allocators never hand out a live address, callers free only live pointers. */
  ghost predicate Honest(live: map<Key, Source>, q: Request) {
    match q
    case Alloc(_, s, u) => s !in live && u !in live
    case Release(p) => p == 0 || p in live
  }

  /** The allocator a call goes to: DMA memory for whole pages, as long as there is
      any; a release goes back to where the pointer came from. */
  ghost function Asked(live: map<Key, Source>, q: Request): Source {
    match q
    case Alloc(n, s, _) => if n % 4096 == 0 && s != 0 then Spdk else User
    case Release(p) => if p in live then live[p] else User
  }

  /** The process stops: malloc of an odd size failed, or a 4096th DMA buffer was wanted. */
  ghost predicate Stops(live: map<Key, Source>, q: Request) {
    && q.Alloc?
    && if q.size % 4096 == 0 then q.spdkMem != 0 && |SpdkLive(live)| == MAX_IO_PTR_NUM - 1 else q.userMem == 0
  }

  ghost function LiveAfter(live: map<Key, Source>, q: Request): map<Key, Source> {
    match q
    case Alloc(_, s, u) =>
      var p := if Asked(live, q) == Spdk then s else u;
      if p == 0 then live else live[p := Asked(live, q)]
    case Release(p) => live - {p}
  }

  /** The live pointers after a run. */
  ghost function RunLive(live: map<Key, Source>, qs: seq<Request>): map<Key, Source>
    decreases |qs|
  {
    if qs == [] then live else RunLive(LiveAfter(live, qs[0]), qs[1..])
  }

  /** Honest from start to end, and the process never stops. */
  ghost predicate HonestRun(live: map<Key, Source>, qs: seq<Request>)
    decreases |qs|
  {
    qs != [] ==> Honest(live, qs[0]) && !Stops(live, qs[0]) && HonestRun(LiveAfter(live, qs[0]), qs[1..])
  }

  ghost function RunAsked(live: map<Key, Source>, qs: seq<Request>): seq<Source>
    decreases |qs|
  {
    if qs == [] then [] else [Asked(live, qs[0])] + RunAsked(LiveAfter(live, qs[0]), qs[1..])
  }

  /** Over every honest run the registry stays the inverse of the tree and the image
      of the live DMA buffers, and every call goes to the allocator it has to. */
  method Serve(reg: Registry, qs: seq<Request>) returns (asked: seq<Source>)
    requires reg.Valid() && HonestRun(reg.live, qs)
    modifies reg, reg.table, reg.tree.repr
    ensures reg.Valid() && reg.live == RunLive(old(reg.live), qs)
    ensures asked == RunAsked(old(reg.live), qs)
  {
    hide Registry.Shape, Tracks;
    asked := [];
    var i := 0;
    while i < |qs|
      invariant 0 <= i <= |qs| && reg.Valid() && reg.tree == old(reg.tree) && reg.table == old(reg.table)
      invariant fresh(reg.tree.repr - old(reg.tree.repr))
      invariant HonestRun(reg.live, qs[i..])
      invariant RunLive(reg.live, qs[i..]) == RunLive(old(reg.live), qs)
      invariant asked + RunAsked(reg.live, qs[i..]) == RunAsked(old(reg.live), qs)
    {
      assert qs[i..][0] == qs[i] && qs[i..][1..] == qs[i + 1..];
      var a := ServeOne(reg, qs[i]);
      asked := asked + [a];
      i := i + 1;
    }
  }

  method ServeOne(reg: Registry, q: Request) returns (asked: Source)
    requires reg.Valid() && Honest(reg.live, q) && !Stops(reg.live, q)
    modifies reg, reg.table, reg.tree.repr
    ensures reg.Valid() && reg.tree == old(reg.tree) && reg.table == old(reg.table)
    ensures fresh(reg.tree.repr - old(reg.tree.repr))
    ensures reg.live == LiveAfter(old(reg.live), q) && asked == Asked(old(reg.live), q)
  {
    hide Registry.Shape, Tracks;
    match q {
      case Alloc(size, spdkMem, userMem) =>
        var r := reg.Malloc(size, spdkMem, userMem);
        asked := if size % 4096 == 0 && spdkMem != 0 then Spdk else User;
      case Release(ptr) =>
        reg.NoNull();
        asked := reg.Free(ptr);
    }
  }
}

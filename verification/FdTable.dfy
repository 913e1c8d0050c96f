/** The file descriptor table of monopoly_ops.c. */
module FdTable {
  import opened Common

  const SPDK_MAX_FILE_CNT: int := 256
  const UINT: int := 0x1_0000_0000

  /** How many entries are set. */
  function CountSet(s: seq<bool>): (r: nat)
    ensures r <= |s|
  {
    if s == [] then 0 else CountSet(s[..|s| - 1]) + if s[|s| - 1] then 1 else 0
  }

  lemma {:induction false} CountSetUpdate(s: seq<bool>, i: nat, b: bool)
    requires i < |s|
    ensures CountSet(s[i := b]) + (if s[i] then 1 else 0) == CountSet(s) + (if b then 1 else 0)
  {
    var t := s[..|s| - 1];
    if i == |s| - 1 {
      assert s[i := b][..|s| - 1] == t;
    } else {
      CountSetUpdate(t, i, b);
      assert s[i := b][..|s| - 1] == t[i := b];
    }
  }

  lemma {:induction false} CountSetFull(s: seq<bool>)
    ensures CountSet(s) == |s| <==> forall i :: 0 <= i < |s| ==> s[i]
    ensures CountSet(s) == 0 <==> forall i :: 0 <= i < |s| ==> !s[i]
  {
    if s != [] {
      var t := s[..|s| - 1];
      CountSetFull(t);
      assert forall i :: 0 <= i < |s| - 1 ==> t[i] == s[i];
    }
  }

  /** Pigeonhole: everything but one entry is set exactly when at most that one is missing. */
  lemma AllButOne(s: seq<bool>, j: nat)
    requires j < |s|
    ensures (forall i :: 0 <= i < |s| && i != j ==> s[i]) <==> CountSet(s) == |s| - (if s[j] then 0 else 1)
  {
    CountSetUpdate(s, j, true);
    CountSetFull(s[j := true]);
    assert forall i :: 0 <= i < |s| && i != j ==> s[j := true][i] == s[i];
  }

  /** fd is the first free entry going round from entry `from`. */
  ghost predicate FirstFree(s: seq<bool>, from: nat, fd: nat)
    requires from <= |s|
  {
    && fd < |s| && !s[fd]
    && (forall j :: (if fd < from then 0 else from) <= j < fd ==> s[j])
    && (fd < from ==> forall j :: from <= j < |s| ==> s[j])
  }

  /** A table with a free entry in which no descriptor is found: only entry 254 is free. */
  lemma LostEntry(s: seq<bool>)
    requires |s| == SPDK_MAX_FILE_CNT && forall i :: 0 <= i < |s| ==> (s[i] <==> i != 254)
    ensures CountSet(s) == 255 && !s[254]
  {
    AllButOne(s, 254);
  }

  // ------------------------------------------------------- descriptors as a set

  /** The entries that are set. */
  ghost function Used(s: seq<bool>): set<int> {
    set i | 0 <= i < |s| && s[i]
  }

  lemma {:induction false} UsedSize(s: seq<bool>)
    ensures |Used(s)| == CountSet(s)
  {
    if s != [] {
      var last := |s| - 1;
      UsedSize(s[..last]);
      assert Used(s) == Used(s[..last]) + if s[last] then {last} else {};
    }
  }

  /** The first descriptor from i on that is not used, or 256. */
  function FreeFrom(used: set<int>, i: nat): (r: nat)
    requires i <= SPDK_MAX_FILE_CNT
    ensures i <= r <= SPDK_MAX_FILE_CNT && (r < SPDK_MAX_FILE_CNT ==> r !in used)
    ensures forall j :: i <= j < r ==> j in used
    decreases SPDK_MAX_FILE_CNT - i
  {
    if i == SPDK_MAX_FILE_CNT || i !in used then i else FreeFrom(used, i + 1)
  }

  /** No descriptor is handed out: all are used, or 254 is the only one that is not. */
  predicate Exhausted(used: set<int>) {
    |used| == 256 || (|used| == 255 && 254 !in used)
  }

  /** The descriptor handed out when these are used: the first free one going round from
      as many as are used. */
  function NextFd(used: set<int>): int {
    if Exhausted(used) || |used| > SPDK_MAX_FILE_CNT then -1
    else
      var fd := FreeFrom(used, |used|);
      if fd < SPDK_MAX_FILE_CNT then fd else FreeFrom(used, 0)
  }

  /** Going round has one first answer. */
  lemma NextFdIs(s: seq<bool>, fd: nat)
    requires |s| == SPDK_MAX_FILE_CNT && FirstFree(s, CountSet(s), fd) && !Exhausted(Used(s))
    ensures NextFd(Used(s)) == fd
  {
    UsedSize(s);
    hide CountSet;
    var used := Used(s);
    assert forall i :: 0 <= i < SPDK_MAX_FILE_CNT ==> (i in used <==> s[i]);
    var high, low := FreeFrom(used, |used|), FreeFrom(used, 0);
    assert high < SPDK_MAX_FILE_CNT ==> !s[high];
    assert low < SPDK_MAX_FILE_CNT ==> !s[low];
    hide FreeFrom, Used;
    if fd >= |used| {
      assert high == fd;
    } else {
      assert high == SPDK_MAX_FILE_CNT;
      assert low == fd;
    }
  }

  ghost predicate InTable(used: set<int>) {
    forall i :: i in used ==> 0 <= i < SPDK_MAX_FILE_CNT
  }

  /** What is handed out is in the table and was not used; nothing is handed out exactly
      when Exhausted. */
  lemma NextFdFresh(used: set<int>)
    requires InTable(used)
    ensures NextFd(used) == -1 <==> Exhausted(used)
    ensures NextFd(used) != -1 ==> 0 <= NextFd(used) < SPDK_MAX_FILE_CNT && NextFd(used) !in used
  {
    hide Interval, FreeFrom;
    IntervalIs(SPDK_MAX_FILE_CNT);
    var all := Interval(SPDK_MAX_FILE_CNT);
    assert forall i :: i in used ==> i in all;
    SubsetSize(used, all);
    if !Exhausted(used) && FreeFrom(used, 0) == SPDK_MAX_FILE_CNT {
      assert forall i :: i in all ==> i in used;
      SubsetSize(all, used);
    }
  }

  datatype FdOp = Get | Return(fd: nat)

  /** One call on a set of descriptors in use, and what it returns. */
  function FdStep(used: set<int>, op: FdOp): (set<int>, int) {
    match op
    case Get => (if NextFd(used) == -1 then used else used + {NextFd(used)}, NextFd(used))
    case Return(fd) => (used - {fd}, 0)
  }

  function FdRun(used: set<int>, ops: seq<FdOp>): set<int> {
    if ops == [] then used else FdStep(FdRun(used, ops[..|ops| - 1]), ops[|ops| - 1]).0
  }

  function FdReturns(used: set<int>, ops: seq<FdOp>): seq<int> {
    if ops == [] then []
    else FdReturns(used, ops[..|ops| - 1]) + [FdStep(FdRun(used, ops[..|ops| - 1]), ops[|ops| - 1]).1]
  }

  /** Only descriptors in use are returned. */
  ghost predicate Paired(used: set<int>, ops: seq<FdOp>) {
    ops != [] ==>
      var before, op := ops[..|ops| - 1], ops[|ops| - 1];
      Paired(used, before) && (op.Return? ==> op.fd in FdRun(used, before))
  }

  lemma {:induction false} PairedPrefix(used: set<int>, ops: seq<FdOp>, i: nat)
    requires i <= |ops| && Paired(used, ops)
    ensures Paired(used, ops[..i])
  {
    if i == |ops| {
      assert ops[..i] == ops;
    } else {
      PairedPrefix(used, ops[..|ops| - 1], i);
      assert ops[..|ops| - 1][..i] == ops[..i];
    }
  }

  /** In every run the descriptors in use stay in the table. */
  lemma {:induction false} FdRunInTable(used: set<int>, ops: seq<FdOp>)
    requires InTable(used)
    ensures InTable(FdRun(used, ops))
  {
    hide NextFd;
    if ops != [] {
      FdRunInTable(used, ops[..|ops| - 1]);
      NextFdFresh(FdRun(used, ops[..|ops| - 1]));
    }
  }

  /** No descriptor is handed out twice while it is in use: between two gets that return
      the same one it was returned. */
  lemma {:induction false} NoDoubleUse(used: set<int>, ops: seq<FdOp>, fd: nat)
    requires InTable(used) && fd in used && forall o :: o in ops ==> o != Return(fd)
    ensures fd in FdRun(used, ops)
    ensures |FdReturns(used, ops)| == |ops|
    ensures forall i :: 0 <= i < |ops| && ops[i].Get? ==> FdReturns(used, ops)[i] != fd
  {
    hide NextFd;
    if ops != [] {
      var before := ops[..|ops| - 1];
      forall o | o in before
        ensures o != Return(fd)
      {
        assert o in ops;
      }
      NoDoubleUse(used, before, fd);
      FdRunInTable(used, before);
      NextFdFresh(FdRun(used, before));
      assert ops[|ops| - 1] in ops;
      forall i | 0 <= i < |ops| && ops[i].Get?
        ensures FdReturns(used, ops)[i] != fd
      {
        if i < |ops| - 1 {
          assert before[i] == ops[i];
        }
      }
    }
  }

  lemma UsedUpdate(s: seq<bool>, i: nat, b: bool)
    requires i < |s|
    ensures Used(s[i := b]) == if b then Used(s) + {i} else Used(s) - {i}
  {
  }

  method ExecuteOne(table: Table, op: FdOp) returns (r: int)
    requires table.Valid() && (op.Return? ==> op.fd in Used(table.used[..]))
    modifies table, table.used
    ensures table.Valid()
    ensures (Used(table.used[..]), r) == FdStep(old(Used(table.used[..])), op)
  {
    hide CountSet, NextFd;
    ghost var was := table.used[..];
    UsedSize(was);
    match op {
      case Get =>
        r := table.GetFd();
        if r != -1 {
          NextFdIs(was, r);
          UsedUpdate(was, r, true);
        } else {
          NoneLeft(was);
        }
      case Return(fd) =>
        UsedUpdate(was, fd, false);
        table.ReturnFd(fd);
        r := 0;
    }
  }

  lemma NoneLeft(s: seq<bool>)
    requires |s| == SPDK_MAX_FILE_CNT && (CountSet(s) == 256 || (CountSet(s) == 255 && !s[254]))
    ensures NextFd(Used(s)) == -1
  {
    UsedSize(s);
  }

  /** Any run of gets and returns on the table is the run on a set of descriptors. */
  method Execute(table: Table, ops: seq<FdOp>) returns (rets: seq<int>)
    requires table.Valid() && Paired(Used(table.used[..]), ops)
    modifies table, table.used
    ensures table.Valid() && Used(table.used[..]) == FdRun(old(Used(table.used[..])), ops)
    ensures rets == FdReturns(old(Used(table.used[..])), ops)
  {
    hide FdStep, Used, CountSet;
    rets := [];
    ghost var first := Used(table.used[..]);
    var i := 0;
    while i < |ops|
      invariant 0 <= i <= |ops| && table.Valid()
      invariant Used(table.used[..]) == FdRun(first, ops[..i])
      invariant rets == FdReturns(first, ops[..i])
    {
      PairedPrefix(first, ops, i + 1);
      assert ops[..i + 1][..i] == ops[..i];
      var r := ExecuteOne(table, ops[i]);
      rets := rets + [r];
      i := i + 1;
    }
    assert ops[..|ops|] == ops;
  }

  /** `struct fdtable`. */
  class Table {
    var fileCount: nat
    const used: array<bool>

    ghost predicate Shape()
      reads this, used
    {
      used.Length == SPDK_MAX_FILE_CNT && fileCount < UINT
    }

    /** The counter is the number of used entries. */
    ghost predicate Valid()
      reads this, used
    {
      Shape() && fileCount == CountSet(used[..])
    }

    constructor ()
      ensures Valid() && fresh(used) && fileCount == 0 && Used(used[..]) == {}
    {
      fileCount := 0;
      used := new bool[SPDK_MAX_FILE_CNT](_ => false);
      new;
      CountSetFull(used[..]);
    }

    /** `get_fd_from_table`. */
    method GetFd() returns (fd: int)
      requires Valid()
      modifies this, used
      ensures Valid()
      ensures fd == -1 <==> old(fileCount) == 256 || (old(fileCount) == 255 && !old(used[254]))
      ensures fd == -1 ==> used[..] == old(used[..])
      ensures fd != -1 ==> 0 <= fd && FirstFree(old(used[..]), old(fileCount), fd)
      ensures fd != -1 ==> used[..] == old(used[..])[fd := true]
    {
      hide CountSet;
      if fileCount >= SPDK_MAX_FILE_CNT {
        return -1;
      }
      CountSetFull(used[..]);
      AllButOne(used[..], 254);
      var i := fileCount;
      ghost var wrapped := false;
      while i != (fileCount - 1) % UINT
        invariant used[..] == old(used[..]) && fileCount == old(fileCount)
        invariant if wrapped then 1 <= i < fileCount else fileCount <= i <= 256
        invariant !wrapped ==> forall j :: fileCount <= j < i ==> used[..][j]
        invariant wrapped ==> forall j :: fileCount <= j < 256 || 0 <= j < i ==> used[..][j]
        decreases !wrapped, 256 - i
      {
        if i == SPDK_MAX_FILE_CNT {
          i := 0;
          wrapped := true;
          AllButOne(used[..], 0);
        }
        if !used[i] {
          CountSetUpdate(used[..], i, true);
          used[i] := true;
          fileCount := fileCount + 1;
          assert used[..] == old(used[..])[i := true];
          return i;
        }
        i := i + 1;
      }
      AllButOne(used[..], fileCount - 1);
      return -1;
    }

    /** `return_fd_to_table`: keeps the counter exact exactly when fd was in use. */
    method ReturnFd(fd: nat)
      requires Valid() && fd < SPDK_MAX_FILE_CNT
      modifies this, used
      ensures used[..] == old(used[..])[fd := false]
      ensures Valid() <==> old(used[fd])
    {
      CountSetUpdate(used[..], fd, false);
      fileCount := (fileCount - 1) % UINT;
      used[fd] := false;
      assert used[..] == old(used[..])[fd := false];
    }
  }
}

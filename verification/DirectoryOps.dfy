/** A directory in memory: the dirent buffer grows by I/O units while entries come
    and go. */
module DirectoryOps {
  import opened Common
  import opened Directory

  // ---------------------------------------------------------------- capacity

  /** The buffer in I/O units after `add_dirent`, which compares units with bytes. */
  function GrownUnits(units: nat, count: nat): nat {
    var u := if units == 0 then 1 else units;
    if u <= count * DIRENT_SIZE then u + 1 else u
  }

  datatype SizeOp = Add | Remove

  /** Units and entries after an addition or a removal; removing from nothing does nothing. */
  function SizeStep(at: (nat, nat), op: SizeOp): (nat, nat) {
    match op
    case Add => (GrownUnits(at.0, at.1), at.1 + 1)
    case Remove => (at.0, if at.1 == 0 then 0 else at.1 - 1)
  }

  /** Units and entries after a run. */
  function SizeFrom(at: (nat, nat), ops: seq<SizeOp>): (nat, nat) {
    if ops == [] then at else SizeStep(SizeFrom(at, ops[..|ops| - 1]), ops[|ops| - 1])
  }

  /** Units and entries after a run on a new directory. */
  function SizeRun(ops: seq<SizeOp>): (nat, nat) {
    SizeFrom((0, 0), ops)
  }

  lemma {:induction false} UnitsCoverCount(ops: seq<SizeOp>)
    ensures SizeRun(ops).0 >= SizeRun(ops).1
  {
    if ops != [] {
      UnitsCoverCount(ops[..|ops| - 1]);
    }
  }

  /** How many additions a run has. */
  function Adds(ops: seq<SizeOp>): nat {
    if ops == [] then 0 else Adds(ops[..|ops| - 1]) + if ops[|ops| - 1] == Add then 1 else 0
  }

  /** How many additions of a run on a new directory, the first apart, find it empty. */
  function AddsToEmpty(ops: seq<SizeOp>): nat {
    if ops == [] then 0
    else
      var before := ops[..|ops| - 1];
      AddsToEmpty(before) + if ops[|ops| - 1] == Add && Adds(before) > 0 && SizeRun(before).1 == 0 then 1 else 0
  }

  /** Comparing units with bytes makes every addition grow the buffer by a unit, whatever was
      removed before, except those that find an emptied directory: so it is for up to
      521 units; the first of them makes the buffer one unit larger than an entry has bytes. */
  lemma {:induction false} UnitsCountAdds(ops: seq<SizeOp>)
    requires Adds(ops) - AddsToEmpty(ops) <= 521
    ensures SizeRun(ops).0 == Adds(ops) - AddsToEmpty(ops)
    ensures if Adds(ops) > 0 then SizeRun(ops).0 > 0 else SizeRun(ops) == (0, 0)
  {
    if ops != [] {
      UnitsCountAdds(ops[..|ops| - 1]);
    }
  }

  /** With additions only the units are the entries, for any number of them. */
  lemma {:induction false} UnitsOfAdds(ops: seq<SizeOp>)
    requires forall o :: o in ops ==> o == Add
    ensures SizeRun(ops) == (|ops|, |ops|)
  {
    if ops != [] {
      var before := ops[..|ops| - 1];
      forall o | o in before
        ensures o == Add
      {
        assert o in ops;
      }
      UnitsOfAdds(before);
      assert ops[|ops| - 1] in ops;
    }
  }

  /** An addition leaves the buffer as it is if and only if it has more units than the
      entries have bytes. */
  lemma AddGrows(units: nat, count: nat)
    ensures SizeFrom((units, count), [Add]).0 == units <==> units > 520 * count
    ensures units <= SizeFrom((units, count), [Add]).0 <= units + (if units == 0 && count > 0 then 2 else 1)
  {
    assert [Add][..0] == [];
  }

  lemma Product(a: nat, b: nat, c: nat, d: nat)
    requires a <= c && b <= d
    ensures a * b <= c * d
  {
    MulMono(a, c, b);
    MulMono(b, d, c);
  }

  /** Every interleaving keeps room for all entries if and only if an I/O unit holds a dirent. */
  lemma CapacityExact(ioUnit: nat)
    requires ioUnit > 0
    ensures ioUnit >= DIRENT_SIZE <==>
            forall ops :: SizeRun(ops).0 * ioUnit >= SizeRun(ops).1 * DIRENT_SIZE
  {
    if ioUnit >= DIRENT_SIZE {
      forall ops
        ensures SizeRun(ops).0 * ioUnit >= SizeRun(ops).1 * DIRENT_SIZE
      {
        UnitsCoverCount(ops);
        Product(SizeRun(ops).1, DIRENT_SIZE, SizeRun(ops).0, ioUnit);
      }
    } else {
      var once := [Add];
      assert once[..0] == [];
      assert SizeRun(once) == (1, 1);
    }
  }

  lemma UnitsOf(units: nat, ioUnit: nat)
    requires ioUnit > 0
    ensures units * ioUnit / ioUnit == units
  {
    DivIs(units * ioUnit, ioUnit, units);
  }

  /** Room for the next entry, in whole dirents. */
  lemma RoomFor(units: nat, count: nat, ioUnit: nat)
    requires units >= count && ioUnit >= DIRENT_SIZE
    ensures count <= units * ioUnit / DIRENT_SIZE
  {
    Product(count, DIRENT_SIZE, units, ioUnit);
  }

  // --------------------------------------------------------------- the object

  /** The size of a buffer of so many I/O units. */
  function Bytes(units: nat, ioUnit: nat): nat {
    units * ioUnit
  }

  /** `struct spdkfs_dir` with its persistent part. */
  class Dir {
    /** The whole dirents that fit in dSize bytes. */
    var dirents: array<Dirent>
    var dSize: nat
    var direntCount: nat
    var dirty: bool
    const ioUnit: nat
    ghost var units: nat

    /** With an I/O unit too small for a dirent the directory is still empty: the first
        `add_dirent` writes beyond its buffer. */
    ghost predicate Valid()
      reads this
    {
      && ioUnit > 0 && dSize == Bytes(units, ioUnit) && direntCount <= units
      && dirents.Length == dSize / DIRENT_SIZE && direntCount <= dirents.Length
      && (ioUnit < DIRENT_SIZE ==> units == 0 && dirents.Length == 0)
    }

    ghost function Entries(): seq<Dirent>
      requires Valid()
      reads this, dirents
    {
      dirents[..direntCount]
    }

    /** The entries and the unused slots. */
    ghost function Memory(): Memory
      requires Valid()
      reads this, dirents
    {
      Directory.Memory(dirents[..direntCount], dirents[direntCount..])
    }

    /** I/O units and entries. */
    ghost function Size(): (nat, nat)
      reads this
    {
      (units, direntCount)
    }

    /** `simple_dir_create`. */
    constructor (io: nat)
      requires io > 0
      ensures Valid() && fresh(dirents) && Memory() == Directory.Memory([], []) && units == 0
      ensures dSize == 0 && !dirty && ioUnit == io
    {
      ioUnit := io;
      dirents := new Dirent[0];
      dSize, direntCount, units := 0, 0, 0;
      dirty := false;
    }

    /** `spdkfs_dir_lookup`. */
    method Lookup(name: Name) returns (r: int)
      requires Valid()
      ensures LookupIs(Entries(), name, r)
    {
      var i := 0;
      while i < direntCount
        invariant 0 <= i <= direntCount
        invariant forall j :: 0 <= j < i ==> !Matches(dirents[j].name, name)
      {
        if Matches(dirents[i].name, name) {
          return i;
        }
        i := i + 1;
      }
      return -1;
    }

    /** `spdk_realloc` to n bytes: the old dirents are kept, the rest is arbitrary. */
    method Resize(n: nat)
      requires dirents.Length <= n / DIRENT_SIZE
      modifies this`dirents, this`dSize
      ensures dSize == n && dirents.Length == n / DIRENT_SIZE && fresh(dirents)
      ensures forall i :: 0 <= i < old(dirents).Length ==> dirents[i] == old(dirents[i])
    {
      var bigger := new Dirent[n / DIRENT_SIZE];
      forall i | 0 <= i < dirents.Length {
        bigger[i] := dirents[i];
      }
      dirents := bigger;
      dSize := n;
    }

    /** Lines 39-47 of `add_dirent`: make room for one more entry. */
    method MakeRoom() returns (ghost grown: seq<Dirent>)
      requires Valid()
      modifies this`dirents, this`dSize, this`units
      ensures dSize == Bytes(units, ioUnit) && units == GrownUnits(old(units), direntCount) > direntCount
      ensures units == if old(units) == 0 then 1
                       else if old(units) <= direntCount * 520 then old(units) + 1
                       else old(units)
      ensures dirents.Length == dSize / DIRENT_SIZE
      ensures direntCount < dirents.Length <==> ioUnit >= DIRENT_SIZE
      ensures dirents == old(dirents) || fresh(dirents)
      ensures dirents[..] == old(dirents[..]) + grown
    {
      ghost var was := dirents[..];
      UnitsOf(units, ioUnit);
      if dSize == 0 {
        UnitsZero(units, ioUnit);
        Resize(ioUnit);
        units := 1;
        UnitsOf(units, ioUnit);
      }
      if dSize / ioUnit <= direntCount * DIRENT_SIZE {
        MoreUnits(units, ioUnit);
        Resize(dSize + ioUnit);
        units := units + 1;
      }
      if ioUnit >= DIRENT_SIZE {
        RoomFor(units, direntCount + 1, ioUnit);
      }
      grown := dirents[|was|..];
      assert dirents[..|was|] == was;
    }

    /** `add_dirent`; grown is what the slots held that a reallocation added.  The write is
        inside the buffer exactly when an I/O unit holds a dirent; else it is undefined. */
    method AddDirent(id: BlobId, filename: Name) returns (defined: bool, ghost grown: seq<Dirent>)
      requires Valid()
      modifies this, dirents
      ensures defined <==> ioUnit >= DIRENT_SIZE
      ensures defined ==> Valid() && dirty && old(Memory()).spare + grown != []
      ensures defined ==> units == GrownUnits(old(units), old(direntCount)) && direntCount == old(direntCount) + 1
      ensures defined ==> Memory() == Appended(old(Memory()), filename, id, grown)
      ensures dirents == old(dirents) || fresh(dirents)
    {
      hide CopyName, Appended, Bytes, GrownUnits;
      ghost var before := Memory();
      dirty := true;
      grown := MakeRoom();
      if direntCount >= dirents.Length {
        return false, grown;
      }
      ghost var slots := dirents[..];
      assert slots == before.entries + before.spare + grown;
      PutDirent(id, filename);
      AppendedIs(before, slots, grown, dirents[..], filename, id);
      return true, grown;
    }

    /** Lines 48-51: the entry behind the others is written. */
    method PutDirent(id: BlobId, filename: Name)
      requires direntCount < dirents.Length
      modifies this`direntCount, dirents
      ensures direntCount == old(direntCount) + 1
      ensures dirents[..] ==
        old(dirents[..])[old(direntCount) := Dirent(CopyName(old(dirents[direntCount].name), filename), id)]
    {
      hide CopyName;
      dirents[direntCount] := dirents[direntCount].(id := id);
      dirents[direntCount] := dirents[direntCount].(name := CopyName(dirents[direntCount].name, filename));
      direntCount := direntCount + 1;
    }

    /** The directory part of `monopoly_create`: not ok if the name is taken. */
    method Create(id: BlobId, filename: Name) returns (defined: bool, ok: bool, ghost grown: seq<Dirent>)
      requires Valid()
      modifies this, dirents
      ensures ok <==> forall i :: 0 <= i < |old(Entries())| ==> !Matches(old(Entries())[i].name, filename)
      ensures defined <==> !ok || ioUnit >= DIRENT_SIZE
      ensures defined ==> Valid() && (ok ==> dirty)
      ensures defined ==> Size() == if ok then SizeStep(old(Size()), Add) else old(Size())
      ensures !ok ==> Memory() == old(Memory()) && dirty == old(dirty)
      ensures defined ==> Roomy(old(Memory()), DirOp.Create(filename, id, grown))
      ensures defined ==> Memory() == DirStep(old(Memory()), DirOp.Create(filename, id, grown))
      ensures dirents == old(dirents) || fresh(dirents)
    {
      hide Matches, CopyName, NextField;
      grown := [];
      var r := Lookup(filename);
      FirstMatchIs(Entries(), filename, r);
      if r != -1 {
        return true, false, grown;
      }
      ok := true;
      defined, grown := AddDirent(id, filename);
    }

    /** The directory part of `monopoly_unlink`.  The last entry's bytes stay in the
        slot that becomes unused, and the directory is not marked dirty. */
    method Unlink(name: Name) returns (r: int)
      requires Valid()
      modifies this`direntCount, dirents
      ensures Valid() && LookupIs(old(Entries()), name, r)
      ensures direntCount == old(direntCount) - (if r == -1 then 0 else 1)
      ensures forall j :: direntCount <= j < dirents.Length ==> dirents[j] == old(dirents[j])
      ensures r == -1 ==> Memory() == old(Memory())
      ensures r != -1 ==> Memory() == Removed(old(Memory()), r)
      ensures Memory() == DirStep(old(Memory()), DirOp.Unlink(name))
    {
      hide Matches, Without;
      r := Lookup(name);
      FirstMatchIs(Entries(), name, r);
      if r == -1 {
        return;
      }
      ghost var was := dirents[..];
      ShiftLeft(r);
      ShiftedIs(was, dirents[..], r, direntCount);
      direntCount := direntCount - 1;
    }

    /** Lines 218-220 of monopoly_ops.c. */
    method ShiftLeft(r: nat)
      requires r < direntCount <= dirents.Length
      modifies dirents
      ensures forall j :: 0 <= j < dirents.Length ==>
                dirents[j] == old(dirents[..])[if r <= j < direntCount - 1 then j + 1 else j]
    {
      var i := r;
      while i < direntCount - 1
        invariant r <= i <= direntCount - 1
        invariant forall j :: 0 <= j < dirents.Length ==>
                    dirents[j] == old(dirents[..])[if r <= j < i then j + 1 else j]
      {
        dirents[i] := dirents[i + 1];
        i := i + 1;
      }
    }
  }

  /** A call, without what it finds in memory. */
  datatype DirCall = Make(name: Name, id: BlobId) | Remove(name: Name)

  /** done is that call, with what the slots held that were added for it. */
  ghost predicate SameCall(call: DirCall, done: DirOp) {
    match call
    case Make(n, i) => done.Create? && done.name == n && done.id == i
    case Remove(n) => done == DirOp.Unlink(n)
  }

  /** One call, which stays inside the buffer exactly when an I/O unit holds a dirent or
      nothing is created. */
  method ExecuteOne(dir: Dir, call: DirCall) returns (defined: bool, ghost op: DirOp)
    requires dir.Valid()
    modifies dir, dir.dirents
    ensures defined <==> dir.ioUnit >= DIRENT_SIZE || call.Remove?
    ensures defined ==> dir.Valid() && SameCall(call, op) && Roomy(old(dir.Memory()), op)
    ensures defined ==> dir.Memory() == DirStep(old(dir.Memory()), op)
    ensures defined ==> dir.Size() == SizeFrom(old(dir.Size()), Effect(old(dir.Memory()), op))
    ensures dir.dirents == old(dir.dirents) || fresh(dir.dirents)
  {
    ghost var was := dir.Size();
    OneEffect(was, Add);
    OneEffect(was, SizeOp.Remove);
    assert SizeFrom(was, []) == was;
    hide DirStep, Bytes, GrownUnits, SizeFrom;
    match call {
      case Make(name, id) =>
        ghost var grown;
        var ok;
        defined, ok, grown := dir.Create(id, name);
        op := DirOp.Create(name, id, grown);
      case Remove(name) =>
        var r := dir.Unlink(name);
        defined := true;
        op := DirOp.Unlink(name);
    }
  }

  /** What an operation does to units and number of entries: an addition, a removal or nothing. */
  ghost function Effect(m: Memory, op: DirOp): seq<SizeOp> {
    var found := FirstMatch(m.entries, op.name) != -1;
    if op.Create? then (if found then [] else [Add]) else if found then [SizeOp.Remove] else []
  }

  /** The additions and removals of a run. */
  ghost function Effects(m: Memory, ops: seq<DirOp>): seq<SizeOp> {
    if ops == [] then []
    else Effects(m, ops[..|ops| - 1]) + Effect(DirRun(m, ops[..|ops| - 1]), ops[|ops| - 1])
  }

  lemma OneEffect(at: (nat, nat), op: SizeOp)
    ensures SizeFrom(at, [op]) == SizeStep(at, op)
  {
    assert [op][..0] == [];
  }

  /** Units and entries after one more call of a run. */
  lemma MoreEffects(at: (nat, nat), m: Memory, ops: seq<DirOp>, op: DirOp)
    ensures SizeFrom(at, Effects(m, ops + [op])) ==
      SizeFrom(SizeFrom(at, Effects(m, ops)), Effect(DirRun(m, ops), op))
  {
    hide Effect, DirRun, SizeStep;
    assert (ops + [op])[..|ops|] == ops;
    var e := Effect(DirRun(m, ops), op);
    EffectShort(DirRun(m, ops), op);
    if e == [] {
      assert Effects(m, ops) + [] == Effects(m, ops);
    } else {
      var done := Effects(m, ops);
      assert (done + e)[..|done|] == done && e[..0] == [];
    }
  }

  lemma EffectShort(m: Memory, op: DirOp)
    ensures |Effect(m, op)| <= 1
  {
  }

  ghost predicate Matching(calls: seq<DirCall>, done: seq<DirOp>) {
    |done| == |calls| && forall i :: 0 <= i < |calls| ==> SameCall(calls[i], done[i])
  }

  ghost predicate RemovesOnly(calls: seq<DirCall>) {
    forall i :: 0 <= i < |calls| ==> calls[i].Remove?
  }

  /** Any run of calls on a directory is the run of the same operations on its slots.  It
      stays inside the buffer exactly when an I/O unit holds a dirent or nothing is created. */
  method Execute(dir: Dir, calls: seq<DirCall>) returns (defined: bool, ghost done: seq<DirOp>)
    requires dir.Valid()
    modifies dir, dir.dirents
    ensures defined <==> dir.ioUnit >= DIRENT_SIZE || RemovesOnly(calls)
    ensures defined ==> dir.Valid() && Matching(calls, done)
    ensures defined ==> dir.Memory() == DirRun(old(dir.Memory()), done) && RoomyRun(old(dir.Memory()), done)
    ensures defined ==> dir.Size() == SizeFrom(old(dir.Size()), Effects(old(dir.Memory()), done))
  {
    hide DirStep, Roomy, RoomyRun, DirRun, SameCall, Bytes, Matching, RemovesOnly, Effect;
    done := [];
    ghost var first := dir.Memory();
    ghost var at := dir.Size();
    NoCalls(first);
    NoneMatched(calls[..0]);
    var i := 0;
    while i < |calls|
      invariant 0 <= i <= |calls| && Matching(calls[..i], done)
      invariant dir.Valid() && (dir.dirents == old(dir.dirents) || fresh(dir.dirents))
      invariant dir.ioUnit < DIRENT_SIZE ==> RemovesOnly(calls[..i])
      invariant dir.Memory() == DirRun(first, done) && RoomyRun(first, done)
      invariant dir.Size() == SizeFrom(at, Effects(first, done))
    {
      ghost var op;
      defined, op := ExecuteOne(dir, calls[i]);
      if !defined {
        NotRemove(calls, i);
        return;
      }
      OneMore(first, map[], done, op);
      MoreEffects(at, first, done, op);
      OneMatched(calls, i, done, op);
      done := done + [op];
      i := i + 1;
    }
    assert calls[..i] == calls;
    return true, done;
  }

  /** The calls as operations. */
  ghost function Plain(calls: seq<DirCall>): seq<DirOp> {
    seq(|calls|, i requires 0 <= i < |calls| =>
      match calls[i] case Make(n, id) => DirOp.Create(n, id, []) case Remove(n) => DirOp.Unlink(n))
  }

  /** The run is clean by what can be said before it about the directory and the names
      created, and by what the reallocations added, unless there was a slot for every create. */
  ghost predicate Foreseen(m: Memory, calls: seq<DirCall>, done: seq<DirOp>, w: nat) {
    && Narrow(m.entries, w) && Narrow(m.spare, w) && Rising(w, Plain(calls))
    && (NarrowGrowth(done) || Creates(Plain(calls)) <= |m.spare|)
  }

  lemma ForeseenIsClean(m: Memory, calls: seq<DirCall>, done: seq<DirOp>, w: nat)
    requires Matching(calls, done) && Foreseen(m, calls, done, w)
    ensures CleanRun(m, done)
  {
    hide DirRun, Narrow, Rising, Creates, CleanRun;
    assert SameCalls(Plain(calls), done);
    SameCallsSame(Plain(calls), done, map[], w);
    if NarrowGrowth(done) {
      RisingIsClean(m, done, w);
    } else {
      assert m.spare[..|m.spare|] == m.spare;
      RisingInRoom(m, done, |m.spare|, w);
    }
  }

  /** On any well-named directory, a run in memory is a run of the name-to-blob map, call by
      call, if and only if it is clean; and it is clean for every w for which it is Foreseen. */
  method ExecuteAsMap(dir: Dir, calls: seq<DirCall>) returns (defined: bool, ghost done: seq<DirOp>)
    requires dir.Valid() && Named(dir.Entries())
    modifies dir, dir.dirents
    ensures defined <==> dir.ioUnit >= DIRENT_SIZE || RemovesOnly(calls)
    ensures defined ==> dir.Valid() && Matching(calls, done)
    ensures defined ==> dir.Memory() == DirRun(old(dir.Memory()), done)
    ensures defined ==> dir.Size() == SizeFrom(old(dir.Size()), Effects(old(dir.Memory()), done))
    ensures defined ==> (CleanRun(old(dir.Memory()), done) <==> RunsAsMap(old(dir.Memory()), done))
    ensures defined ==> forall w :: Foreseen(old(dir.Memory()), calls, done, w) ==> CleanRun(old(dir.Memory()), done)
    ensures defined && CleanRun(old(dir.Memory()), done) ==>
      Named(dir.Entries()) && DirMap(dir.Entries()) == MapRun(old(DirMap(dir.Entries())), Plain(calls))
  {
    hide Named, DirMap, DirRun, MapRun, CleanRun, RoomyRun, Foreseen, SizeFrom, Effects;
    ghost var first := dir.Memory();
    defined, done := Execute(dir, calls);
    if defined {
      assert SameCalls(Plain(calls), done);
      SameCallsSame(Plain(calls), done, DirMap(first.entries), 0);
      DirRunRefines(first, done);
      forall w | Foreseen(first, calls, done, w)
        ensures CleanRun(first, done)
      {
        ForeseenIsClean(first, calls, done, w);
      }
    }
  }

  /** The same for a directory made by `simple_dir_create`: with names that never get shorter
      and zeroed new memory, what it holds in the end is the map of the calls alone. */
  method ExecuteNew(io: nat, calls: seq<DirCall>) returns (dir: Dir, defined: bool, ghost done: seq<DirOp>)
    requires io > 0
    ensures fresh(dir)
    ensures defined <==> io >= DIRENT_SIZE || RemovesOnly(calls)
    ensures defined ==> dir.Valid() && Matching(calls, done)
    ensures defined && Rising(0, Plain(calls)) && NarrowGrowth(done) ==>
      Named(dir.Entries()) && DirMap(dir.Entries()) == MapRun(map[], Plain(calls))
    ensures var es := Effects(Directory.Memory([], []), done);
      defined && Adds(es) - AddsToEmpty(es) <= 521 ==> dir.dSize == (Adds(es) - AddsToEmpty(es)) * io
  {
    hide Narrow, Rising, MapRun, CleanRun, NarrowGrowth, RemovesOnly;
    dir := new Dir(io);
    NewIsNamed();
    ghost var first := dir.Memory();
    defined, done := ExecuteAsMap(dir, calls);
    ghost var es := Effects(first, done);
    if Adds(es) - AddsToEmpty(es) <= 521 {
      UnitsCountAdds(es);
    }
    assert defined && Rising(0, Plain(calls)) && NarrowGrowth(done) ==> Foreseen(first, calls, done, 0);
  }

  lemma NewIsNamed()
    ensures Named([]) && DirMap([]) == map[] && Narrow([], 0)
  {
  }

  lemma NoneMatched(calls: seq<DirCall>)
    requires calls == []
    ensures Matching(calls, []) && RemovesOnly(calls)
  {
  }

  lemma OneMatched(calls: seq<DirCall>, i: nat, done: seq<DirOp>, op: DirOp)
    requires i < |calls| && Matching(calls[..i], done) && SameCall(calls[i], op)
    ensures Matching(calls[..i + 1], done + [op])
    ensures RemovesOnly(calls[..i + 1]) <==> RemovesOnly(calls[..i]) && calls[i].Remove?
  {
    hide SameCall;
    assert calls[..i + 1] == calls[..i] + [calls[i]];
  }

  lemma NotRemove(calls: seq<DirCall>, i: nat)
    requires i < |calls| && !calls[i].Remove?
    ensures !RemovesOnly(calls)
  {
  }

  lemma NoCalls(m: Memory)
    ensures DirRun(m, []) == m && RoomyRun(m, [])
  {
  }

  /** The slots after an entry was written behind the others. */
  lemma AppendedIs(m: Memory, slots: seq<Dirent>, grown: seq<Dirent>, now: seq<Dirent>, name: Name, id: BlobId)
    requires slots == m.entries + m.spare + grown && |m.entries| < |slots|
    requires now == slots[|m.entries| := Dirent(CopyName(slots[|m.entries|].name, name), id)]
    ensures m.spare + grown != []
    ensures Memory(now[..|m.entries| + 1], now[|m.entries| + 1..]) == Appended(m, name, id, grown)
  {
    hide CopyName;
    var n := |m.entries|;
    assert slots[n..] == m.spare + grown && slots[..n] == m.entries;
    assert slots[n] == (m.spare + grown)[0];
    assert now[..n + 1] == m.entries + [now[n]];
    assert now[n + 1..] == (m.spare + grown)[1..];
  }

  /** The slots after an entry was shifted out. */
  lemma ShiftedIs(was: seq<Dirent>, now: seq<Dirent>, r: nat, count: nat)
    requires r < count <= |was| == |now|
    requires forall j :: 0 <= j < |now| ==> now[j] == was[if r <= j < count - 1 then j + 1 else j]
    ensures now[..count - 1] == Without(was[..count], r)
    ensures now[count - 1..] == [was[..count][count - 1]] + was[count..]
  {
  }

  lemma UnitsZero(units: nat, ioUnit: nat)
    requires units * ioUnit == 0 && ioUnit > 0
    ensures units == 0
  {
    if units > 0 {
      MulMono(1, units, ioUnit);
    }
  }

  lemma MoreUnits(units: nat, ioUnit: nat)
    ensures (units + 1) * ioUnit == units * ioUnit + ioUnit
    ensures units * ioUnit / DIRENT_SIZE <= (units * ioUnit + ioUnit) / DIRENT_SIZE
  {
  }
}

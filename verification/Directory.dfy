/** Directories: `spdkfs_dir_lookup`, `add_dirent` and the removal in
    `monopoly_unlink`, with names stored as the source stores them. */
module Directory {
  import opened Common

  const SPDK_MAX_NAME_COUNT: int := 512
  /** sizeof(struct spdkfs_dirent): a 512-byte name and a 64-bit blob id. */
  const DIRENT_SIZE: int := 520
  const NUL: char := '\0'

  /** The bytes of a name field. */
  type NameField = s: seq<char> | |s| == SPDK_MAX_NAME_COUNT witness seq(SPDK_MAX_NAME_COUNT, _ => NUL)

  /** A C string that fits a name field with its terminator. */
  type Name = s: string | |s| < SPDK_MAX_NAME_COUNT && forall i :: 0 <= i < |s| ==> s[i] != NUL

  type BlobId = nat

  /** `struct spdkfs_dirent`. */
  datatype Dirent = Dirent(name: NameField, id: BlobId)

  /** `!strcmp(field, name)`. */
  predicate Matches(field: NameField, name: Name) {
    field[..|name|] == name && field[|name|] == NUL
  }

  /** `memcpy(field, name, strlen(name))`: no terminator is written. */
  function CopyName(stale: NameField, name: Name): NameField {
    name + stale[|name|..]
  }

  /** The string a field holds, if it is terminated. */
  ghost function CName(field: NameField): Option<string> {
    CNameFrom(field, 0)
  }

  ghost function CNameFrom(field: NameField, i: nat): Option<string>
    requires i <= |field|
    decreases |field| - i
  {
    if i == |field| then None
    else if field[i] == NUL then Some(field[..i])
    else CNameFrom(field, i + 1)
  }

  lemma MatchChar(field: NameField, name: Name, i: nat)
    requires Matches(field, name) && i < |name|
    ensures field[i] == name[i]
  {
    assert field[..|name|][i] == field[i];
  }

  lemma {:induction false} CNameFromIs(field: NameField, i: nat, name: Name)
    requires i <= |name| && forall j :: 0 <= j < i ==> field[j] != NUL
    ensures CNameFrom(field, i) == Some(name) <==> Matches(field, name)
    decreases |field| - i
  {
    if Matches(field, name) && i < |name| {
      MatchChar(field, name, i);
    }
    if field[i] == NUL {
    } else if i < |name| {
      CNameFromIs(field, i + 1, name);
    } else {
      CNameFromLong(field, i + 1);
    }
  }

  lemma {:induction false} CNameFromLong(field: NameField, i: nat)
    requires i <= |field|
    ensures CNameFrom(field, i).Some? ==> |CNameFrom(field, i).value| >= i
    decreases |field| - i
  {
    if i < |field| && field[i] != NUL {
      CNameFromLong(field, i + 1);
    }
  }

  /** strcmp finds exactly the stored string. */
  lemma MatchesIs(field: NameField, name: Name)
    ensures Matches(field, name) <==> CName(field) == Some(name)
  {
    CNameFromIs(field, 0, name);
  }

  /** What a directory's entries mean: every field is terminated, no name occurs twice. */
  ghost predicate Named(es: seq<Dirent>) {
    && (forall i :: 0 <= i < |es| ==> CName(es[i].name).Some?)
    && (forall i, j :: 0 <= i < j < |es| ==> CName(es[i].name) != CName(es[j].name))
  }

  /** The name-to-blob map of a directory. */
  ghost function DirMap(es: seq<Dirent>): map<string, BlobId>
  {
    if es == [] then map[]
    else
      var rest := DirMap(es[..|es| - 1]);
      var e := es[|es| - 1];
      if CName(e.name).Some? then rest[CName(e.name).value := e.id] else rest
  }

  /** The first entry strcmp accepts, or -1. */
  ghost predicate LookupIs(es: seq<Dirent>, name: Name, r: int) {
    && (r == -1 ==> forall i :: 0 <= i < |es| ==> !Matches(es[i].name, name))
    && (r != -1 ==> 0 <= r < |es| && Matches(es[r].name, name) && forall i :: 0 <= i < r ==> !Matches(es[i].name, name))
  }

  ghost function Without(es: seq<Dirent>, i: nat): seq<Dirent>
    requires i < |es|
  {
    es[..i] + es[i + 1..]
  }

  lemma {:induction false} DirMapDomain(es: seq<Dirent>, name: string)
    ensures name in DirMap(es) <==> exists i :: 0 <= i < |es| && CName(es[i].name) == Some(name)
  {
    if es != [] {
      var front := es[..|es| - 1];
      DirMapDomain(front, name);
      if i :| 0 <= i < |es| && CName(es[i].name) == Some(name) {
        if i < |es| - 1 {
          assert front[i] == es[i];
        }
      }
    }
  }

  lemma {:induction false} DirMapValue(es: seq<Dirent>, i: nat)
    requires Named(es) && i < |es|
    ensures CName(es[i].name).value in DirMap(es) && DirMap(es)[CName(es[i].name).value] == es[i].id
  {
    var front := es[..|es| - 1];
    if i < |es| - 1 {
      assert forall j :: 0 <= j < |front| ==> front[j] == es[j];
      DirMapValue(front, i);
    }
  }

  /** On a well-named directory lookup is the map read, and the entry is the only one. */
  lemma LookupRefines(es: seq<Dirent>, name: Name, r: int)
    requires Named(es) && LookupIs(es, name, r)
    ensures r == -1 <==> name !in DirMap(es)
    ensures r != -1 ==> es[r].id == DirMap(es)[name]
    ensures r != -1 ==> forall i :: 0 <= i < |es| && Matches(es[i].name, name) ==> i == r
  {
    hide CName, DirMap, Matches;
    DirMapDomain(es, name);
    forall i | 0 <= i < |es|
      ensures Matches(es[i].name, name) <==> CName(es[i].name) == Some(name)
    {
      MatchesIs(es[i].name, name);
    }
    if r != -1 {
      DirMapValue(es, r);
    }
  }

  lemma CopiedName(stale: NameField, name: Name)
    ensures CName(CopyName(stale, name)) == Some(name) <==> stale[|name|] == NUL
  {
    MatchesIs(CopyName(stale, name), name);
    assert CopyName(stale, name)[..|name|] == name;
  }

  /** Creating an absent name adds exactly that binding, and keeps the directory
      well named, if and only if the byte after the copied name was already NUL. */
  lemma CreateRefines(es: seq<Dirent>, stale: NameField, name: Name, id: BlobId)
    requires Named(es) && name !in DirMap(es)
    ensures var now := es + [Dirent(CopyName(stale, name), id)];
      stale[|name|] == NUL <==> Named(now) && DirMap(now) == DirMap(es)[name := id]
  {
    hide CName, CopyName;
    var now := es + [Dirent(CopyName(stale, name), id)];
    CopiedName(stale, name);
    assert now[..|es|] == es;
    DirMapDomain(es, name);
    DirMapDomain(now, name);
    if stale[|name|] != NUL {
      forall i | 0 <= i < |now|
        ensures CName(now[i].name) != Some(name)
      {
      }
    }
  }

  lemma NamedWithout(es: seq<Dirent>, r: nat)
    requires Named(es) && r < |es|
    ensures Named(Without(es, r))
  {
    hide CName;
    var now := Without(es, r);
    assert forall i :: 0 <= i < |now| ==> now[i] == es[if i < r then i else i + 1];
  }

  lemma DirMapLast(front: seq<Dirent>, e: Dirent)
    requires CName(e.name).Some?
    ensures DirMap(front + [e]) == DirMap(front)[CName(e.name).value := e.id]
  {
    hide CName;
    assert (front + [e])[..|front|] == front;
  }

  /** Removing from a list before its last entry. */
  lemma WithoutFront(front: seq<Dirent>, e: Dirent, r: nat)
    requires r < |front|
    ensures Without(front + [e], r) == Without(front, r) + [e]
  {
  }

  /** Removing an entry removes exactly its binding and keeps the others' order. */
  lemma {:induction false} UnlinkRefines(es: seq<Dirent>, r: nat)
    requires Named(es) && r < |es|
    ensures DirMap(Without(es, r)) == DirMap(es) - {CName(es[r].name).value}
  {
    hide CName, DirMap;
    var front, last := es[..|es| - 1], es[|es| - 1];
    assert es == front + [last];
    DirMapLast(front, last);
    NamedFront(es);
    if r == |es| - 1 {
      assert Without(es, r) == front;
      DirMapDomain(front, CName(last.name).value);
      NotBefore(front, last);
    } else {
      UnlinkRefines(front, r);
      WithoutFront(front, last, r);
      DirMapLast(Without(front, r), last);
      DistinctEnds(es, r);
    }
  }

  /** The last name of a well-named directory does not occur before. */
  lemma NotBefore(front: seq<Dirent>, last: Dirent)
    requires Named(front + [last])
    ensures forall i :: 0 <= i < |front| ==> CName(front[i].name) != CName(last.name)
  {
    hide CName;
    forall i | 0 <= i < |front|
      ensures CName(front[i].name) != CName(last.name)
    {
      assert (front + [last])[i] == front[i] && (front + [last])[|front|] == last;
    }
  }

  lemma NamedFront(es: seq<Dirent>)
    requires Named(es) && es != []
    ensures Named(es[..|es| - 1])
  {
    hide CName;
  }

  lemma DistinctEnds(es: seq<Dirent>, r: nat)
    requires Named(es) && r < |es| - 1
    ensures CName(es[r].name).Some? && CName(es[|es| - 1].name).Some?
    ensures CName(es[r].name) != CName(es[|es| - 1].name)
  {
    hide CName;
  }

  // -------------------------------------------------------------------- runs

  /** The dirents a buffer has room for: the entries, and the unused slots behind them
      with what was left there. */
  datatype Memory = Memory(entries: seq<Dirent>, spare: seq<Dirent>)

  /** A create or an unlink; grown is what the slots held that a reallocation added. */
  datatype DirOp = Create(name: Name, id: BlobId, grown: seq<Dirent>) | Unlink(name: Name)

  ghost function FirstMatch(es: seq<Dirent>, name: Name): (r: int)
    ensures LookupIs(es, name, r)
  {
    if i :| 0 <= i < |es| && Matches(es[i].name, name) && forall j :: 0 <= j < i ==> !Matches(es[j].name, name) then i
    else
      NoFirst(es, name, |es|);
      -1
  }

  /** Without a first match there is none. */
  lemma {:induction false} NoFirst(es: seq<Dirent>, name: Name, n: nat)
    requires n <= |es|
    requires !exists i :: 0 <= i < |es| && Matches(es[i].name, name) &&
                          forall j :: 0 <= j < i ==> !Matches(es[j].name, name)
    ensures forall j :: 0 <= j < n ==> !Matches(es[j].name, name)
  {
    if n > 0 {
      NoFirst(es, name, n - 1);
    }
  }

  /** Lookup has one answer. */
  lemma FirstMatchIs(es: seq<Dirent>, name: Name, r: int)
    requires LookupIs(es, name, r)
    ensures r == FirstMatch(es, name)
  {
    hide Matches;
  }

  /** What the name field of the next entry holds before the name is copied there. */
  ghost function NextField(m: Memory, grown: seq<Dirent>): NameField {
    var spare := m.spare + grown;
    if spare == [] then seq(SPDK_MAX_NAME_COUNT, _ => NUL) else spare[0].name
  }

  /** `add_dirent` takes the first unused slot. */
  ghost function Appended(m: Memory, name: Name, id: BlobId, grown: seq<Dirent>): Memory {
    var spare := m.spare + grown;
    Memory(m.entries + [Dirent(CopyName(NextField(m, grown), name), id)], if spare == [] then [] else spare[1..])
  }

  /** `monopoly_unlink` leaves a copy of the last entry in the slot that becomes unused. */
  ghost function Removed(m: Memory, r: nat): Memory
    requires r < |m.entries|
  {
    Memory(Without(m.entries, r), [m.entries[|m.entries| - 1]] + m.spare)
  }

  ghost function DirStep(m: Memory, op: DirOp): Memory {
    var r := FirstMatch(m.entries, op.name);
    match op
    case Create(name, id, grown) => if r != -1 then m else Appended(m, name, id, grown)
    case Unlink(name) => if r == -1 then m else Removed(m, r)
  }

  ghost function DirRun(m: Memory, ops: seq<DirOp>): Memory {
    if ops == [] then m else DirStep(DirRun(m, ops[..|ops| - 1]), ops[|ops| - 1])
  }

  /** Every create of the run that adds an entry has a slot to put it in. */
  ghost predicate RoomyRun(m: Memory, ops: seq<DirOp>) {
    ops != [] ==> RoomyRun(m, ops[..|ops| - 1]) && Roomy(DirRun(m, ops[..|ops| - 1]), ops[|ops| - 1])
  }

  ghost predicate Roomy(m: Memory, op: DirOp) {
    op.Create? && FirstMatch(m.entries, op.name) == -1 ==> m.spare + op.grown != []
  }

  /** What the same operation does to a map. */
  ghost function MapStep(m: map<string, BlobId>, op: DirOp): map<string, BlobId> {
    match op
    case Create(name, id, _) => if name in m then m else m[name := id]
    case Unlink(name) => m - {name}
  }

  ghost function MapRun(m: map<string, BlobId>, ops: seq<DirOp>): map<string, BlobId> {
    if ops == [] then m else MapStep(MapRun(m, ops[..|ops| - 1]), ops[|ops| - 1])
  }

  /** If the operation adds an entry, its name is copied in front of a NUL. */
  ghost predicate CleanOp(m: Memory, op: DirOp) {
    op.Create? && FirstMatch(m.entries, op.name) == -1 ==> NextField(m, op.grown)[|op.name|] == NUL
  }

  /** So it is throughout the run. */
  ghost predicate CleanRun(m: Memory, ops: seq<DirOp>) {
    ops != [] ==> CleanRun(m, ops[..|ops| - 1]) && CleanOp(DirRun(m, ops[..|ops| - 1]), ops[|ops| - 1])
  }

  /** One call does to the map what the operation says, and keeps the directory well
      named, if and only if it is clean. */
  lemma DirStepRefines(m: Memory, op: DirOp)
    requires Named(m.entries)
    ensures var es := DirStep(m, op).entries;
      CleanOp(m, op) <==> Named(es) && DirMap(es) == MapStep(DirMap(m.entries), op)
  {
    hide Named, DirMap, CName, CopyName, Matches, NextField;
    var r := FirstMatch(m.entries, op.name);
    LookupRefines(m.entries, op.name, r);
    match op {
      case Create(name, id, grown) =>
        if r == -1 {
          CreateRefines(m.entries, NextField(m, grown), name, id);
        }
      case Unlink(name) =>
        if r != -1 {
          MatchesIs(m.entries[r].name, name);
          NamedWithout(m.entries, r);
          UnlinkRefines(m.entries, r);
        }
    }
  }

  /** After every call of the run the entries are well named and stand for the map that
      the operations so far make of the first one. */
  ghost predicate RunsAsMap(m: Memory, ops: seq<DirOp>) {
    && (ops != [] ==> RunsAsMap(m, ops[..|ops| - 1]))
    && Named(DirRun(m, ops).entries) && DirMap(DirRun(m, ops).entries) == MapRun(DirMap(m.entries), ops)
  }

  /** A run of calls is a run of the name-to-blob map, call by call, if and only if it is clean. */
  lemma {:induction false} DirRunRefines(m: Memory, ops: seq<DirOp>)
    requires Named(m.entries)
    ensures CleanRun(m, ops) <==> RunsAsMap(m, ops)
  {
    hide Named, DirMap, DirStep, MapStep, CleanOp;
    if ops != [] {
      var before := ops[..|ops| - 1];
      DirRunRefines(m, before);
      if RunsAsMap(m, before) {
        DirStepRefines(DirRun(m, before), ops[|ops| - 1]);
      }
    }
  }

  // ------------------------------------------------------- names that grow

  /** Nothing but NUL from index w on, in every slot. */
  ghost predicate Narrow(slots: seq<Dirent>, w: nat) {
    forall i, j :: 0 <= i < |slots| && w <= j < SPDK_MAX_NAME_COUNT ==> slots[i].name[j] == NUL
  }

  /** The length of the last name a run creates; w if it creates none. */
  ghost function Width(w: nat, ops: seq<DirOp>): nat {
    if ops == [] then w
    else if ops[|ops| - 1].Create? then |ops[|ops| - 1].name|
    else Width(w, ops[..|ops| - 1])
  }

  /** No name created is shorter than w or than one created before. */
  ghost predicate Rising(w: nat, ops: seq<DirOp>) {
    ops != [] ==>
      var before, op := ops[..|ops| - 1], ops[|ops| - 1];
      Rising(w, before) && (op.Create? ==> Width(w, before) <= |op.name|)
  }

  /** How many creates a run has. */
  ghost function Creates(ops: seq<DirOp>): nat {
    if ops == [] then 0 else Creates(ops[..|ops| - 1]) + if ops[|ops| - 1].Create? then 1 else 0
  }

  /** The first k unused slots hold nothing but NUL from index w on. */
  ghost predicate NarrowRoom(spare: seq<Dirent>, k: nat, w: nat) {
    k <= |spare| && Narrow(spare[..k], w)
  }

  lemma NarrowMore(slots: seq<Dirent>, w: nat, v: nat)
    requires Narrow(slots, w) && w <= v
    ensures Narrow(slots, v)
  {
  }

  lemma NarrowJoin(s: seq<Dirent>, t: seq<Dirent>, w: nat)
    requires Narrow(s, w) && Narrow(t, w)
    ensures Narrow(s + t, w)
  {
  }

  lemma NarrowParts(s: seq<Dirent>, i: nat, w: nat)
    requires Narrow(s, w) && i < |s|
    ensures Narrow([s[i]], w) && Narrow(s[..i], w) && Narrow(s[i + 1..], w)
  {
  }

  /** The name copied over the first unused slot. */
  lemma NarrowCopy(m: Memory, grown: seq<Dirent>, name: Name, id: BlobId)
    requires m.spare + grown != [] ==> Narrow([(m.spare + grown)[0]], |name|)
    ensures NextField(m, grown)[|name|] == NUL && Narrow([Dirent(CopyName(NextField(m, grown), name), id)], |name|)
  {
    if m.spare + grown != [] {
      assert [(m.spare + grown)[0]][0].name == NextField(m, grown);
    }
  }

  /** The first unused slot is taken: one fewer remains of the narrow ones. */
  lemma NarrowTaken(spare: seq<Dirent>, grown: seq<Dirent>, k: nat, w: nat)
    requires 0 < k && NarrowRoom(spare, k, w)
    ensures Narrow([(spare + grown)[0]], w) && NarrowRoom((spare + grown)[1..], k - 1, w)
  {
    NarrowParts(spare[..k], 0, w);
    assert (spare + grown)[1..][..k - 1] == spare[..k][1..];
    assert (spare + grown)[0] == spare[..k][0];
  }

  /** A slot is freed in front of the unused ones. */
  lemma NarrowFreed(last: Dirent, spare: seq<Dirent>, k: nat, w: nat)
    requires Narrow([last], w) && NarrowRoom(spare, k, w)
    ensures NarrowRoom([last] + spare, k, w)
  {
    if k > 0 {
      assert ([last] + spare)[..k] == [last] + spare[..k - 1];
      assert spare[..k - 1] == spare[..k][..k - 1];
      NarrowParts(spare[..k], k - 1, w);
      NarrowJoin([last], spare[..k - 1], w);
    }
  }

  /** One call, when k unused slots are narrow and the name is not too short. */
  lemma NarrowStep(m: Memory, op: DirOp, k: nat, w: nat)
    requires Narrow(m.entries, w) && NarrowRoom(m.spare, k, w)
    requires op.Create? ==> w <= |op.name| && 0 < k
    ensures CleanOp(m, op)
    ensures var v := if op.Create? then |op.name| else w;
      Narrow(DirStep(m, op).entries, v) && NarrowRoom(DirStep(m, op).spare, if op.Create? then k - 1 else k, v)
  {
    match op {
      case Create(name, id, grown) =>
        NarrowMore(m.entries, w, |name|);
        NarrowMore(m.spare[..k], w, |name|);
        NarrowTaken(m.spare, grown, k, |name|);
        hide Narrow, NextField, CopyName;
        NarrowCopy(m, grown, name, id);
        NarrowJoin(m.entries, [Dirent(CopyName(NextField(m, grown), name), id)], |name|);
      case Unlink(name) =>
        hide Narrow, NarrowRoom;
        var r := FirstMatch(m.entries, name);
        if r != -1 {
          var last := |m.entries| - 1;
          NarrowParts(m.entries, r, w);
          NarrowJoin(m.entries[..r], m.entries[r + 1..], w);
          NarrowParts(m.entries, last, w);
          NarrowFreed(m.entries[last], m.spare, k, w);
        }
    }
  }

  /** The same call, when all slots are narrow and new memory is too. */
  lemma NarrowGrownStep(m: Memory, op: DirOp, w: nat)
    requires Narrow(m.entries, w) && Narrow(m.spare, w)
    requires op.Create? ==> w <= |op.name| && Narrow(op.grown, |op.name|)
    ensures CleanOp(m, op)
    ensures var v := if op.Create? then |op.name| else w;
      Narrow(DirStep(m, op).entries, v) && Narrow(DirStep(m, op).spare, v)
  {
    hide Narrow, NextField, CopyName;
    match op {
      case Create(name, id, grown) =>
        var spare := m.spare + grown;
        NarrowMore(m.entries, w, |name|);
        NarrowMore(m.spare, w, |name|);
        NarrowJoin(m.spare, grown, |name|);
        if spare != [] {
          NarrowParts(spare, 0, |name|);
        }
        NarrowCopy(m, grown, name, id);
        NarrowJoin(m.entries, [Dirent(CopyName(NextField(m, grown), name), id)], |name|);
      case Unlink(name) =>
        var r := FirstMatch(m.entries, name);
        if r != -1 {
          var last := |m.entries| - 1;
          NarrowParts(m.entries, r, w);
          NarrowJoin(m.entries[..r], m.entries[r + 1..], w);
          NarrowParts(m.entries, last, w);
          NarrowJoin([m.entries[last]], m.spare, w);
        }
    }
  }

  /** New memory holds nothing but NUL behind the name created when it was added. */
  ghost predicate NarrowGrowth(ops: seq<DirOp>) {
    forall o :: o in ops && o.Create? ==> Narrow(o.grown, |o.name|)
  }

  /** Any number of creates, from any directory, a new one too: when no slot holds more than
      w characters, the names created never get shorter and new memory is narrow, zeroed
      memory for instance, the run is clean. */
  lemma {:induction false} RisingIsClean(m: Memory, ops: seq<DirOp>, w: nat)
    requires Narrow(m.entries, w) && Narrow(m.spare, w) && Rising(w, ops) && NarrowGrowth(ops)
    ensures CleanRun(m, ops)
    ensures Narrow(DirRun(m, ops).entries, Width(w, ops)) && Narrow(DirRun(m, ops).spare, Width(w, ops))
  {
    hide Narrow, DirStep, CleanOp;
    if ops != [] {
      var before := ops[..|ops| - 1];
      assert ops[|ops| - 1] in ops;
      RisingIsClean(m, before, w);
      NarrowGrownStep(DirRun(m, before), ops[|ops| - 1], Width(w, before));
    }
  }

  /** A condition on the first slots and the names created alone, to be checked beforehand:
      there is an unused slot for every create, no slot holds more than w characters, and
      the names created never get shorter.  Then the run is clean, whatever is reallocated. */
  lemma {:induction false} RisingInRoom(m: Memory, ops: seq<DirOp>, k: nat, w: nat)
    requires Narrow(m.entries, w) && NarrowRoom(m.spare, k, w) && Rising(w, ops) && Creates(ops) <= k
    ensures CleanRun(m, ops)
    ensures Narrow(DirRun(m, ops).entries, Width(w, ops))
    ensures NarrowRoom(DirRun(m, ops).spare, k - Creates(ops), Width(w, ops))
  {
    hide Narrow, NarrowRoom, DirStep, CleanOp;
    if ops != [] {
      var before := ops[..|ops| - 1];
      RisingInRoom(m, before, k, w);
      NarrowStep(DirRun(m, before), ops[|ops| - 1], k - Creates(before), Width(w, before));
    }
  }

  /** The same calls, whatever was reallocated. */
  ghost predicate SameCalls(ops: seq<DirOp>, other: seq<DirOp>) {
    |ops| == |other| && forall i :: 0 <= i < |ops| ==> SameOp(ops[i], other[i])
  }

  ghost predicate SameOp(a: DirOp, b: DirOp) {
    if a.Create? then b.Create? && a.name == b.name && a.id == b.id else a == b
  }

  lemma {:induction false} SameCallsSame(ops: seq<DirOp>, other: seq<DirOp>, m: map<string, BlobId>, w: nat)
    requires SameCalls(ops, other)
    ensures MapRun(m, ops) == MapRun(m, other) && Width(w, ops) == Width(w, other)
    ensures (Rising(w, ops) <==> Rising(w, other)) && Creates(ops) == Creates(other)
  {
    if ops != [] {
      SameCallsSame(ops[..|ops| - 1], other[..|other| - 1], m, w);
      assert SameOp(ops[|ops| - 1], other[|other| - 1]);
    }
  }

  // ---------------------------------------------------------------- example

  /** A run with one more call. */
  lemma OneMore(m: Memory, n: map<string, BlobId>, ops: seq<DirOp>, op: DirOp)
    ensures var now := DirRun(m, ops);
      && DirRun(m, ops + [op]) == DirStep(now, op) && MapRun(n, ops + [op]) == MapStep(MapRun(n, ops), op)
      && (RoomyRun(m, ops + [op]) <==> RoomyRun(m, ops) && Roomy(now, op))
      && (CleanRun(m, ops + [op]) <==> CleanRun(m, ops) && CleanOp(now, op))
  {
    hide DirStep, MapStep, Roomy, CleanOp;
    assert (ops + [op])[..|ops|] == ops;
  }

  /** A run of three calls, unfolded. */
  lemma ThreeCalls(m: Memory, n: map<string, BlobId>, a: DirOp, b: DirOp, c: DirOp)
    ensures var ops := [a, b, c];
      var m1 := DirStep(m, a);
      var m2 := DirStep(m1, b);
      && DirRun(m, ops) == DirStep(m2, c) && MapRun(n, ops) == MapStep(MapStep(MapStep(n, a), b), c)
      && (RoomyRun(m, ops) <==> Roomy(m, a) && Roomy(m1, b) && Roomy(m2, c))
      && (CleanRun(m, ops) <==> CleanOp(m, a) && CleanOp(m1, b) && CleanOp(m2, c))
  {
    hide DirStep, MapStep, Roomy, CleanOp;
    OneMore(m, n, [], a);
    OneMore(m, n, [a], b);
    OneMore(m, n, [a, b], c);
    assert [] + [a] == [a] && [a] + [b] == [a, b] && [a, b] + [c] == [a, b, c];
  }

  /** The fields of the example. */
  lemma StaleFields(blank: NameField)
    requires forall j :: 0 <= j < SPDK_MAX_NAME_COUNT ==> blank[j] == NUL
    ensures var ab := CopyName(blank, "ab");
      Matches(ab, "ab") && ab[1] == 'b' && CName(CopyName(ab, "c")) == Some("cb") && !Matches(CopyName(ab, "c"), "c")
  {
    var ab := CopyName(blank, "ab");
    assert ab[..2] == "ab";
    var cb := CopyName(ab, "c");
    assert cb[0] == 'c' && cb[1] == 'b' && cb[2] == NUL;
    assert cb[..2] == "cb";
    MatchesIs(cb, "cb");
  }

  /** Create "ab", unlink it, create "c" in the slot that became unused: the entry reads
      "cb", lookup does not find "c", and the map has another name than the calls say. */
  lemma StaleTail(blank: Dirent, x: BlobId, y: BlobId)
    requires forall j :: 0 <= j < SPDK_MAX_NAME_COUNT ==> blank.name[j] == NUL
    ensures var ops := [Create("ab", x, [blank]), Unlink("ab"), Create("c", y, [])];
      var es := DirRun(Memory([], []), ops).entries;
      && RoomyRun(Memory([], []), ops) && !CleanRun(Memory([], []), ops)
      && |es| == 1 && CName(es[0].name) == Some("cb") && FirstMatch(es, "c") == -1
      && DirMap(es) == map["cb" := y] && MapRun(map[], ops) == map["c" := y]
  {
    StaleFields(blank.name);
    var a, b, c := Create("ab", x, [blank]), Unlink("ab"), Create("c", y, []);
    var ab := Dirent(CopyName(blank.name, "ab"), x);
    var cb := Dirent(CopyName(ab.name, "c"), y);
    hide CopyName, Matches, CName;
    var m := Memory([], []);
    ThreeCalls(m, map[], a, b, c);
    assert m.spare + [blank] == [blank] && [blank][1..] == [] && m.entries + [ab] == [ab];
    assert DirStep(m, a) == Memory([ab], []) && Roomy(m, a);
    assert Without([ab], 0) == [] && [ab] + [] == [ab];
    var m1 := Memory([ab], []);
    assert FirstMatch([ab], "ab") == 0;
    assert DirStep(m1, b) == Memory([], [ab]) && Roomy(m1, b);
    var m2 := Memory([], [ab]);
    assert [ab] + [] == [ab] && [ab][1..] == [] && m2.entries + [cb] == [cb];
    assert NextField(m2, []) == ab.name;
    assert DirStep(m2, c) == Memory([cb], []) && Roomy(m2, c);
    hide DirStep, Roomy;
    StaleMap(cb, x, y);
    assert ab.name[1] == CopyName(blank.name, "ab")[1];
  }

  lemma StaleMap(cb: Dirent, x: BlobId, y: BlobId)
    requires CName(cb.name) == Some("cb") && cb.id == y
    ensures DirMap([cb]) == map["cb" := y]
    ensures map["ab" := x] - {"ab"} == map[]
  {
    DirMapLast([], cb);
    assert [] + [cb] == [cb];
  }
}

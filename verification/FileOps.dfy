/** Open files in the heap: blob I/O in units, chunk reads and writes, and the
    bounce-buffer loops over them. */
module FileOps {
  import opened Common
  import opened FileModel
  import opened FileRuns

  /** a[..] with bytes written from index p on. */
  ghost predicate Overwritten(now: seq<Byte>, was: seq<Byte>, p: nat, bytes: seq<Byte>) {
    p + |bytes| <= |was| && now == Splice(was, p, bytes)
  }

  /** `memcpy(dst + at, src + from, n)`. */
  method CopyBytes(dst: array<Byte>, at: nat, src: array<Byte>, from: nat, n: nat)
    requires dst != src && at + n <= dst.Length && from + n <= src.Length
    modifies dst
    ensures Overwritten(dst[..], old(dst[..]), at, src[from..from + n])
  {
    forall i | at <= i < at + n {
      dst[i] := src[from + (i - at)];
    }
    assert dst[..] == Splice(old(dst[..]), at, src[from..from + n]);
  }

  /** A blob: its clusters are the first ones of its part of the device. */
  class Blob {
    var clusters: nat
    const data: array<Byte>

    constructor (device: array<Byte>)
      ensures clusters == 0 && data == device
    {
      clusters := 0;
      data := device;
    }
  }

  /** The unit offset and count of an aligned transfer, against the blobstore's bound. */
  lemma UnitBound(offset: int, size: nat, ioUnit: nat, capacity: nat)
    requires ioUnit > 0 && size > 0 && Aligned(offset, ioUnit) && Aligned(size, ioUnit)
    requires -MAX_OFF <= offset < MAX_OFF && capacity < MAX_OFF
    ensures var unit := ToSize(offset) / ioUnit;
      var count := (size - 1) / ioUnit + 1;
      && (unit * ioUnit + count * ioUnit <= capacity <==> ToSize(offset) + size <= capacity)
      && count * ioUnit == size
      && (0 <= offset ==> unit * ioUnit == offset)
  {
    ToSizeIs(offset);
    UnitsCover(if offset >= 0 then offset else 0, size, ioUnit);
    var u := ToSize(offset);
    assert u / ioUnit * ioUnit > u - ioUnit;
    assert size >= ioUnit by {
      SizeAtLeast(size, ioUnit);
    }
  }

  lemma SizeAtLeast(size: nat, ioUnit: nat)
    requires ioUnit > 0 && size > 0 && Aligned(size, ioUnit)
    ensures size >= ioUnit
  {
    if size < ioUnit {
      DivIs(size, ioUnit, 0);
    }
  }

  /** `struct spdkfs_file` on one blob. */
  class OpenFile {
    var pos: int
    var size: nat
    var writes: nat
    const blob: Blob
    const dev: Device

    ghost function State(): FileState
      reads this, blob, blob.data
    {
      FileState(pos, size, writes, blob.clusters, blob.data[..])
    }

    ghost predicate Valid()
      reads this, blob, blob.data
    {
      Sensible(dev) && Aligned(dev.ioUnit, 512) && Kept(State(), dev)
    }

    /** `simple_fs_create`, with f_pos set by `monopoly_create`. */
    constructor (b: Blob, d: Device)
      requires Sensible(d) && Aligned(d.ioUnit, 512) && b.data.Length < MAX_OFF
      requires Span(b.clusters, d.cluster) <= b.data.Length
      ensures Valid() && blob == b && dev == d && pos == 0 && size == 0 && writes == 0
    {
      blob, dev := b, d;
      pos, size, writes := 0, 0, 0;
      new;
      AlignedZero(d.ioUnit);
      hide Aligned, Span;
    }

    /** `generic_blob_io` for a read. */
    method BlobRead(n: nat, buffer: array<Byte>, ioOk: bool) returns (ok: bool)
      requires Valid() && n > 0 && Aligned(n, dev.ioUnit) && n <= buffer.Length && buffer != blob.data
      modifies buffer
      ensures ok <==> ioOk && InBlob(State(), dev.cluster, n)
      ensures ok ==> 0 <= pos && pos + n <= blob.data.Length &&
                     Overwritten(buffer[..], old(buffer[..]), 0, blob.data[pos..pos + n])
      ensures !ok ==> buffer[..] == old(buffer[..])
    {
      hide Span;
      UnitBound(pos, n, dev.ioUnit, Capacity(State(), dev.cluster));
      ToSizeIs(pos);
      hide ToSize, Aligned;
      var unit := ToSize(pos) / dev.ioUnit;
      var count := (n - 1) / dev.ioUnit + 1;
      SpanIs(blob.clusters, dev.cluster);
      ok := ioOk && unit * dev.ioUnit + count * dev.ioUnit <= blob.clusters * dev.cluster;
      if ok {
        CopyBytes(buffer, 0, blob.data, unit * dev.ioUnit, count * dev.ioUnit);
      }
    }

    /** `generic_blob_io` for a write. */
    method BlobWrite(n: nat, buffer: array<Byte>, ioOk: bool) returns (ok: bool)
      requires Valid() && n > 0 && Aligned(n, dev.ioUnit) && n <= buffer.Length && buffer != blob.data
      modifies blob.data
      ensures ok <==> ioOk && InBlob(old(State()), dev.cluster, n)
      ensures ok ==> 0 <= pos && Overwritten(blob.data[..], old(blob.data[..]), pos, buffer[..n])
      ensures !ok ==> blob.data[..] == old(blob.data[..])
    {
      hide Span;
      UnitBound(pos, n, dev.ioUnit, Capacity(State(), dev.cluster));
      ToSizeIs(pos);
      hide ToSize, Aligned;
      var unit := ToSize(pos) / dev.ioUnit;
      var count := (n - 1) / dev.ioUnit + 1;
      SpanIs(blob.clusters, dev.cluster);
      ok := ioOk && unit * dev.ioUnit + count * dev.ioUnit <= blob.clusters * dev.cluster;
      if ok {
        CopyBytes(blob.data, unit * dev.ioUnit, buffer, 0, count * dev.ioUnit);
        assert buffer[0..0 + n] == buffer[..n];
      }
    }

    /** `simple_fs_read`. */
    method ReadOnce(n: nat, buffer: array<Byte>, env: Env) returns (ret: nat)
      requires Valid() && n > 0 && Aligned(n, dev.ioUnit) && n <= buffer.Length && buffer != blob.data
      modifies this`pos, buffer
      ensures var r := ReadChunk(old(State()), dev.cluster, n, env);
        && State() == r.state && ret == r.ret
        && Overwritten(buffer[..], old(buffer[..]), 0, r.bytes)
      ensures Valid()
    {
      AlignedDown(n, dev.ioUnit, 512);
      assert n % 512 == 0;
      ToSizeIs(pos);
      hide ToSize, Span, Aligned;
      ChunkStaysValid(State(), dev, n, env);
      if ToSize(pos + n) > size {
        return 0;
      }
      var ok := BlobRead(n, buffer, env.ioOk);
      if ok {
        pos := pos + n;
        return n;
      }
      return 0;
    }

    /** `generic_blob_resize`: to the clusters that hold the given number of bytes. */
    method BlobResize(bytes: nat, resizeOk: bool)
      requires bytes > 0 && dev.cluster > 0
      modifies blob`clusters
      ensures blob.clusters ==
        if resizeOk && Span((bytes - 1) / dev.cluster + 1, dev.cluster) <= blob.data.Length
        then (bytes - 1) / dev.cluster + 1 else old(blob.clusters)
    {
      var clusters := (bytes - 1) / dev.cluster + 1;
      SpanIs(clusters, dev.cluster);
      if resizeOk && clusters * dev.cluster <= blob.data.Length {
        blob.clusters := clusters;
      }
    }

    /** Lines 40-46 of `simple_fs_write`: what happens before the I/O. */
    method PrepareWrite(n: nat, resizeOk: bool)
      requires Valid()
      modifies this`size, this`writes, blob`clusters
      ensures Valid() && State() == BeforeWrite(old(State()), dev.cluster, n, Env(resizeOk, true))
    {
      hide Span, Aligned;
      ghost var before := State();
      GrowArguments(blob.clusters, dev.cluster);
      ToSizeIs(pos);
      hide ToSize;
      SpanIs(blob.clusters, dev.cluster);
      var max := blob.clusters * dev.cluster;
      if ToSize(pos + n) > max {
        BlobResize(max + dev.cluster, resizeOk);
      }
      if ToSize(pos) > size {
        size := ToSize(pos);
      }
      writes := (writes + 1) % U32;
      BeforeWriteValid(before, dev, n, Env(resizeOk, true));
    }

    /** `simple_fs_write`. */
    method WriteOnce(n: nat, buffer: array<Byte>, env: Env) returns (ret: nat)
      requires Valid() && n > 0 && Aligned(n, dev.ioUnit) && n <= buffer.Length && buffer != blob.data
      modifies this`pos, this`size, this`writes, blob`clusters, blob.data
      ensures var r := WriteChunk(old(State()), dev.cluster, buffer[..n], env);
        State() == r.state && ret == r.ret
      ensures Valid()
    {
      hide Span, Aligned, BeforeWrite;
      ghost var before := State();
      WriteStaysValid(before, dev, buffer[..n], env);
      SameBefore(before, dev.cluster, n, env);
      PrepareWrite(n, env.resizeOk);
      ToSizeIs(pos);
      hide ToSize;
      var ok := BlobWrite(n, buffer, env.ioOk);
      if ok {
        pos := pos + n;
        return n;
      }
      return 0;
    }

    /** `monopoly_lseek`. */
    method Lseek(offset: int, whence: int) returns (at: int)
      requires Valid()
      requires -MAX_OFF <= Sought(State(), offset, whence, dev.ioUnit) < MAX_OFF
      modifies this`pos
      ensures Valid() && at == pos
      ensures pos == if whence == 0 then TruncDiv(offset, dev.ioUnit) * dev.ioUnit
                     else if whence == 1 then old(pos) + TruncDiv(offset, dev.ioUnit) * dev.ioUnit
                     else old(pos)
      ensures State() == Step(old(State()), Seek(offset, whence), dev).state
    {
      hide Aligned;
      SeekAligned(State(), offset, whence, dev.ioUnit);
      RoundOffsetIs(offset, dev.ioUnit);
      var actual := TruncDiv(offset, dev.ioUnit) * dev.ioUnit;
      if whence == SEEK_SET {
        pos := actual;
      }
      if whence == SEEK_CUR {
        pos := pos + actual;
      }
      return pos;
    }

    /** `monopoly_read` into the caller's buffer; bounce is the shared buffer, and
        registered says that the caller's buffer is DMA memory. */
    method ReadUser(user: array<Byte>, nbytes: nat, bounce: array<Byte>, registered: bool, env: nat -> Env)
      returns (ret: nat)
      requires Valid() && bounce.Length == dev.buf && nbytes <= user.Length
      requires user != bounce && user != blob.data && bounce != blob.data
      modifies this`pos, user, bounce
      ensures Valid()
      ensures var r := ReadCall(old(State()), nbytes, registered, env, dev);
        State() == r.state && ret == r.ret && Overwritten(user[..], old(user[..]), 0, r.bytes)
    {
      hide Aligned, RoundDown, ReadChunk, ReadChunks;
      RoundDownIs(nbytes, dev.ioUnit);
      RoundAligned(nbytes, dev.ioUnit);
      var total := nbytes / dev.ioUnit * dev.ioUnit;
      if total <= 0 {
        assert user[..] == Splice(user[..], 0, []);
        return 0;
      }
      if registered {
        ret := ReadOnce(total, user, env(0));
      } else {
        ret := ReadBounced(user, total, bounce, env);
      }
    }

    /** Lines 120-133 of monopoly_ops.c. */
    method ReadBounced(user: array<Byte>, total: nat, bounce: array<Byte>, env: nat -> Env) returns (ret: nat)
      requires Valid() && bounce.Length == dev.buf && 0 < total <= user.Length && Aligned(total, dev.ioUnit)
      requires user != bounce && user != blob.data && bounce != blob.data
      modifies this`pos, user, bounce
      ensures Valid()
      ensures var r := ReadChunks(old(State()), dev.cluster, dev.buf, total, env, 0);
        State() == r.state && ret == r.ret && Overwritten(user[..], old(user[..]), 0, r.bytes)
    {
      hide Aligned, ReadChunk, ReadChunks, Span, Kept, Overwritten, Splice, Joined;
      ret := 0;
      var i := 0;
      ghost var got: seq<Byte> := [];
      ghost var whole := ReadChunks(State(), dev.cluster, dev.buf, total, env, 0);
      SpanZero(dev.buf);
      NothingCopied(user[..]);
      ReadJoinNone(State(), dev.cluster, dev.buf, total, env);
      LoopBound(0, total, dev.buf);
      while i < UpperDiv(total, dev.buf)
        invariant 0 <= i && Valid() && |got| == ret <= total
        invariant i < UpperDiv(total, dev.buf) ==> ret == Span(i, dev.buf) < total
        invariant i >= UpperDiv(total, dev.buf) ==> ret == total
        invariant Aligned(total - ret, dev.ioUnit)
        invariant Overwritten(user[..], old(user[..]), 0, got)
        invariant ReadJoined(whole, ret, got, ReadChunks(State(), dev.cluster, dev.buf, total - ret, env, i))
        decreases total - ret
      {
        SpanIs(i, dev.buf);
        LoopBound(i, total, dev.buf);
        LoopBound(i + 1, total, dev.buf);
        SpanNext(i, dev.buf);
        var n := Min(dev.buf, total - i * dev.buf);
        ChunkAligned(n, dev, total - ret);
        ReadUnfold(State(), dev.cluster, dev.buf, total - ret, env, i);
        ghost var one := ReadChunk(State(), dev.cluster, n, env(i));
        var r := ReadOnce(n, bounce, env(i));
        if r == 0 {
          ReadJoinStop(whole, ret, got, one);
          return;
        }
        ReadJoinMore(whole, ret, got, one, ReadChunks(State(), dev.cluster, dev.buf, total - ret - n, env, i + 1));
        CopiedFrom(bounce[..], one.bytes);
        OverwriteMore(old(user[..]), user[..], got, one.bytes);
        CopyBytes(user, i * dev.buf, bounce, 0, r);
        got := got + one.bytes;
        ret := ret + r;
        i := i + 1;
      }
      ReadNone(State(), dev.cluster, dev.buf, env, i);
      ReadJoinStop(whole, ret, got, Result(State(), 0, []));
    }

    /** `monopoly_write` from the caller's buffer, which it also writes back to. */
    method WriteUser(user: array<Byte>, nbytes: nat, bounce: array<Byte>, registered: bool, env: nat -> Env)
      returns (ret: nat)
      requires Valid() && bounce.Length == dev.buf && nbytes <= user.Length
      requires user != bounce && user != blob.data && bounce != blob.data
      modifies this`pos, this`size, this`writes, blob`clusters, blob.data, user, bounce
      ensures Valid() && user[..] == old(user[..])
      ensures var r := WriteCall(old(State()), old(user[..nbytes]), registered, env, dev);
        State() == r.state && ret == r.ret
    {
      hide Aligned, RoundDown, WriteChunk, WriteChunks;
      RoundDownIs(nbytes, dev.ioUnit);
      RoundAligned(nbytes, dev.ioUnit);
      var total := nbytes / dev.ioUnit * dev.ioUnit;
      assert user[..nbytes][..total] == user[..total];
      if total <= 0 {
        return 0;
      }
      if registered {
        ret := WriteOnce(total, user, env(0));
      } else {
        ret := WriteBounced(user, total, bounce, env);
      }
    }

    /** Lines 152-164 of monopoly_ops.c. */
    method WriteBounced(user: array<Byte>, total: nat, bounce: array<Byte>, env: nat -> Env) returns (ret: nat)
      requires Valid() && bounce.Length == dev.buf && 0 < total <= user.Length && Aligned(total, dev.ioUnit)
      requires user != bounce && user != blob.data && bounce != blob.data
      modifies this`pos, this`size, this`writes, blob`clusters, blob.data, user, bounce
      ensures Valid() && user[..] == old(user[..])
      ensures var r := WriteChunks(old(State()), dev.cluster, dev.buf, old(user[..total]), env, 0);
        State() == r.state && ret == r.ret
    {
      hide Aligned, WriteChunk, WriteChunks, Span, Kept, Splice;
      ret := 0;
      var i := 0;
      ghost var bytes := user[..total];
      ghost var whole := WriteChunks(State(), dev.cluster, dev.buf, bytes, env, 0);
      SpanZero(dev.buf);
      LoopBound(0, total, dev.buf);
      assert bytes[0..] == bytes;
      WriteNoBytes(State(), dev.cluster, dev.buf, bytes, env, 0);
      while i < UpperDiv(total, dev.buf)
        invariant 0 <= i && Valid() && ret <= total
        invariant i < UpperDiv(total, dev.buf) ==> ret == Span(i, dev.buf) < total
        invariant i >= UpperDiv(total, dev.buf) ==> ret == total
        invariant Aligned(total - ret, dev.ioUnit)
        invariant user[..] == old(user[..])
        invariant WriteJoined(whole, ret, WriteChunks(State(), dev.cluster, dev.buf, bytes[ret..], env, i))
        decreases total - ret
      {
        SpanIs(i, dev.buf);
        LoopBound(i, total, dev.buf);
        LoopBound(i + 1, total, dev.buf);
        SpanNext(i, dev.buf);
        var n := Min(dev.buf, total - i * dev.buf);
        ChunkAligned(n, dev, total - ret);
        WriteUnfold(State(), dev.cluster, dev.buf, bytes[ret..], env, i);
        ChunkOf(user[..], total, ret, n);
        var w := WriteRound(user, i * dev.buf, n, bounce, env(i));
        if w == 0 {
          return;
        }
        ret := ret + w;
        i := i + 1;
      }
      assert bytes[ret..] == [];
      WriteNone(State(), dev.cluster, dev.buf, env, i);
    }

    /** Lines 154-159: one chunk through the bounce buffer and back. */
    method WriteRound(user: array<Byte>, at: nat, n: nat, bounce: array<Byte>, env: Env) returns (w: nat)
      requires Valid() && 0 < n <= bounce.Length && at + n <= user.Length && Aligned(n, dev.ioUnit)
      requires user != bounce && user != blob.data && bounce != blob.data
      modifies this`pos, this`size, this`writes, blob`clusters, blob.data, user, bounce
      ensures Valid() && user[..] == old(user[..])
      ensures var one := WriteChunk(old(State()), dev.cluster, old(user[at..at + n]), env);
        State() == one.state && w == one.ret
    {
      hide Aligned, WriteChunk, Kept, Splice;
      WriteAllOrNothing(State(), dev.cluster, user[at..at + n], env);
      CopyBytes(bounce, 0, user, at, n);
      CopiedIs(bounce[..], user[at..at + n]);
      w := WriteOnce(n, bounce, env);
      if w != 0 {
        CopyBack(user[..], bounce[..], at, n);
        CopyBytes(user, at, bounce, 0, w);
      }
    }
  }

  /** One call, with a fresh buffer. */
  method ExecuteOne(file: OpenFile, op: FileOp, bounce: array<Byte>) returns (answer: Answer)
    requires file.Valid() && bounce.Length == file.dev.buf && bounce != file.blob.data
    requires op.Seek? ==> -MAX_OFF <= Sought(file.State(), op.offset, op.whence, file.dev.ioUnit) < MAX_OFF
    modifies file, file.blob, file.blob.data, bounce
    ensures file.Valid()
    ensures file.State() == Step(old(file.State()), op, file.dev).state
    ensures answer == AnswerTo(old(file.State()), op, file.dev)
  {
    hide ReadCall, WriteCall, Kept, Sought, Aligned, Overwritten;
    match op {
      case Seek(offset, whence) =>
        var at := file.Lseek(offset, whence);
        answer := Answer(at, []);
      case Read(n, registered, env) =>
        var user := new Byte[n];
        ReadDelivers(file.State(), n, registered, env, file.dev);
        var ret := file.ReadUser(user, n, bounce, registered, env);
        CopiedIs(user[..], ReadCall(old(file.State()), n, registered, env, file.dev).bytes);
        answer := Answer(ret, user[..ret]);
      case Write(data, registered, env) =>
        var user := new Byte[|data|](i requires 0 <= i < |data| => data[i]);
        assert user[..] == data && user[..|data|] == data;
        WriteDelivers(file.State(), data, registered, env, file.dev);
        var ret := file.WriteUser(user, |data|, bounce, registered, env);
        answer := Answer(ret, []);
    }
  }

  lemma ReadDelivers(s: FileState, n: nat, registered: bool, env: nat -> Env, d: Device)
    requires Sensible(d) && Kept(s, d)
    ensures var r := ReadCall(s, n, registered, env, d); |r.bytes| == r.ret
  {
    hide ReadCall, Kept, Aligned;
    ReadStep(s, n, registered, env, d);
  }

  lemma WriteDelivers(s: FileState, data: seq<Byte>, registered: bool, env: nat -> Env, d: Device)
    requires Sensible(d)
    ensures WriteCall(s, data, registered, env, d).bytes == []
  {
    hide RoundDown, WriteChunks, Aligned;
    WriteNoBytes(s, d.cluster, d.buf, data[..RoundDown(|data|, d.ioUnit)], env, 0);
  }

  /** Any run of calls on an open file is the run of the model: same state, same return
      values, same bytes delivered. */
  method Execute(file: OpenFile, ops: seq<FileOp>, bounce: array<Byte>) returns (answers: seq<Answer>)
    requires file.Valid() && bounce.Length == file.dev.buf && bounce != file.blob.data
    requires NoOverflow(file.State(), ops, file.dev)
    modifies file, file.blob, file.blob.data, bounce
    ensures file.Valid() && file.State() == Run(old(file.State()), ops, file.dev)
    ensures answers == RunAnswers(old(file.State()), ops, file.dev)
  {
    hide Step, Kept, Sought, Aligned;
    answers := [];
    var i := 0;
    while i < |ops|
      invariant 0 <= i <= |ops| && file.Valid()
      invariant file.State() == Run(old(file.State()), ops[..i], file.dev)
      invariant answers == RunAnswers(old(file.State()), ops[..i], file.dev)
    {
      NoOverflowPrefix(old(file.State()), ops, file.dev, i + 1);
      assert ops[..i + 1][..i] == ops[..i];
      var answer := ExecuteOne(file, ops[i], bounce);
      answers := answers + [answer];
      i := i + 1;
    }
    assert ops[..|ops|] == ops;
  }

  /** A chunk of what is left is a piece of the caller's buffer. */
  lemma ChunkOf(user: seq<Byte>, total: nat, ret: nat, n: nat)
    requires ret + n <= total <= |user|
    ensures user[..total][ret..][..n] == user[ret..ret + n]
    ensures user[..total][ret..][n..] == user[..total][ret + n..]
  {
  }

  /** What was copied to the front of a buffer. */
  lemma CopiedIs(now: seq<Byte>, bytes: seq<Byte>)
    ensures forall was :: Overwritten(now, was, 0, bytes) ==> |bytes| <= |now| && now[..|bytes|] == bytes
  {
    forall was | Overwritten(now, was, 0, bytes)
      ensures |bytes| <= |now| && now[..|bytes|] == bytes
    {
    }
  }

  /** Copying the same bytes back changes nothing. */
  lemma CopyBack(user: seq<Byte>, bounce: seq<Byte>, at: nat, n: nat)
    requires at + n <= |user| && n <= |bounce| && bounce[..n] == user[at..at + n]
    ensures var same := bounce[0..0 + n]; forall now :: Overwritten(now, user, at, same) ==> now == user
  {
    var same := bounce[0..0 + n];
    assert same == user[at..at + n];
    assert Splice(user, at, same) == user;
  }

  ghost predicate WriteJoined(whole: Result, ret: nat, rest: Result) {
    whole == Result(rest.state, ret + rest.ret, [])
  }

  /** `UPPER_DIV(a, b)`. */
  function UpperDiv(a: int, b: nat): int
    requires b > 0
  {
    (a - 1) / b + 1
  }

  ghost predicate ReadJoined(whole: Result, ret: nat, got: seq<Byte>, rest: Result) {
    whole == Result(rest.state, ret + rest.ret, got + rest.bytes)
  }

  lemma SpanZero(b: nat)
    ensures Span(0, b) == 0
  {
  }

  lemma NothingCopied(user: seq<Byte>)
    ensures Overwritten(user, user, 0, [])
  {
    assert Splice(user, 0, []) == user;
  }

  lemma ReadJoinNone(s: FileState, cluster: nat, buf: nat, total: nat, env: nat -> Env)
    requires buf > 0
    ensures var w := ReadChunks(s, cluster, buf, total, env, 0); ReadJoined(w, 0, [], w)
  {
  }

  lemma ReadJoinStop(whole: Result, ret: nat, got: seq<Byte>, one: Result)
    requires one.ret == 0 && one.bytes == []
    ensures ReadJoined(whole, ret, got, one) ==> whole == Result(one.state, ret, got)
    ensures forall rest :: Joined(one, rest) == one
  {
    assert got + [] == got;
  }

  lemma ReadJoinMore(whole: Result, ret: nat, got: seq<Byte>, one: Result, rest: Result)
    requires ReadJoined(whole, ret, got, Joined(one, rest)) && one.ret > 0
    ensures ReadJoined(whole, ret + one.ret, got + one.bytes, rest)
  {
    assert got + (one.bytes + rest.bytes) == got + one.bytes + rest.bytes;
  }

  lemma CopiedFrom(now: seq<Byte>, bytes: seq<Byte>)
    ensures forall was :: Overwritten(now, was, 0, bytes) ==> |bytes| <= |now| && now[0..|bytes|] == bytes
  {
    forall was | Overwritten(now, was, 0, bytes)
      ensures |bytes| <= |now| && now[0..|bytes|] == bytes
    {
    }
  }

  /** Two consecutive copies are one. */
  lemma OverwriteMore(first: seq<Byte>, mid: seq<Byte>, got: seq<Byte>, more: seq<Byte>)
    requires Overwritten(mid, first, 0, got)
    ensures forall now :: Overwritten(now, mid, |got|, more) ==> Overwritten(now, first, 0, got + more)
  {
    forall now | Overwritten(now, mid, |got|, more)
      ensures Overwritten(now, first, 0, got + more)
    {
      assert Splice(Splice(first, 0, got), |got|, more) == Splice(first, 0, got + more);
    }
  }

  /** `i < UPPER_DIV(total, buf)`. */
  lemma LoopBound(i: nat, total: nat, buf: nat)
    requires buf > 0 && total > 0
    ensures i < UpperDiv(total, buf) <==> Span(i, buf) < total
  {
    var q := (total - 1) / buf;
    assert q * buf <= total - 1 < q * buf + buf;
    SpanIs(i, buf);
    if i <= q {
      MulMono(i, q, buf);
    } else {
      MulMono(q + 1, i, buf);
    }
  }

  lemma ChunkAligned(n: nat, d: Device, left: nat)
    requires Sensible(d) && n == Min(d.buf, left) && Aligned(left, d.ioUnit)
    ensures Aligned(n, d.ioUnit) && Aligned(left - n, d.ioUnit)
  {
    AlignedAdd(left, n, d.ioUnit);
  }

  /** A multiple of a multiple. */
  lemma AlignedDown(n: nat, ioUnit: nat, k: nat)
    requires ioUnit > 0 && k > 0 && Aligned(n, ioUnit) && Aligned(ioUnit, k)
    ensures Aligned(n, k)
  {
    var p, q := n / ioUnit, ioUnit / k;
    assert n == p * ioUnit && ioUnit == q * k;
    assert n == (p * q) * k;
    MultipleIs(p * q, k);
  }

  /** What happens before the I/O does not depend on whether the I/O succeeds. */
  lemma SameBefore(s: FileState, cluster: nat, n: nat, env: Env)
    ensures BeforeWrite(s, cluster, n, env) == BeforeWrite(s, cluster, n, Env(env.resizeOk, true))
    ensures BeforeWrite(s, cluster, n, env).pos == s.pos
  {
  }

  lemma BeforeWriteValid(s: FileState, d: Device, n: nat, env: Env)
    requires Kept(s, d)
    ensures Kept(BeforeWrite(s, d.cluster, n, env), d)
  {
    hide Aligned, Span;
    SpanNext(s.clusters, d.cluster);
  }

  /** The resize argument of a write names one more cluster. */
  lemma GrowArguments(clusters: nat, cluster: nat)
    requires cluster > 0
    ensures (Span(clusters, cluster) + cluster - 1) / cluster + 1 == clusters + 1
    ensures Span(clusters + 1, cluster) == Span(clusters, cluster) + cluster
  {
    SpanIs(clusters, cluster);
    DivIs(Span(clusters, cluster) + cluster - 1, cluster, clusters);
  }
}

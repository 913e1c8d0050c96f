/** Runs of lseek, read and write on one open file through the bounce buffer. */
module FileRuns {
  import opened Common
  import opened FileModel

  /** I/O unit, bounce buffer and cluster sizes. */
  datatype Device = Device(ioUnit: nat, buf: nat, cluster: nat)

  ghost predicate Sensible(d: Device) {
    d.ioUnit > 0 && d.cluster > 0 && d.buf > 0 && Aligned(d.buf, d.ioUnit)
  }

  const SEEK_SET: int := 0
  const SEEK_CUR: int := 1

  /** One call, with the blobstore's answers; registered says that the caller's buffer is
      DMA memory, which takes the direct path. */
  datatype FileOp =
    | Seek(offset: int, whence: int)
    | Read(nbytes: nat, registered: bool, env: nat -> Env)
    | Write(bytes: seq<Byte>, registered: bool, env: nat -> Env)

  /** C's division, which truncates. */
  function TruncDiv(a: int, b: nat): int
    requires b > 0
  {
    if a >= 0 then a / b else -((-a) / b)
  }

  /** `__offset / io_unit * io_unit`: rounded toward zero. */
  function RoundOffset(offset: int, ioUnit: nat): int
    requires ioUnit > 0
  {
    if offset >= 0 then RoundDown(offset, ioUnit) else 0 - RoundDown(-offset, ioUnit)
  }

  lemma RoundOffsetIs(offset: int, ioUnit: nat)
    requires ioUnit > 0
    ensures RoundOffset(offset, ioUnit) == TruncDiv(offset, ioUnit) * ioUnit
  {
    RoundDownIs(if offset >= 0 then offset else -offset, ioUnit);
    var q := (-offset) / ioUnit;
    assert (-q) * ioUnit == -(q * ioUnit);
  }

  /** The position after `monopoly_lseek`. */
  function Sought(s: FileState, offset: int, whence: int, ioUnit: nat): int
    requires ioUnit > 0
  {
    if whence == SEEK_SET then RoundOffset(offset, ioUnit)
    else if whence == SEEK_CUR then s.pos + RoundOffset(offset, ioUnit)
    else s.pos
  }

  /** `monopoly_read`. */
  function ReadCall(s: FileState, n: nat, registered: bool, env: nat -> Env, d: Device): Result
    requires d.ioUnit > 0 && d.buf > 0
  {
    var total := RoundDown(n, d.ioUnit);
    if total == 0 then Result(s, 0, [])
    else if registered then ReadChunk(s, d.cluster, total, env(0))
    else ReadChunks(s, d.cluster, d.buf, total, env, 0)
  }

  /** `monopoly_write`. */
  function WriteCall(s: FileState, bytes: seq<Byte>, registered: bool, env: nat -> Env, d: Device): Result
    requires d.ioUnit > 0 && d.buf > 0
  {
    var some := bytes[..RoundDown(|bytes|, d.ioUnit)];
    if some == [] then Result(s, 0, [])
    else if registered then WriteChunk(s, d.cluster, some, env(0))
    else WriteChunks(s, d.cluster, d.buf, some, env, 0)
  }

  function Step(s: FileState, op: FileOp, d: Device): Result
    requires d.ioUnit > 0 && d.buf > 0
  {
    match op
    case Seek(offset, whence) => Result(s.(pos := Sought(s, offset, whence, d.ioUnit)), 0, [])
    case Read(n, registered, env) => ReadCall(s, n, registered, env, d)
    case Write(bytes, registered, env) => WriteCall(s, bytes, registered, env, d)
  }

  function Run(s: FileState, ops: seq<FileOp>, d: Device): FileState
    requires d.ioUnit > 0 && d.buf > 0
  {
    if ops == [] then s else Step(Run(s, ops[..|ops| - 1], d), ops[|ops| - 1], d).state
  }

  /** What a caller gets back: the return value, and the bytes a read delivers. */
  datatype Answer = Answer(ret: int, bytes: seq<Byte>)

  /** lseek returns the new position, read and write the number of bytes. */
  function AnswerTo(s: FileState, op: FileOp, d: Device): Answer
    requires d.ioUnit > 0 && d.buf > 0
  {
    var r := Step(s, op, d);
    Answer(if op.Seek? then r.state.pos else r.ret, r.bytes)
  }

  /** The answers to the calls of a run. */
  function RunAnswers(s: FileState, ops: seq<FileOp>, d: Device): seq<Answer>
    requires d.ioUnit > 0 && d.buf > 0
  {
    if ops == [] then []
    else RunAnswers(s, ops[..|ops| - 1], d) + [AnswerTo(Run(s, ops[..|ops| - 1], d), ops[|ops| - 1], d)]
  }

  /** No seek of the run overflows an off_t. */
  ghost predicate NoOverflow(s: FileState, ops: seq<FileOp>, d: Device)
    requires d.ioUnit > 0 && d.buf > 0
  {
    ops != [] ==>
      var before, op := ops[..|ops| - 1], ops[|ops| - 1];
      && NoOverflow(s, before, d)
      && (op.Seek? ==> -MAX_OFF <= Sought(Run(s, before, d), op.offset, op.whence, d.ioUnit) < MAX_OFF)
  }

  lemma {:induction false} NoOverflowPrefix(s: FileState, ops: seq<FileOp>, d: Device, i: nat)
    requires d.ioUnit > 0 && d.buf > 0 && i <= |ops| && NoOverflow(s, ops, d)
    ensures NoOverflow(s, ops[..i], d)
  {
    hide Sought, Run;
    if i == |ops| {
      assert ops[..i] == ops;
    } else {
      NoOverflowPrefix(s, ops[..|ops| - 1], d, i);
      assert ops[..|ops| - 1][..i] == ops[..i];
    }
  }

  // ------------------------------------------------------------- alignment

  lemma MultipleIs(q: int, b: nat)
    requires b > 0
    ensures q * b % b == 0 && q * b / b == q
  {
    DivIs(q * b, b, q);
  }

  /** a is a multiple of the unit b. */
  predicate Aligned(a: int, b: nat)
    requires b > 0
  {
    a % b == 0
  }

  lemma AlignedAdd(a: int, c: int, b: nat)
    requires b > 0 && Aligned(a, b) && Aligned(c, b)
    ensures Aligned(a + c, b) && Aligned(a - c, b)
  {
    var p, q := a / b, c / b;
    assert a == p * b && c == q * b;
    assert a + c == (p + q) * b && a - c == (p - q) * b;
    MultipleIs(p + q, b);
    MultipleIs(p - q, b);
  }

  /** A position that is a multiple of the I/O unit, and a size that is one: the unit
      offset and the unit count passed to the blob cover exactly [pos, pos + size). */
  lemma UnitsCover(pos: nat, size: nat, ioUnit: nat)
    requires ioUnit > 0 && size > 0 && Aligned(pos, ioUnit) && Aligned(size, ioUnit)
    ensures pos / ioUnit * ioUnit == pos
    ensures ((size - 1) / ioUnit + 1) * ioUnit == size
  {
    var q := size / ioUnit;
    assert size == q * ioUnit && pos == pos / ioUnit * ioUnit;
    assert (q - 1) * ioUnit == q * ioUnit - ioUnit;
    DivIs(size - 1, ioUnit, q - 1);
  }

  lemma AlignedZero(b: nat)
    requires b > 0
    ensures Aligned(0, b)
  {
  }

  lemma ReadAllOrNothing(s: FileState, cluster: nat, n: nat, env: Env)
    ensures ReadChunk(s, cluster, n, env).ret in {0, n}
  {
  }

  lemma WriteAllOrNothing(s: FileState, cluster: nat, bytes: seq<Byte>, env: Env)
    ensures WriteChunk(s, cluster, bytes, env).ret in {0, |bytes|}
  {
  }

  lemma {:induction false} ReadAligned(s: FileState, d: Device, total: nat, env: nat -> Env, i: nat)
    requires Sensible(d) && Aligned(total, d.ioUnit)
    ensures Aligned(ReadChunks(s, d.cluster, d.buf, total, env, i).ret, d.ioUnit)
    decreases total
  {
    AlignedZero(d.ioUnit);
    hide Aligned, ReadChunk;
    if total > 0 {
      var n := Min(d.buf, total);
      var one := ReadChunk(s, d.cluster, n, env(i));
      ReadAllOrNothing(s, d.cluster, n, env(i));
      if one.ret > 0 {
        AlignedAdd(total, n, d.ioUnit);
        ReadAligned(one.state, d, total - n, env, i + 1);
        AlignedAdd(n, ReadChunks(one.state, d.cluster, d.buf, total - n, env, i + 1).ret, d.ioUnit);
      }
    }
  }

  lemma {:induction false} WriteAligned(s: FileState, d: Device, bytes: seq<Byte>, env: nat -> Env, i: nat)
    requires Sensible(d) && Aligned(|bytes|, d.ioUnit)
    ensures Aligned(WriteChunks(s, d.cluster, d.buf, bytes, env, i).ret, d.ioUnit)
    decreases |bytes|
  {
    AlignedZero(d.ioUnit);
    hide Aligned, WriteChunk;
    if bytes != [] {
      var n := Min(d.buf, |bytes|);
      var one := WriteChunk(s, d.cluster, bytes[..n], env(i));
      WriteAllOrNothing(s, d.cluster, bytes[..n], env(i));
      if one.ret > 0 {
        AlignedAdd(|bytes|, n, d.ioUnit);
        WriteAligned(one.state, d, bytes[n..], env, i + 1);
        AlignedAdd(n, WriteChunks(one.state, d.cluster, d.buf, bytes[n..], env, i + 1).ret, d.ioUnit);
      }
    }
  }

  lemma SeekAligned(s: FileState, offset: int, whence: int, ioUnit: nat)
    requires ioUnit > 0 && Aligned(s.pos, ioUnit)
    ensures Aligned(Sought(s, offset, whence, ioUnit), ioUnit)
  {
    RoundOffsetIs(offset, ioUnit);
    MultipleIs(TruncDiv(offset, ioUnit), ioUnit);
    hide Aligned, TruncDiv, RoundOffset;
    AlignedAdd(s.pos, RoundOffset(offset, ioUnit), ioUnit);
  }

  // ------------------------------------------------------------ every run

  /** What every call keeps. */
  ghost predicate Kept(s: FileState, d: Device) {
    d.ioUnit > 0 && Sound(s, d.cluster) && Aligned(s.pos, d.ioUnit)
  }

  lemma StepKeeps(s: FileState, op: FileOp, d: Device)
    requires Sensible(d) && Kept(s, d)
    requires op.Seek? ==> -MAX_OFF <= Sought(s, op.offset, op.whence, d.ioUnit) < MAX_OFF
    ensures var r := Step(s, op, d);
      && Kept(r.state, d) && |r.state.data| == |s.data|
      && (op.Read? ==> ReadsExactly(s, r))
      && (op.Write? ==> WritesExactly(s, op.bytes, r))
      && (!op.Seek? ==> r.state.pos == s.pos + r.ret)
      && (!op.Write? ==> r.state.data == s.data)
  {
    hide Aligned, Sought, ReadsExactly, WritesExactly, ReadCall, WriteCall;
    match op {
      case Seek(offset, whence) =>
        SeekAligned(s, offset, whence, d.ioUnit);
      case Read(n, registered, env) =>
        ReadStep(s, n, registered, env, d);
      case Write(bytes, registered, env) =>
        WriteStep(s, bytes, registered, env, d);
    }
  }

  lemma ChunkStaysValid(s: FileState, d: Device, n: nat, env: Env)
    requires Sensible(d) && Kept(s, d) && n > 0 && Aligned(n, d.ioUnit)
    ensures Kept(ReadChunk(s, d.cluster, n, env).state, d)
  {
    hide Aligned;
    ReadChunkKeeps(s, d.cluster, n, env);
    AlignedZero(d.ioUnit);
    AlignedAdd(s.pos, ReadChunk(s, d.cluster, n, env).ret, d.ioUnit);
  }

  lemma WriteStaysValid(s: FileState, d: Device, bytes: seq<Byte>, env: Env)
    requires Sensible(d) && Kept(s, d) && bytes != [] && Aligned(|bytes|, d.ioUnit)
    ensures Kept(WriteChunk(s, d.cluster, bytes, env).state, d)
  {
    hide Aligned, WriteChunk;
    WriteChunkKeeps(s, d.cluster, bytes, env);
    AlignedZero(d.ioUnit);
    AlignedAdd(s.pos, WriteChunk(s, d.cluster, bytes, env).ret, d.ioUnit);
  }

  lemma ReadStep(s: FileState, n: nat, registered: bool, env: nat -> Env, d: Device)
    requires Sensible(d) && Kept(s, d)
    ensures var r := ReadCall(s, n, registered, env, d);
      && Kept(r.state, d) && ReadsExactly(s, r) && r.ret <= n
      && r.state.pos == s.pos + r.ret && r.state.data == s.data
  {
    hide RoundDown, ReadChunk, ReadChunks, Aligned;
    var total := RoundDown(n, d.ioUnit);
    RoundAligned(n, d.ioUnit);
    NothingRead(s);
    if total > 0 {
      if registered {
        ReadChunkKeeps(s, d.cluster, total, env(0));
        ChunkStaysValid(s, d, total, env(0));
      } else {
        ReadKeeps(s, d.cluster, d.buf, total, env, 0);
        ReadAligned(s, d, total, env, 0);
        AlignedAdd(s.pos, ReadChunks(s, d.cluster, d.buf, total, env, 0).ret, d.ioUnit);
      }
    }
  }

  lemma WriteStep(s: FileState, bytes: seq<Byte>, registered: bool, env: nat -> Env, d: Device)
    requires Sensible(d) && Kept(s, d)
    ensures var r := WriteCall(s, bytes, registered, env, d);
      && Kept(r.state, d) && WritesExactly(s, bytes, r)
      && r.state.pos == s.pos + r.ret && |r.state.data| == |s.data|
  {
    hide RoundDown, WriteChunk, WriteChunks, Aligned;
    var t := RoundDown(|bytes|, d.ioUnit);
    var r := WriteCall(s, bytes, registered, env, d);
    RoundAligned(|bytes|, d.ioUnit);
    if t > 0 {
      if registered {
        WriteChunkKeeps(s, d.cluster, bytes[..t], env(0));
        WriteStaysValid(s, d, bytes[..t], env(0));
      } else {
        WriteKeeps(s, d.cluster, d.buf, bytes[..t], env, 0);
        WriteAligned(s, d, bytes[..t], env, 0);
        AlignedAdd(s.pos, r.ret, d.ioUnit);
      }
      WritesPrefix(s, bytes, t, r);
    }
  }

  lemma RoundAligned(n: nat, ioUnit: nat)
    requires ioUnit > 0
    ensures Aligned(RoundDown(n, ioUnit), ioUnit)
  {
    RoundDownIs(n, ioUnit);
    MultipleIs(n / ioUnit, ioUnit);
  }

  lemma WritesPrefix(s: FileState, bytes: seq<Byte>, t: nat, r: Result)
    requires t <= |bytes| && WritesExactly(s, bytes[..t], r)
    ensures WritesExactly(s, bytes, r)
  {
    assert bytes[..t][..r.ret] == bytes[..r.ret];
  }

  /** In every run, failed I/O included, the position stays a multiple of the I/O unit
      and the file stays sound. */
  lemma {:induction false} RunKeeps(s: FileState, ops: seq<FileOp>, d: Device)
    requires Sensible(d) && Kept(s, d) && NoOverflow(s, ops, d)
    ensures Kept(Run(s, ops, d), d) && |Run(s, ops, d).data| == |s.data|
  {
    if ops != [] {
      RunKeeps(s, ops[..|ops| - 1], d);
      StepKeeps(Run(s, ops[..|ops| - 1], d), ops[|ops| - 1], d);
    }
  }

  /** The byte written last at position x, or the one that was there before the run. */
  function Latest(s: FileState, ops: seq<FileOp>, d: Device, x: nat): Byte
    requires d.ioUnit > 0 && d.buf > 0 && x < |s.data|
  {
    if ops == [] then s.data[x]
    else
      var before, op := ops[..|ops| - 1], ops[|ops| - 1];
      var t := Run(s, before, d);
      if op.Write? && t.pos <= x < t.pos + Step(t, op, d).ret && x - t.pos < |op.bytes| then op.bytes[x - t.pos]
      else Latest(s, before, d, x)
  }

  /** What one call does to one byte. */
  lemma StepByte(s: FileState, op: FileOp, d: Device, x: nat)
    requires Sensible(d) && Kept(s, d) && x < |s.data|
    requires op.Seek? ==> -MAX_OFF <= Sought(s, op.offset, op.whence, d.ioUnit) < MAX_OFF
    ensures var r := Step(s, op, d);
      && |r.state.data| == |s.data|
      && r.state.data[x] ==
           if op.Write? && s.pos <= x < s.pos + r.ret && x - s.pos < |op.bytes| then op.bytes[x - s.pos] else s.data[x]
  {
    StepKeeps(s, op, d);
    hide Step, Kept, Sensible;
  }

  /** After every run each byte of the file is the one written last. */
  lemma {:induction false} RunIsLatest(s: FileState, ops: seq<FileOp>, d: Device, x: nat)
    requires Sensible(d) && Kept(s, d) && NoOverflow(s, ops, d) && x < |s.data|
    ensures |Run(s, ops, d).data| == |s.data| && Run(s, ops, d).data[x] == Latest(s, ops, d, x)
  {
    hide Step, Aligned, Kept, Sought;
    if ops != [] {
      var before, op := ops[..|ops| - 1], ops[|ops| - 1];
      RunKeeps(s, before, d);
      RunIsLatest(s, before, d, x);
      StepByte(Run(s, before, d), op, d, x);
    }
  }

  lemma ReadAfter(s: FileState, ops: seq<FileOp>, d: Device, n: nat, registered: bool, env: nat -> Env)
    requires Sensible(d) && Kept(s, d) && NoOverflow(s, ops, d)
    ensures var t := Run(s, ops, d);
      var r := Step(t, Read(n, registered, env), d);
      ReadsExactly(t, r) && r.ret <= n && |t.data| == |s.data|
  {
    hide Run, NoOverflow, ReadsExactly, Kept, Aligned, ReadCall;
    RunKeeps(s, ops, d);
    ReadStep(Run(s, ops, d), n, registered, env, d);
  }

  /** A read after any run returns the bytes written last at the positions it covers. */
  lemma ReadReturnsLatest(s: FileState, ops: seq<FileOp>, d: Device, n: nat, registered: bool, env: nat -> Env)
    requires Sensible(d) && Kept(s, d) && NoOverflow(s, ops, d)
    ensures var t := Run(s, ops, d);
      var r := Step(t, Read(n, registered, env), d);
      && r.ret == |r.bytes| <= n && (r.ret > 0 ==> 0 <= t.pos && t.pos + r.ret <= |s.data|)
      && forall j :: 0 <= j < r.ret ==> r.bytes[j] == Latest(s, ops, d, t.pos + j)
  {
    hide Step, Kept, Aligned, Latest, Run, NoOverflow;
    var t := Run(s, ops, d);
    var r := Step(t, Read(n, registered, env), d);
    ReadAfter(s, ops, d, n, registered, env);
    forall j | 0 <= j < r.ret
      ensures r.bytes[j] == Latest(s, ops, d, t.pos + j)
    {
      RunIsLatest(s, ops, d, t.pos + j);
    }
  }

  // ------------------------------------------------------------- examples

  /** Units and buffer of 512 bytes, clusters of 1024. */
  const SMALL: Device := Device(512, 512, 1024)

  /** A new file on a device of four clusters. */
  ghost predicate NewFile(s: FileState) {
    s.pos == 0 && s.size == 0 && s.writes == 0 && s.clusters == 0 && |s.data| == 4096
  }

  lemma Sizes()
    ensures Span(0, 1024) == 0 && Span(1, 1024) == 1024 && Span(2, 1024) == 2048 && Span(4, 1024) == 4096
    ensures CeilDiv(1024, 1024) == 1 && CeilDiv(1536, 1024) == 2 && CeilDiv(2560, 1024) == 3 && Span(3, 1024) == 3072
    ensures RoundDown(512, 512) == 512 && RoundDown(1024, 512) == 1024
    ensures RoundDown(1536, 512) == 1536 && RoundDown(2048, 512) == 2048
    ensures RoundDown(0, 512) == 0
    ensures LastStart(512, 512) == 0 && LastStart(1024, 512) == 512 && LastStart(1536, 512) == 1024
  {
    assert Span(1, 1024) == Span(0, 1024) + 1024;
    RoundDownIs(512, 512);
    RoundDownIs(1024, 512);
    RoundDownIs(1536, 512);
    RoundDownIs(2048, 512);
    SpanIs(4, 1024);
    SpanIs(3, 1024);
    SpanIs(2, 1024);
    CeilDivIs(1536, 1024);
    CeilDivIs(2560, 1024);
    LastStartIs(1536, 512);
    RoundDownIs(1535, 512);
  }

  /** Two calls on a new file, with a blobstore that never fails, leave f_size beyond the
      blob: the write fails after f_size was raised. */
  lemma FarWrite(s: FileState, bytes: seq<Byte>, env: nat -> Env)
    requires NewFile(s) && |bytes| == 512 && AllOk(env)
    ensures var t := Run(s, [Seek(2048, SEEK_SET), Write(bytes, false, env)], SMALL);
      t.size == 2048 && Capacity(t, SMALL.cluster) == 1024
    ensures RunAnswers(s, [Seek(2048, SEEK_SET), Write(bytes, false, env)], SMALL) == [Answer(2048, []), Answer(0, [])]
  {
    Sizes();
    hide Span, CeilDiv, RoundDown, LastStart, WriteChunks;
    var ops := [Seek(2048, SEEK_SET), Write(bytes, false, env)];
    var sought := s.(pos := 2048);
    assert ops[..1] == [Seek(2048, SEEK_SET)] && ops[..1][..0] == [];
    assert Run(s, ops[..1], SMALL) == sought;
    assert RunAnswers(s, ops[..1], SMALL) == [Answer(2048, [])];
    assert bytes[..512] == bytes;
    ExactGrowth(sought, 1024, 512, bytes, env, 0);
    WriteNoBytes(sought, 1024, 512, bytes, env, 0);
  }

  /** Write two chunks to a new file, seek back, read as much: the second chunk is missing. */
  lemma LostChunk(s: FileState, bytes: seq<Byte>, env: nat -> Env)
    requires NewFile(s) && |bytes| == 1024 && AllOk(env)
    ensures RunAnswers(s, [Write(bytes, false, env), Seek(0, SEEK_SET), Read(1024, false, env)], SMALL)
         == [Answer(1024, []), Answer(0, []), Answer(512, bytes[..512])]
  {
    Sizes();
    hide Span, CeilDiv, RoundDown, LastStart, WriteChunks, ReadChunks;
    var ops := [Write(bytes, false, env), Seek(0, SEEK_SET), Read(1024, false, env)];
    assert ops[..2] == [Write(bytes, false, env), Seek(0, SEEK_SET)];
    assert ops[..2][..1] == [Write(bytes, false, env)] && ops[..2][..1][..0] == [];
    assert bytes[..1024] == bytes;
    ExactGrowth(s, 1024, 512, bytes, env, 0);
    WriteNoBytes(s, 1024, 512, bytes, env, 0);
    var written := WriteChunks(s, 1024, 512, bytes, env, 0).state;
    assert Run(s, ops[..2][..1], SMALL) == written;
    assert RunAnswers(s, ops[..2][..1], SMALL) == [Answer(1024, [])];
    assert Run(s, ops[..2], SMALL) == written.(pos := 0);
    assert RunAnswers(s, ops[..2], SMALL) == [Answer(1024, []), Answer(0, [])];
    ReadBack(s, 1024, 512, bytes, env);
  }

  /** 1536 bytes written to a new file: the direct path writes none of them, the bounce
      buffer all of them. */
  lemma DirectFails(s: FileState, bytes: seq<Byte>, env: nat -> Env)
    requires NewFile(s) && |bytes| == 1536 && AllOk(env)
    ensures RunAnswers(s, [Write(bytes, true, env)], SMALL) == [Answer(0, [])]
    ensures RunAnswers(s, [Write(bytes, false, env)], SMALL) == [Answer(1536, [])]
  {
    Sizes();
    assert [Write(bytes, true, env)][..0] == [] && [Write(bytes, false, env)][..0] == [];
    assert bytes[..1536] == bytes;
    assert WriteChunk(s, 1024, bytes, env(0)).bytes == [];
    WriteNoBytes(s, 1024, 512, bytes, env, 0);
    hide Span, CeilDiv, LastStart, WriteChunks, WriteChunk, RoundDown;
    DirectWrite(s, 1024, bytes, env(0));
    ExactGrowth(s, 1024, 512, bytes, env, 0);
  }
}

/** What the calls on an open file answer, in closed form: where a seek lands, how many
    bytes a whole read or write takes on either path, and what a write leaves behind. */
module FileAnswers {
  import opened Common
  import opened FileModel
  import opened FileRuns

  // ------------------------------------------------------------------ seeks

  /** C's quotient: what is left over is smaller than the divisor and has the sign of the
      dividend. */
  lemma TruncDivIs(a: int, b: nat)
    requires b > 0
    ensures var rest := a - TruncDiv(a, b) * b;
      if a >= 0 then 0 <= rest < b else 0 <= -rest < b
  {
    var q := TruncDiv(a, b);
    if a >= 0 {
      assert q * b <= a < q * b + b;
    } else {
      assert -q * b <= -a < -q * b + b;
      assert -q * b == -(q * b);
    }
  }

  /** A seek lands at the offset rounded toward zero to I/O units, counted from 0 for
      SEEK_SET and from the position for SEEK_CUR; any other whence goes nowhere. */
  lemma SeekLands(s: FileState, offset: int, whence: int, d: Device)
    requires d.ioUnit > 0 && d.buf > 0
    ensures var units := TruncDiv(offset, d.ioUnit) * d.ioUnit;
      var at := if whence == 0 then units else if whence == 1 then s.pos + units else s.pos;
      && AnswerTo(s, Seek(offset, whence), d) == Answer(at, [])
      && Step(s, Seek(offset, whence), d).state == s.(pos := at)
  {
    RoundOffsetIs(offset, d.ioUnit);
    hide RoundOffset, TruncDiv;
  }

  lemma TwoCalls(s: FileState, a: FileOp, b: FileOp, d: Device)
    requires d.ioUnit > 0 && d.buf > 0
    ensures Run(s, [a, b], d) == Step(Step(s, a, d).state, b, d).state
  {
    hide Step;
    assert [a, b][..1] == [a] && [a][..0] == [];
    assert Run(s, [a], d) == Step(s, a, d).state;
  }

  /** A relative seek by an offset and one by its negation cancel, from any position. */
  lemma SeekThereAndBack(s: FileState, offset: int, d: Device)
    requires d.ioUnit > 0 && d.buf > 0
    ensures Run(s, [Seek(offset, SEEK_CUR), Seek(-offset, SEEK_CUR)], d) == s
  {
    hide RoundDown;
    TwoCalls(s, Seek(offset, SEEK_CUR), Seek(-offset, SEEK_CUR), d);
  }

  /** Seeking to an aligned position and then relatively to another is seeking there. */
  lemma SeekSums(s: FileState, p: int, q: int, d: Device)
    requires d.ioUnit > 0 && d.buf > 0 && Aligned(p, d.ioUnit) && Aligned(q, d.ioUnit)
    ensures Run(s, [Seek(p, SEEK_SET), Seek(q - p, SEEK_CUR)], d) == s.(pos := q)
  {
    AlignedAdd(q, p, d.ioUnit);
    AlignedSeek(p, d.ioUnit);
    AlignedSeek(q - p, d.ioUnit);
    hide RoundOffset, Aligned;
    TwoCalls(s, Seek(p, SEEK_SET), Seek(q - p, SEEK_CUR), d);
  }

  /** An aligned offset is not rounded. */
  lemma AlignedSeek(offset: int, ioUnit: nat)
    requires ioUnit > 0 && Aligned(offset, ioUnit)
    ensures RoundOffset(offset, ioUnit) == offset
  {
    RoundOffsetIs(offset, ioUnit);
    TruncDivIs(offset, ioUnit);
    var q, t := offset / ioUnit, TruncDiv(offset, ioUnit);
    assert offset == q * ioUnit;
    hide Aligned, RoundOffset, TruncDiv;
    if t < q {
      MulMono(t + 1, q, ioUnit);
    } else if q < t {
      MulMono(q + 1, t, ioUnit);
    }
  }

  // ------------------------------------------------------------------ reads

  /** What a read of t bytes that delivers ret of them does: the position moves by ret,
      and the bytes are those stored there. */
  ghost predicate Delivers(s: FileState, r: Result, ret: nat) {
    && r.ret == ret == |r.bytes| && r.state == s.(pos := s.pos + ret)
    && (ret > 0 ==> 0 <= s.pos && s.pos + ret <= |s.data| && r.bytes == s.data[s.pos..s.pos + ret])
  }

  /** A read into DMA memory is one transfer: all of it, rounded down to I/O units, if and
      only if the I/O works and it stays inside f_size and the blob; else nothing. */
  lemma DirectReadAnswer(s: FileState, n: nat, env: nat -> Env, d: Device)
    requires d.ioUnit > 0 && d.buf > 0 && Sound(s, d.cluster)
    ensures var total, end := RoundDown(n, d.ioUnit), Min(s.size, Span(s.clusters, d.cluster));
      var ret := if env(0).ioOk && 0 <= s.pos && s.pos + total <= end then total else 0;
      && Delivers(s, Step(s, Read(n, true, env), d), ret)
      && AnswerTo(s, Read(n, true, env), d).ret == ret
  {
    var total := RoundDown(n, d.ioUnit);
    hide RoundDown, Span, Sound;
    if total > 0 {
      OneRead(s, d.cluster, total, env(0));
      ReadChunkKeeps(s, d.cluster, total, env(0));
    }
    hide ReadChunk;
  }

  /** A read into other memory, rounded down to I/O units, goes through the bounce buffer:
      up to the end of f_size and blob it delivers everything, beyond that whole buffers
      only, and never more than the k buffers before the first I/O error. */
  lemma BouncedReadAnswer(s: FileState, n: nat, env: nat -> Env, d: Device, k: nat)
    requires d.ioUnit > 0 && d.buf > 0 && Sound(s, d.cluster)
    requires FailsAfter(env, 0, k, d.buf, RoundDown(n, d.ioUnit))
    ensures var total, end := RoundDown(n, d.ioUnit), Min(s.size, Span(s.clusters, d.cluster));
      var whole := if s.pos < 0 then 0
                   else if s.pos + total <= end then total
                   else if s.pos <= end then RoundDown(end - s.pos, d.buf)
                   else 0;
      && Delivers(s, Step(s, Read(n, false, env), d), Min(Span(k, d.buf), whole))
      && AnswerTo(s, Read(n, false, env), d).ret == Min(Span(k, d.buf), whole)
  {
    hide RoundDown, ReadChunks, Span, Sound, FailsAfter;
    var total := RoundDown(n, d.ioUnit);
    ShortRead(s, d.cluster, d.buf, total, env, 0, k);
    ReadKeeps(s, d.cluster, d.buf, total, env, 0);
    ReadNone(s, d.cluster, d.buf, env, 0);
  }

  // ----------------------------------------------------------------- writes

  /** What a write that takes ret bytes does: the position moves by ret, and the data
      change there and nowhere else. */
  ghost predicate Takes(s: FileState, bytes: seq<Byte>, r: Result, ret: nat) {
    && r.ret == ret <= |bytes| && r.state.pos == s.pos + ret && |r.state.data| == |s.data|
    && forall x :: 0 <= x < |s.data| ==>
         r.state.data[x] == if s.pos <= x < s.pos + ret then bytes[x - s.pos] else s.data[x]
  }

  lemma TakesIs(s: FileState, bytes: seq<Byte>, r: Result)
    requires WritesExactly(s, bytes, r)
    ensures Takes(s, bytes, r, r.ret)
  {
  }

  lemma TakesPrefix(s: FileState, bytes: seq<Byte>, t: nat, r: Result)
    requires t <= |bytes| && WritesExactly(s, bytes[..t], r)
    ensures Takes(s, bytes, r, r.ret)
  {
    WritesPrefix(s, bytes, t, r);
    TakesIs(s, bytes, r);
  }

  /** A write from DMA memory is one transfer, rounded down to I/O units.  It is taken whole
      if and only if the I/O works and it ends inside the blob, or at most one cluster
      beyond it where that cluster can be had; else nothing is.  Either way f_size becomes
      at least its start and it is counted. */
  lemma DirectWriteAnswer(s: FileState, bytes: seq<Byte>, env: nat -> Env, d: Device)
    requires d.ioUnit > 0 && d.buf > 0 && Sound(s, d.cluster)
    ensures var total, capacity := RoundDown(|bytes|, d.ioUnit), Span(s.clusters, d.cluster);
      var fits := s.pos + total <= capacity || (env(0).resizeOk && s.pos + total <= capacity + d.cluster <= |s.data|);
      var ret := if env(0).ioOk && 0 <= s.pos && fits then total else 0;
      var r := Step(s, Write(bytes, true, env), d);
      && Takes(s, bytes, r, ret) && AnswerTo(s, Write(bytes, true, env), d) == Answer(ret, [])
      && (total == 0 ==> r.state == s)
      && (total > 0 ==> r.state.writes == (s.writes + 1) % U32)
      && (0 < total <= MAX_OFF ==>
            && r.state.size == Max(s.size, if s.pos < 0 then s.pos + U64 else s.pos)
            && r.state.clusters == s.clusters + (if !(0 <= s.pos + total <= capacity) && env(0).resizeOk &&
                                                   capacity + d.cluster <= |s.data| then 1 else 0))
  {
    hide RoundDown, Span, Sound, Takes;
    var total := RoundDown(|bytes|, d.ioUnit);
    var some := bytes[..total];
    var r := Step(s, Write(bytes, true, env), d);
    if total > 0 {
      DirectWrite(s, d.cluster, some, env(0));
      WriteChunkKeeps(s, d.cluster, some, env(0));
      ChunkCounted(s, d.cluster, some, env(0));
      if total <= MAX_OFF {
        GrowOnce(s, d.cluster, some, env(0));
      }
      NoBytes(s, d.cluster, some, env(0));
      hide WriteChunk;
      TakesPrefix(s, bytes, total, r);
    } else {
      TakesNone(s, bytes);
    }
  }

  lemma NoBytes(s: FileState, cluster: nat, bytes: seq<Byte>, env: Env)
    ensures WriteChunk(s, cluster, bytes, env).bytes == []
  {
  }

  lemma TakesNone(s: FileState, bytes: seq<Byte>)
    ensures Takes(s, bytes, Result(s, 0, []), 0)
  {
  }

  /** A write from other memory, rounded down to I/O units, goes through the bounce buffer.
      On a device with room it is taken up to the k buffers before the first I/O error, if
      its first buffer ends at most one cluster beyond the blob; else nothing is.  Every
      buffer tried is counted. */
  lemma BouncedWriteAnswer(s: FileState, bytes: seq<Byte>, env: nat -> Env, d: Device, k: nat)
    requires d.ioUnit > 0 && 0 < d.buf <= d.cluster && Sound(s, d.cluster)
    requires Room(s, d.cluster, RoundDown(|bytes|, d.ioUnit))
    requires FailsAfter(env, 0, k, d.buf, RoundDown(|bytes|, d.ioUnit)) && forall j :: 0 <= j < k ==> env(j).resizeOk
    ensures var total, capacity := RoundDown(|bytes|, d.ioUnit), Span(s.clusters, d.cluster);
      var starts := 0 <= s.pos && s.pos + Min(d.buf, total) <= capacity + d.cluster;
      var ret := if starts then Min(Span(k, d.buf), total) else 0;
      var r := Step(s, Write(bytes, false, env), d);
      && Takes(s, bytes, r, ret) && AnswerTo(s, Write(bytes, false, env), d) == Answer(ret, [])
      && (total == 0 ==> r.state == s)
      && (total > 0 ==> r.state.writes == (s.writes + Attempts(ret, total, d.buf)) % U32)
  {
    hide RoundDown, Span, Sound, Takes, FailsAfter, Room, Attempts, WriteChunks;
    var total := RoundDown(|bytes|, d.ioUnit);
    var some := bytes[..total];
    var r := Step(s, Write(bytes, false, env), d);
    if total > 0 {
      ShortWrite(s, d.cluster, d.buf, some, env, 0, k);
      WriteKeeps(s, d.cluster, d.buf, some, env, 0);
      WritesCounted(s, d.cluster, d.buf, some, env, 0);
      WriteNoBytes(s, d.cluster, d.buf, some, env, 0);
      TakesPrefix(s, bytes, total, r);
    } else {
      TakesNone(s, bytes);
    }
  }

  /** With a blobstore that never fails such a write leaves exactly the clusters it needs,
      and f_size at the start of its last buffer; if it cannot start, one more cluster and
      f_size at its own start. */
  lemma BouncedWriteLeaves(s: FileState, bytes: seq<Byte>, env: nat -> Env, d: Device)
    requires d.ioUnit > 0 && 0 < d.buf <= d.cluster && Sound(s, d.cluster) && AllOk(env)
    requires Room(s, d.cluster, RoundDown(|bytes|, d.ioUnit)) && 0 <= s.pos && RoundDown(|bytes|, d.ioUnit) > 0
    ensures var total, capacity := RoundDown(|bytes|, d.ioUnit), Span(s.clusters, d.cluster);
      var t := Step(s, Write(bytes, false, env), d).state;
      if s.pos + Min(d.buf, total) <= capacity + d.cluster then
        && t.clusters == Max(s.clusters, CeilDiv(s.pos + total, d.cluster))
        && t.size == Max(s.size, s.pos + RoundDown(total - 1, d.buf))
      else
        t.clusters == s.clusters + 1 && t.size == Max(s.size, s.pos)
  {
    hide RoundDown, Span, Sound, Room, AllOk, WriteChunks, CeilDiv, LastStart;
    var total := RoundDown(|bytes|, d.ioUnit);
    ExactGrowth(s, d.cluster, d.buf, bytes[..total], env, 0);
    LastStartIs(total, d.buf);
  }
}

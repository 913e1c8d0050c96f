/** One open file as a value: what a chunk read or write of file.c and a whole
    read or write of monopoly_ops.c do to it, and what follows for callers. */
module FileModel {
  import opened Common

  const U64: int := 0x1_0000_0000_0000_0000
  const U32: int := 0x1_0000_0000
  const MAX_OFF: int := 0x8000_0000_0000_0000

  type Byte = b: int | 0 <= b < 256

  /** Conversion of a signed offset to size_t. */
  function ToSize(x: int): nat {
    x % U64
  }

  /** f_pos, f_size, i_writecount, the clusters the blob has, and the bytes of the
      device behind the blob, of which the first clusters * clusterSize are its own. */
  datatype FileState = FileState(pos: int, size: nat, writes: nat, clusters: nat, data: seq<Byte>)

  /** Whether the blobstore's answers to one resize and one read or write are good. */
  datatype Env = Env(resizeOk: bool, ioOk: bool)

  /** The bytes in a number of clusters, `clusters * clusterSize`. */
  function Span(clusters: nat, clusterSize: nat): nat {
    if clusters == 0 then 0 else Span(clusters - 1, clusterSize) + clusterSize
  }

  lemma {:induction false} SpanIs(clusters: nat, clusterSize: nat)
    ensures Span(clusters, clusterSize) == clusters * clusterSize
  {
    if clusters > 0 {
      SpanIs(clusters - 1, clusterSize);
      assert clusters * clusterSize == (clusters - 1) * clusterSize + clusterSize;
    }
  }

  ghost predicate Sound(s: FileState, clusterSize: nat) {
    && clusterSize > 0 && Span(s.clusters, clusterSize) <= |s.data| < MAX_OFF
    && -MAX_OFF <= s.pos < MAX_OFF && s.size < U64
  }

  function Capacity(s: FileState, clusterSize: nat): nat {
    Span(s.clusters, clusterSize)
  }

  /** The blobstore's own bound check. */
  predicate InBlob(s: FileState, clusterSize: nat, n: nat) {
    ToSize(s.pos) + n <= Capacity(s, clusterSize)
  }

  /** What an operation returns and delivers. */
  datatype Result = Result(state: FileState, ret: nat, bytes: seq<Byte>)

  /** `simple_fs_read`. */
  function ReadChunk(s: FileState, clusterSize: nat, n: nat, env: Env): Result {
    if ToSize(s.pos + n) > s.size then Result(s, 0, [])
    else if env.ioOk && InBlob(s, clusterSize, n) && ToSize(s.pos) + n <= |s.data| then
      Result(s.(pos := s.pos + n), n, s.data[ToSize(s.pos)..ToSize(s.pos) + n])
    else Result(s, 0, [])
  }

  /** Lines 40-46 of `simple_fs_write`: one more cluster if the chunk does not fit,
      f_size raised to where the chunk starts, the write counted. */
  function BeforeWrite(s: FileState, clusterSize: nat, n: nat, env: Env): FileState {
    var capacity := Capacity(s, clusterSize);
    var more := ToSize(s.pos + n) > capacity && env.resizeOk && capacity + clusterSize <= |s.data|;
    s.(clusters := if more then s.clusters + 1 else s.clusters,
       size := if ToSize(s.pos) > s.size then ToSize(s.pos) else s.size,
       writes := (s.writes + 1) % U32)
  }

  function Splice(data: seq<Byte>, p: nat, bytes: seq<Byte>): (r: seq<Byte>)
    requires p + |bytes| <= |data|
    ensures |r| == |data|
    ensures forall x :: 0 <= x < |r| ==> r[x] == if p <= x < p + |bytes| then bytes[x - p] else data[x]
  {
    data[..p] + bytes + data[p + |bytes|..]
  }

  /** `simple_fs_write`. */
  function WriteChunk(s: FileState, clusterSize: nat, bytes: seq<Byte>, env: Env): Result {
    var t := BeforeWrite(s, clusterSize, |bytes|, env);
    if env.ioOk && InBlob(t, clusterSize, |bytes|) && ToSize(t.pos) + |bytes| <= |t.data| then
      Result(t.(pos := t.pos + |bytes|, data := Splice(t.data, ToSize(t.pos), bytes)), |bytes|, [])
    else Result(t, 0, [])
  }

  /** The bounce loop of `monopoly_read` for the remaining total bytes; env(i) are the
      blobstore's answers to chunk i. */
  function ReadChunks(s: FileState, clusterSize: nat, buf: nat, total: nat, env: nat -> Env, i: nat): Result
    requires buf > 0
    decreases total
  {
    if total == 0 then Result(s, 0, [])
    else
      var n := Min(buf, total);
      var one := ReadChunk(s, clusterSize, n, env(i));
      if one.ret == 0 then one
      else
        var rest := ReadChunks(one.state, clusterSize, buf, total - n, env, i + 1);
        Result(rest.state, one.ret + rest.ret, one.bytes + rest.bytes)
  }

  /** The bounce loop of `monopoly_write`. */
  function WriteChunks(s: FileState, clusterSize: nat, buf: nat, bytes: seq<Byte>, env: nat -> Env, i: nat): Result
    requires buf > 0
    decreases |bytes|
  {
    if bytes == [] then Result(s, 0, [])
    else
      var n := Min(buf, |bytes|);
      var one := WriteChunk(s, clusterSize, bytes[..n], env(i));
      if one.ret == 0 then one
      else
        var rest := WriteChunks(one.state, clusterSize, buf, bytes[n..], env, i + 1);
        Result(rest.state, one.ret + rest.ret, [])
  }

  // -------------------------------------------------- one chunk

  lemma SpanNext(c: nat, clusterSize: nat)
    ensures Span(c + 1, clusterSize) == Span(c, clusterSize) + clusterSize
  {
  }

  lemma {:induction false} SpanMono(c: nat, d: nat, clusterSize: nat)
    requires c <= d
    ensures Span(c, clusterSize) <= Span(d, clusterSize)
  {
    if c < d {
      SpanMono(c, d - 1, clusterSize);
    }
  }

  lemma ToSizeIs(x: int)
    requires -MAX_OFF <= x < 2 * MAX_OFF
    ensures ToSize(x) == if x < 0 then x + U64 else x
  {
  }

  /** r moves the position by exactly what it returns, changes nothing else, and
      delivers the bytes stored there. */
  ghost predicate ReadsExactly(s: FileState, r: Result) {
    && r.state == s.(pos := s.pos + r.ret) && |r.bytes| == r.ret
    && (r.ret > 0 ==> 0 <= s.pos && s.pos + r.ret <= |s.data| && r.bytes == s.data[s.pos..s.pos + r.ret])
  }

  /** r moves the position by exactly what it returns and changes the data as one
      contiguous write of that many of the given bytes. */
  ghost predicate WritesExactly(s: FileState, bytes: seq<Byte>, r: Result) {
    && r.ret <= |bytes| && r.state.pos == s.pos + r.ret && |r.state.data| == |s.data|
    && (r.ret > 0 ==> 0 <= s.pos && s.pos + r.ret <= |s.data|)
    && r.state.data == if r.ret > 0 then Splice(s.data, s.pos, bytes[..r.ret]) else s.data
  }

  lemma ReadChunkKeeps(s: FileState, clusterSize: nat, n: nat, env: Env)
    requires Sound(s, clusterSize) && n > 0
    ensures var r := ReadChunk(s, clusterSize, n, env);
      Sound(r.state, clusterSize) && ReadsExactly(s, r) && (r.ret == 0 || r.ret == n)
  {
    hide Span;
    ToSizeIs(s.pos);
    hide ToSize;
  }

  lemma WriteChunkKeeps(s: FileState, clusterSize: nat, bytes: seq<Byte>, env: Env)
    requires Sound(s, clusterSize) && bytes != []
    ensures var r := WriteChunk(s, clusterSize, bytes, env);
      Sound(r.state, clusterSize) && WritesExactly(s, bytes, r) && (r.ret == 0 || r.ret == |bytes|)
  {
    hide Span;
    ToSizeIs(s.pos);
    hide ToSize;
    SpanNext(s.clusters, clusterSize);
    assert bytes[..|bytes|] == bytes;
  }

  // -------------------------------------------------- whole reads and writes

  lemma ReadsJoin(s: FileState, one: Result, rest: Result)
    requires ReadsExactly(s, one) && ReadsExactly(one.state, rest) && one.ret > 0
    ensures ReadsExactly(s, Result(rest.state, one.ret + rest.ret, one.bytes + rest.bytes))
  {
    var a, b, c := s.pos, s.pos + one.ret, s.pos + one.ret + rest.ret;
    if rest.ret > 0 {
      assert s.data[a..b] + s.data[b..c] == s.data[a..c];
    } else {
      assert rest.bytes == [];
    }
  }

  /** A chunk and what follows it. */
  function Joined(one: Result, rest: Result): Result {
    if one.ret == 0 then one else Result(rest.state, one.ret + rest.ret, one.bytes + rest.bytes)
  }

  /** One round of the read loop. */
  lemma ReadUnfold(s: FileState, cluster: nat, buf: nat, left: nat, env: nat -> Env, i: nat)
    requires buf > 0 && left > 0
    ensures var n := Min(buf, left);
      var one := ReadChunk(s, cluster, n, env(i));
      && one.ret in {0, n} && |one.bytes| == one.ret && (one.ret == 0 ==> one.state == s)
      && ReadChunks(s, cluster, buf, left, env, i)
           == Joined(one, ReadChunks(one.state, cluster, buf, left - n, env, i + 1))
  {
  }

  /** Every read through the bounce buffer, with any failures, reads exactly what it returns. */
  lemma {:induction false} ReadKeeps(s: FileState, clusterSize: nat, buf: nat, total: nat, env: nat -> Env, i: nat)
    requires Sound(s, clusterSize) && buf > 0
    ensures var r := ReadChunks(s, clusterSize, buf, total, env, i);
      Sound(r.state, clusterSize) && ReadsExactly(s, r) && r.ret <= total
    decreases total
  {
    hide ReadChunks;
    if total > 0 {
      var n := Min(buf, total);
      ReadUnfold(s, clusterSize, buf, total, env, i);
      ReadChunkKeeps(s, clusterSize, n, env(i));
      var one := ReadChunk(s, clusterSize, n, env(i));
      hide Sound, ReadChunk, ReadsExactly;
      if one.ret > 0 {
        ReadKeeps(one.state, clusterSize, buf, total - n, env, i + 1);
        ReadsJoin(s, one, ReadChunks(one.state, clusterSize, buf, total - n, env, i + 1));
      }
    } else {
      ReadNone(s, clusterSize, buf, env, i);
      NothingRead(s);
    }
  }

  lemma ReadNone(s: FileState, cluster: nat, buf: nat, env: nat -> Env, i: nat)
    requires buf > 0
    ensures ReadChunks(s, cluster, buf, 0, env, i) == Result(s, 0, [])
  {
  }

  lemma NothingRead(s: FileState)
    ensures ReadsExactly(s, Result(s, 0, []))
  {
    assert s.(pos := s.pos + 0) == s;
  }

  lemma WritesJoin(s: FileState, bytes: seq<Byte>, n: nat, one: Result, rest: Result)
    requires 0 < n <= |bytes| && one.ret == n
    requires WritesExactly(s, bytes[..n], one) && WritesExactly(one.state, bytes[n..], rest)
    ensures WritesExactly(s, bytes, Result(rest.state, n + rest.ret, []))
  {
    hide Splice;
    PrefixTwice(bytes, n);
    if rest.ret > 0 {
      SpliceTwice(s.data, s.pos, bytes, n, n + rest.ret);
      assert bytes[n..][..n + rest.ret - n] == bytes[n..][..rest.ret];
    }
  }

  lemma PrefixTwice(bytes: seq<Byte>, n: nat)
    requires n <= |bytes|
    ensures bytes[..n][..n] == bytes[..n]
  {
  }

  lemma SpliceTwice(data: seq<Byte>, p: nat, bytes: seq<Byte>, n: nat, m: nat)
    requires n <= m <= |bytes| && p + m <= |data|
    ensures Splice(Splice(data, p, bytes[..n]), p + n, bytes[n..][..m - n]) == Splice(data, p, bytes[..m])
  {
  }

  /** One round of the write loop. */
  lemma WriteUnfold(s: FileState, cluster: nat, buf: nat, bytes: seq<Byte>, env: nat -> Env, i: nat)
    requires buf > 0 && bytes != []
    ensures var n := Min(buf, |bytes|);
      var one := WriteChunk(s, cluster, bytes[..n], env(i));
      && one.ret in {0, n} && one.bytes == []
      && var rest := WriteChunks(one.state, cluster, buf, bytes[n..], env, i + 1);
         WriteChunks(s, cluster, buf, bytes, env, i) ==
           if one.ret == 0 then one else Result(rest.state, one.ret + rest.ret, [])
  {
  }

  lemma WriteNone(s: FileState, cluster: nat, buf: nat, env: nat -> Env, i: nat)
    requires buf > 0
    ensures WriteChunks(s, cluster, buf, [], env, i) == Result(s, 0, [])
  {
  }

  lemma {:induction false} WriteNoBytes(s: FileState, cluster: nat, buf: nat, bytes: seq<Byte>, env: nat -> Env, i: nat)
    requires buf > 0
    ensures WriteChunks(s, cluster, buf, bytes, env, i).bytes == []
    decreases |bytes|
  {
    if bytes != [] {
      var n := Min(buf, |bytes|);
      WriteNoBytes(WriteChunk(s, cluster, bytes[..n], env(i)).state, cluster, buf, bytes[n..], env, i + 1);
    }
  }

  /** Every write through the bounce buffer, with any failures, is one contiguous write
      of exactly the bytes it reports. */
  lemma {:induction false} WriteKeeps(s: FileState, clusterSize: nat, buf: nat, bytes: seq<Byte>, env: nat -> Env,
                                      i: nat)
    requires Sound(s, clusterSize) && buf > 0
    ensures var r := WriteChunks(s, clusterSize, buf, bytes, env, i);
      Sound(r.state, clusterSize) && WritesExactly(s, bytes, r)
    decreases |bytes|
  {
    hide WriteChunks;
    if bytes != [] {
      var n := Min(buf, |bytes|);
      WriteUnfold(s, clusterSize, buf, bytes, env, i);
      WriteChunkKeeps(s, clusterSize, bytes[..n], env(i));
      var one := WriteChunk(s, clusterSize, bytes[..n], env(i));
      hide Sound, WriteChunk, WritesExactly;
      if one.ret > 0 {
        WriteKeeps(one.state, clusterSize, buf, bytes[n..], env, i + 1);
        WritesJoin(s, bytes, n, one, WriteChunks(one.state, clusterSize, buf, bytes[n..], env, i + 1));
      } else {
        NoWrite(s, bytes[..n], bytes, one);
      }
    } else {
      WriteNone(s, clusterSize, buf, env, i);
    }
  }

  lemma NoWrite(s: FileState, some: seq<Byte>, all: seq<Byte>, r: Result)
    requires WritesExactly(s, some, r) && r.ret == 0
    ensures WritesExactly(s, all, r)
  {
  }

  // -------------------------------------------------- how much is read

  ghost predicate AllOk(env: nat -> Env) {
    forall i: nat :: env(i) == Env(true, true)
  }

  /** a rounded down to a multiple of the unit, `a / unit * unit`. */
  function RoundDown(a: nat, unit: nat): (r: nat)
    requires unit > 0
    ensures r <= a
  {
    if a < unit then 0 else unit + RoundDown(a - unit, unit)
  }

  lemma {:induction false} RoundDownIs(a: nat, buf: nat)
    requires buf > 0
    ensures RoundDown(a, buf) == a / buf * buf
  {
    if a < buf {
      DivIs(a, buf, 0);
    } else {
      RoundDownIs(a - buf, buf);
      var q := (a - buf) / buf;
      assert q * buf <= a - buf < q * buf + buf;
      assert (q + 1) * buf == q * buf + buf;
      DivIs(a, buf, q + 1);
    }
  }

  /** The end of what can be read: f_size may lie beyond the blob. */
  function Readable(s: FileState, clusterSize: nat): nat {
    Min(s.size, Capacity(s, clusterSize))
  }

  /** What a read of total bytes at pos returns when the blobstore never fails: everything
      up to the end of what can be read, and beyond that only whole buffers. */
  function ReadAmount(pos: int, end: nat, buf: nat, total: nat): nat
    requires buf > 0
  {
    if pos < 0 then 0
    else if pos + total <= end then total
    else if pos <= end then RoundDown(end - pos, buf)
    else 0
  }

  /** Of the blobstore's answers from i on, the first k are good, and that is enough for
      all chunks or the next one is an error. */
  ghost predicate FailsAfter(env: nat -> Env, i: nat, k: nat, buf: nat, total: nat) {
    (forall j :: i <= j < i + k ==> env(j).ioOk) && (Span(k, buf) >= total || !env(i + k).ioOk)
  }

  /** There is always such a k. */
  lemma {:induction false} SomeFailure(env: nat -> Env, i: nat, buf: nat, total: nat) returns (k: nat)
    requires buf > 0
    ensures FailsAfter(env, i, k, buf, total)
    decreases total
  {
    if total == 0 || !env(i).ioOk {
      k := 0;
    } else {
      var rest := SomeFailure(env, i + 1, buf, total - Min(buf, total));
      k := rest + 1;
    }
  }

  lemma AllOkNeverFails(env: nat -> Env, buf: nat, total: nat)
    requires buf > 0 && AllOk(env)
    ensures forall i: nat :: FailsAfter(env, i, total, buf, total)
    ensures Span(total, buf) >= total
  {
    SpanIs(total, buf);
    MulMono(1, buf, total);
    forall i: nat
      ensures FailsAfter(env, i, total, buf, total)
    {
      assert forall j: nat :: env(j) == Env(true, true);
    }
  }

  /** Bytes returned by a read through the bounce buffer, from any position, in any state
      and with any answers of the blobstore: the k chunks before the first error, at most. */
  lemma {:induction false} ShortRead(s: FileState, clusterSize: nat, buf: nat, total: nat, env: nat -> Env, i: nat,
                                     k: nat)
    requires Sound(s, clusterSize) && buf > 0 && FailsAfter(env, i, k, buf, total)
    ensures ReadChunks(s, clusterSize, buf, total, env, i).ret
         == Min(Span(k, buf), ReadAmount(s.pos, Readable(s, clusterSize), buf, total))
    decreases total
  {
    hide RoundDown, ReadChunks;
    if total > 0 {
      var n := Min(buf, total);
      ReadUnfold(s, clusterSize, buf, total, env, i);
      OneRead(s, clusterSize, n, env(i));
      ReadChunkKeeps(s, clusterSize, n, env(i));
      var one := ReadChunk(s, clusterSize, n, env(i));
      AmountStep(s.pos, Readable(s, clusterSize), buf, total);
      hide Sound, ReadChunk, ReadAmount, ReadsExactly, Capacity;
      if one.ret > 0 {
        NextFailure(env, i, k, buf, total);
        ShortRead(one.state, clusterSize, buf, total - n, env, i + 1, k - 1);
      }
    } else {
      ReadNone(s, clusterSize, buf, env, i);
    }
  }

  /** After a good chunk. */
  lemma NextFailure(env: nat -> Env, i: nat, k: nat, buf: nat, total: nat)
    requires buf > 0 && total > 0 && FailsAfter(env, i, k, buf, total) && env(i).ioOk
    ensures k > 0 && FailsAfter(env, i + 1, k - 1, buf, total - Min(buf, total))
    ensures Span(k, buf) == Span(k - 1, buf) + buf
  {
  }

  /** One read is all or nothing: all if and only if the I/O works and it stays inside
      f_size and the blob. */
  lemma OneRead(s: FileState, clusterSize: nat, n: nat, env: Env)
    requires Sound(s, clusterSize) && n > 0
    ensures var one := ReadChunk(s, clusterSize, n, env);
      && one.ret == (if env.ioOk && 0 <= s.pos && s.pos + n <= Readable(s, clusterSize) then n else 0)
      && one.state == s.(pos := s.pos + one.ret)
  {
    hide Span;
    ToSizeIs(s.pos);
    if s.pos + n < MAX_OFF {
      ToSizeIs(s.pos + n);
    }
    hide ToSize;
  }

  lemma AmountStep(pos: int, end: nat, buf: nat, total: nat)
    requires buf > 0 && total > 0
    ensures var n := Min(buf, total);
      ReadAmount(pos, end, buf, total) ==
        if 0 <= pos && pos + n <= end then n + ReadAmount(pos + n, end, buf, total - n) else 0
  {
    assert end - pos >= buf ==> RoundDown(end - pos, buf) == buf + RoundDown(end - pos - buf, buf);
  }

  /** The bounce buffer and the direct path agree, in bytes, count and position, except
      when the read crosses the end after at least one whole buffer. */
  lemma DirectReadAgrees(s: FileState, clusterSize: nat, buf: nat, total: nat, env: nat -> Env)
    requires Sound(s, clusterSize) && buf > 0 && AllOk(env) && total > 0
    ensures var end := Readable(s, clusterSize);
      (s.pos < 0 || s.pos + total <= end || end < s.pos + buf) <==>
      ReadChunks(s, clusterSize, buf, total, env, 0) == ReadChunk(s, clusterSize, total, env(0))
  {
    AllOkNeverFails(env, buf, total);
    ShortRead(s, clusterSize, buf, total, env, 0, total);
    ReadKeeps(s, clusterSize, buf, total, env, 0);
    assert env(0) == Env(true, true);
    OneRead(s, clusterSize, total, env(0));
    ReadChunkKeeps(s, clusterSize, total, env(0));
    hide ReadChunks, ReadChunk, Sound, Readable, Span;
  }

  // -------------------------------------------------- growth

  /** a / b rounded up, `(a + b - 1) / b`. */
  function CeilDiv(a: nat, b: nat): nat
    requires b > 0
  {
    if a == 0 then 0 else if a <= b then 1 else 1 + CeilDiv(a - b, b)
  }

  lemma {:induction false} CeilDivIs(a: nat, b: nat)
    requires b > 0
    ensures CeilDiv(a, b) == (a + b - 1) / b
  {
    if a == 0 {
      DivIs(b - 1, b, 0);
    } else if a <= b {
      DivIs(a + b - 1, b, 1);
    } else {
      CeilDivIs(a - b, b);
      var q := (a - 1) / b;
      assert q * b <= a - 1 < q * b + b;
      assert (q + 1) * b == q * b + b;
      DivIs(a + b - 1, b, q + 1);
    }
  }

  /** q clusters hold a bytes exactly when q is at least the rounded-up quotient. */
  lemma {:induction false} CeilFits(a: nat, b: nat, q: nat)
    requires b > 0
    ensures a <= Span(q, b) <==> CeilDiv(a, b) <= q
  {
    if q > 0 && a > b {
      CeilFits(a - b, b, q - 1);
    }
  }

  lemma CeilNext(a: nat, b: nat, q: nat)
    requires b > 0 && Span(q, b) < a <= Span(q, b) + b
    ensures CeilDiv(a, b) == q + 1
  {
    SpanNext(q, b);
    hide Span, CeilDiv;
    CeilFits(a, b, q);
    CeilFits(a, b, q + 1);
  }

  /** A transfer of n bytes ends inside the blob, or one cluster beyond it where a resize
      works, on a device that has that cluster. */
  predicate InReach(s: FileState, clusterSize: nat, n: nat, resizeOk: bool) {
    var capacity := Capacity(s, clusterSize);
    0 <= s.pos && (s.pos + n <= capacity || (resizeOk && s.pos + n <= capacity + clusterSize <= |s.data|))
  }

  /** One write grows the blob by one cluster only, so it succeeds exactly when that is
      enough and the I/O works, from any position; this is the direct path, and one chunk
      of the other. */
  lemma DirectWrite(s: FileState, clusterSize: nat, bytes: seq<Byte>, env: Env)
    requires Sound(s, clusterSize) && bytes != []
    ensures var one := WriteChunk(s, clusterSize, bytes, env);
      one.ret == if env.ioOk && InReach(s, clusterSize, |bytes|, env.resizeOk) then |bytes| else 0
  {
    hide Span;
    ToSizeIs(s.pos);
    if s.pos + |bytes| < MAX_OFF {
      ToSizeIs(s.pos + |bytes|);
    }
    hide ToSize;
    SpanNext(s.clusters, clusterSize);
  }

  /** What one write, successful or not, does to clusters and f_size: a cluster is added
      exactly when the end of the write is not inside the blob and the resize succeeds;
      f_size becomes at least the start of the write, which is huge when negative. */
  lemma GrowOnce(s: FileState, clusterSize: nat, bytes: seq<Byte>, env: Env)
    requires Sound(s, clusterSize) && 0 < |bytes| <= MAX_OFF
    ensures var one, capacity := WriteChunk(s, clusterSize, bytes, env), Capacity(s, clusterSize);
      && (one.state.clusters == s.clusters || one.state.clusters == s.clusters + 1)
      && (one.state.clusters > s.clusters <==>
            !(0 <= s.pos + |bytes| <= capacity) && env.resizeOk && capacity + clusterSize <= |s.data|)
      && one.state.size == Max(s.size, if s.pos < 0 then s.pos + U64 else s.pos)
  {
    hide Span;
    ToSizeIs(s.pos);
    ToSizeIs(s.pos + |bytes|);
    hide ToSize, Splice;
  }

  /** On a device with room for the whole write. */
  lemma GrowInRoom(s: FileState, clusterSize: nat, bytes: seq<Byte>)
    requires Sound(s, clusterSize) && bytes != [] && 0 <= s.pos
    requires Span(Max(s.clusters, CeilDiv(s.pos + |bytes|, clusterSize)), clusterSize) <= |s.data|
    ensures var one, capacity := WriteChunk(s, clusterSize, bytes, Env(true, true)), Capacity(s, clusterSize);
      && InReach(s, clusterSize, |bytes|, true) == (s.pos + |bytes| <= capacity + clusterSize)
      && one.state.clusters == s.clusters + (if s.pos + |bytes| <= capacity then 0 else 1)
      && one.state.size == Max(s.size, s.pos)
  {
    hide Span, CeilDiv, WriteChunk;
    var need := CeilDiv(s.pos + |bytes|, clusterSize);
    SpanNext(s.clusters, clusterSize);
    CeilFits(s.pos + |bytes|, clusterSize, s.clusters);
    CeilFits(s.pos + |bytes|, clusterSize, Max(s.clusters, need));
    if s.pos + |bytes| > Capacity(s, clusterSize) {
      SpanMono(s.clusters + 1, need, clusterSize);
    }
    GrowOnce(s, clusterSize, bytes, Env(true, true));
  }

  lemma CeilGrows(a: nat, c: nat, b: nat)
    requires b > 0 && a <= c
    ensures CeilDiv(a, b) <= CeilDiv(c, b)
  {
    hide Span;
    CeilFits(c, b, CeilDiv(c, b));
    CeilFits(a, b, CeilDiv(c, b));
  }

  /** The start of the last bounce chunk of a write of total bytes. */
  function LastStart(total: nat, buf: nat): nat
    requires buf > 0
    decreases total
  {
    if total <= buf then 0 else buf + LastStart(total - buf, buf)
  }

  /** A write can start: its first chunk ends at most one cluster beyond the blob. */
  predicate Starts(s: FileState, clusterSize: nat, buf: nat, total: nat) {
    0 <= s.pos && s.pos + Min(buf, total) <= Capacity(s, clusterSize) + clusterSize
  }

  /** The device has room for all clusters up to the end of the write. */
  ghost predicate Room(s: FileState, clusterSize: nat, total: nat) {
    clusterSize > 0 && (0 <= s.pos ==>
      Span(Max(s.clusters, CeilDiv(s.pos + total, clusterSize)), clusterSize) <= |s.data|)
  }

  /** A write with chunks of at most a cluster, a blobstore that never fails and room on
      the device: if it can start, everything is written and the blob ends with exactly
      the clusters it needs and f_size at the start of the last chunk; if it cannot,
      nothing is written, but the blob grows by a cluster and f_size is raised. */
  lemma {:induction false} ExactGrowth(s: FileState, clusterSize: nat, buf: nat, bytes: seq<Byte>, env: nat -> Env,
                                       i: nat)
    requires Sound(s, clusterSize) && AllOk(env) && 0 < buf <= clusterSize && bytes != []
    requires Room(s, clusterSize, |bytes|)
    ensures var r := WriteChunks(s, clusterSize, buf, bytes, env, i);
      if Starts(s, clusterSize, buf, |bytes|) then
        && r.ret == |bytes|
        && r.state.clusters == Max(s.clusters, CeilDiv(s.pos + |bytes|, clusterSize))
        && r.state.size == Max(s.size, s.pos + LastStart(|bytes|, buf))
      else
        && r.ret == 0
        && (0 <= s.pos ==> r.state.clusters == s.clusters + 1 && r.state.size == Max(s.size, s.pos))
    decreases |bytes|
  {
    hide WriteChunk, WriteChunks, CeilDiv, Sound, Capacity, Span, InReach;
    var n := Min(buf, |bytes|);
    WriteUnfold(s, clusterSize, buf, bytes, env, i);
    FirstChunk(s, clusterSize, n, bytes);
    if Starts(s, clusterSize, buf, |bytes|) {
      var one := WriteChunk(s, clusterSize, bytes[..n], env(i));
      var all := CeilDiv(s.pos + |bytes|, clusterSize);
      assert Max(one.state.clusters, all) == Max(s.clusters, all);
      if n < |bytes| {
        assert one.state.pos + |bytes[n..]| == s.pos + |bytes|;
        ExactGrowth(one.state, clusterSize, buf, bytes[n..], env, i + 1);
      } else {
        assert bytes[n..] == [];
        WriteNone(one.state, clusterSize, buf, env, i + 1);
      }
    }
  }

  /** The first chunk of such a write. */
  lemma FirstChunk(s: FileState, clusterSize: nat, n: nat, bytes: seq<Byte>)
    requires Sound(s, clusterSize) && 0 < n <= |bytes| && n <= clusterSize && Room(s, clusterSize, |bytes|)
    ensures var one := WriteChunk(s, clusterSize, bytes[..n], Env(true, true));
      if 0 <= s.pos && s.pos + n <= Capacity(s, clusterSize) + clusterSize then
        && one.ret == n && one.state.pos == s.pos + n <= Capacity(one.state, clusterSize)
        && Sound(one.state, clusterSize) && |one.state.data| == |s.data|
        && one.state.clusters == Max(s.clusters, CeilDiv(s.pos + n, clusterSize))
        && one.state.size == Max(s.size, s.pos)
        && CeilDiv(s.pos + n, clusterSize) <= CeilDiv(s.pos + |bytes|, clusterSize)
      else
        && one.ret == 0
        && (0 <= s.pos ==> one.state.clusters == s.clusters + 1 && one.state.size == Max(s.size, s.pos))
  {
    hide WriteChunk, CeilDiv, Span;
    DirectWrite(s, clusterSize, bytes[..n], Env(true, true));
    WriteChunkKeeps(s, clusterSize, bytes[..n], Env(true, true));
    if 0 <= s.pos {
      var some, all := CeilDiv(s.pos + n, clusterSize), CeilDiv(s.pos + |bytes|, clusterSize);
      CeilGrows(s.pos + n, s.pos + |bytes|, clusterSize);
      SpanMono(Max(s.clusters, some), Max(s.clusters, all), clusterSize);
      GrowInRoom(s, clusterSize, bytes[..n]);
      hide InReach;
      CeilFits(s.pos + n, clusterSize, s.clusters);
      SpanNext(s.clusters, clusterSize);
      if Capacity(s, clusterSize) < s.pos + n <= Capacity(s, clusterSize) + clusterSize {
        CeilNext(s.pos + n, clusterSize, s.clusters);
      }
    }
  }

  /** Bytes written through the bounce buffer when the first k chunks meet no error and, if
      they are not all, the next one does. */
  lemma {:induction false} ShortWrite(s: FileState, clusterSize: nat, buf: nat, bytes: seq<Byte>, env: nat -> Env,
                                      i: nat, k: nat)
    requires Sound(s, clusterSize) && 0 < buf <= clusterSize && Room(s, clusterSize, |bytes|)
    requires FailsAfter(env, i, k, buf, |bytes|) && forall j :: i <= j < i + k ==> env(j).resizeOk
    ensures WriteChunks(s, clusterSize, buf, bytes, env, i).ret
         == if Starts(s, clusterSize, buf, |bytes|) then Min(Span(k, buf), |bytes|) else 0
    decreases |bytes|
  {
    hide WriteChunk, WriteChunks, CeilDiv, Sound, Capacity, InReach;
    if bytes == [] {
      WriteNone(s, clusterSize, buf, env, i);
    } else {
      var n := Min(buf, |bytes|);
      WriteUnfold(s, clusterSize, buf, bytes, env, i);
      if !env(i).ioOk {
        DirectWrite(s, clusterSize, bytes[..n], env(i));
      } else {
        NextFailure(env, i, k, buf, |bytes|);
        FirstChunk(s, clusterSize, n, bytes);
        hide Span;
        if Starts(s, clusterSize, buf, |bytes|) {
          var one := WriteChunk(s, clusterSize, bytes[..n], env(i));
          if n < |bytes| {
            RoomLeft(s, one.state, clusterSize, n, |bytes|);
            ShortWrite(one.state, clusterSize, buf, bytes[n..], env, i + 1, k - 1);
          } else {
            assert bytes[n..] == [];
            WriteNone(one.state, clusterSize, buf, env, i + 1);
          }
        }
      }
    }
  }

  /** After n bytes there is still room for the rest. */
  lemma RoomLeft(s: FileState, t: FileState, clusterSize: nat, n: nat, total: nat)
    requires Room(s, clusterSize, total) && 0 <= s.pos && n <= total
    requires t.pos == s.pos + n && |t.data| == |s.data|
    requires t.clusters == Max(s.clusters, CeilDiv(s.pos + n, clusterSize))
    requires CeilDiv(s.pos + n, clusterSize) <= CeilDiv(s.pos + total, clusterSize)
    ensures Room(t, clusterSize, total - n)
  {
    hide CeilDiv, Span;
    var all := CeilDiv(s.pos + total, clusterSize);
    assert Max(t.clusters, all) == Max(s.clusters, all);
  }

  /** The chunk writes attempted when ret of total bytes are written: all chunks if it is
      complete, else the complete ones and the one that failed. */
  function Attempts(ret: nat, total: nat, buf: nat): nat
    requires buf > 0
  {
    if ret == total then CeilDiv(total, buf) else ret / buf + 1
  }

  lemma AttemptsNext(rest: nat, total: nat, buf: nat)
    requires 0 < buf < total
    ensures Attempts(buf + rest, total, buf) == 1 + Attempts(rest, total - buf, buf)
  {
    var q := rest / buf;
    assert q * buf <= rest < q * buf + buf;
    assert (q + 1) * buf == q * buf + buf;
    DivIs(buf + rest, buf, q + 1);
  }

  lemma AttemptsLast(total: nat, buf: nat)
    requires 0 < total && 0 < buf
    ensures Attempts(0, total, buf) == 1 && (total <= buf ==> Attempts(total, total, buf) == 1)
  {
    DivIs(0, buf, 0);
  }

  lemma CountOn(w: nat, a: nat)
    ensures ((w + 1) % U32 + a) % U32 == (w + (1 + a)) % U32
  {
  }

  /** Every chunk write is counted, failed ones too. */
  lemma {:induction false} WritesCounted(s: FileState, clusterSize: nat, buf: nat, bytes: seq<Byte>, env: nat -> Env,
                                         i: nat)
    requires buf > 0 && bytes != []
    ensures var r := WriteChunks(s, clusterSize, buf, bytes, env, i);
      r.state.writes == (s.writes + Attempts(r.ret, |bytes|, buf)) % U32
    decreases |bytes|
  {
    hide WriteChunk, WriteChunks, Attempts;
    var n := Min(buf, |bytes|);
    var one := WriteChunk(s, clusterSize, bytes[..n], env(i));
    WriteUnfold(s, clusterSize, buf, bytes, env, i);
    ChunkCounted(s, clusterSize, bytes[..n], env(i));
    AttemptsLast(|bytes|, buf);
    if one.ret != 0 {
      if n < |bytes| {
        WritesCounted(one.state, clusterSize, buf, bytes[n..], env, i + 1);
        var rest := WriteChunks(one.state, clusterSize, buf, bytes[n..], env, i + 1).ret;
        AttemptsNext(rest, |bytes|, buf);
        CountOn(s.writes, Attempts(rest, |bytes| - buf, buf));
      } else {
        assert bytes[n..] == [];
        WriteNone(one.state, clusterSize, buf, env, i + 1);
      }
    }
  }

  lemma ChunkCounted(s: FileState, clusterSize: nat, bytes: seq<Byte>, env: Env)
    ensures WriteChunk(s, clusterSize, bytes, env).state.writes == (s.writes + 1) % U32
  {
  }

  // -------------------------------------------------- reading back

  lemma {:induction false} LastStartIs(total: nat, buf: nat)
    requires buf > 0 && total > 0
    ensures LastStart(total, buf) < total <= LastStart(total, buf) + buf
    ensures LastStart(total, buf) == RoundDown(total - 1, buf)
    decreases total
  {
    if total > buf {
      LastStartIs(total - buf, buf);
    }
  }

  /** The state after a full write and a seek back to its start. */
  lemma WrittenAndBack(s: FileState, clusterSize: nat, buf: nat, bytes: seq<Byte>, env: nat -> Env)
    requires Sound(s, clusterSize) && AllOk(env) && 0 < buf <= clusterSize && bytes != []
    requires Room(s, clusterSize, |bytes|) && Starts(s, clusterSize, buf, |bytes|)
    ensures var t := WriteChunks(s, clusterSize, buf, bytes, env, 0).state.(pos := s.pos);
      && Sound(t, clusterSize) && t.size == Max(s.size, s.pos + LastStart(|bytes|, buf))
      && s.pos + |bytes| <= Capacity(t, clusterSize) <= |t.data| && t.data[s.pos..s.pos + |bytes|] == bytes
  {
    hide WriteChunks, CeilDiv, LastStart, Span, RoundDown, Room;
    ExactGrowth(s, clusterSize, buf, bytes, env, 0);
    WriteKeeps(s, clusterSize, buf, bytes, env, 0);
    var w := WriteChunks(s, clusterSize, buf, bytes, env, 0);
    CeilFits(s.pos + |bytes|, clusterSize, w.state.clusters);
    assert bytes[..w.ret] == bytes;
  }

  /** Seeking back and reading what was just written, with a blobstore that never fails,
      returns all of it if and only if f_size already covered it; otherwise exactly
      the last bounce chunk is missing. */
  lemma ReadBack(s: FileState, clusterSize: nat, buf: nat, bytes: seq<Byte>, env: nat -> Env)
    requires Sound(s, clusterSize) && AllOk(env) && 0 < buf <= clusterSize && bytes != []
    requires Room(s, clusterSize, |bytes|) && Starts(s, clusterSize, buf, |bytes|)
    ensures var t := WriteChunks(s, clusterSize, buf, bytes, env, 0).state.(pos := s.pos);
      var r := ReadChunks(t, clusterSize, buf, |bytes|, env, 0);
      && r.ret == (if s.pos + |bytes| <= s.size then |bytes| else LastStart(|bytes|, buf)) <= |bytes|
      && (r.ret == |bytes| <==> s.pos + |bytes| <= s.size)
      && r.bytes == bytes[..r.ret]
  {
    hide WriteChunks, ReadChunks, CeilDiv, LastStart, Sound, Capacity, Span, RoundDown, Room;
    var n := |bytes|;
    WrittenAndBack(s, clusterSize, buf, bytes, env);
    hide Starts;
    var t := WriteChunks(s, clusterSize, buf, bytes, env, 0).state.(pos := s.pos);
    LastStartIs(n, buf);
    AllOkNeverFails(env, buf, n);
    ShortRead(t, clusterSize, buf, n, env, 0, n);
    ReadKeeps(t, clusterSize, buf, n, env, 0);
    if s.pos + n > s.size {
      LastWhole(t.size - s.pos, n, buf);
    }
    var r := ReadChunks(t, clusterSize, buf, n, env, 0);
    PrefixOfPiece(t.data, s.pos, n, r.ret);
  }

  lemma PrefixOfPiece(data: seq<Byte>, p: nat, n: nat, m: nat)
    requires m <= n && p + n <= |data|
    ensures data[p..p + n][..m] == data[p..p + m]
  {
  }

  /** Between the start and the end of the last chunk, whole buffers stop at its start. */
  lemma {:induction false} LastWhole(a: nat, total: nat, buf: nat)
    requires buf > 0 && total > 0 && LastStart(total, buf) <= a < total
    ensures RoundDown(a, buf) == LastStart(total, buf)
  {
    if total > buf {
      LastWhole(a - buf, total - buf, buf);
    }
  }
}

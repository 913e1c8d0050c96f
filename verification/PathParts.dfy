/** Splitting a path with `get_next_part`. */
module PathParts {
  const SPDK_MAX_NAME_COUNT: int := 512

  /** The first index from p on that holds no slash. */
  ghost function SkipSlashes(s: string, p: nat): (r: nat)
    requires p <= |s|
    ensures p <= r <= |s|
    decreases |s| - p
  {
    if p < |s| && s[p] == '/' then SkipSlashes(s, p + 1) else p
  }

  /** The first index from p on that holds a slash, or the end. */
  ghost function PartEnd(s: string, p: nat): (r: nat)
    requires p <= |s|
    ensures p <= r <= |s| && (p < |s| && s[p] != '/' ==> p < r)
    decreases |s| - p
  {
    if p < |s| && s[p] != '/' then PartEnd(s, p + 1) else p
  }

  /** The non-empty parts between slashes, from index p on. */
  ghost function PartsFrom(s: string, p: nat): seq<string>
    requires p <= |s|
    decreases |s| - p
  {
    var q := SkipSlashes(s, p);
    if q == |s| then []
    else
      SkipStops(s, p);
      [s[q..PartEnd(s, q)]] + PartsFrom(s, PartEnd(s, q))
  }

  ghost function Parts(s: string): seq<string> {
    PartsFrom(s, 0)
  }

  lemma {:induction false} SkipStops(s: string, p: nat)
    requires p <= |s|
    ensures var q := SkipSlashes(s, p); q < |s| ==> s[q] != '/'
    decreases |s| - p
  {
    if p < |s| && s[p] == '/' {
      SkipStops(s, p + 1);
    }
  }

  /** `get_next_part`: src is a C string, p the position of *srcp in it; part is the
      513-byte buffer.  Results 0 and -1 leave *srcp where it was. */
  method GetNextPart(src: string, p: nat, part: array<char>) returns (result: int, next: nat)
    requires p <= |src| && part.Length == SPDK_MAX_NAME_COUNT + 1
    modifies part
    ensures var q := SkipSlashes(src, p);
      if q == |src| then result == 0 && next == p
      else
        var e := PartEnd(src, q);
        if e - q > 512 then result == -1 && next == p
        else result == 1 && next == e && part[..e - q] == src[q..e] && part[e - q] == '\0'
  {
    var i := p;
    while i < |src| && src[i] == '/'
      invariant p <= i <= |src| && SkipSlashes(src, i) == SkipSlashes(src, p)
    {
      i := i + 1;
    }
    if i == |src| {
      return 0, p;
    }
    ghost var q := i;
    var dst := 0;
    while i < |src| && src[i] != '/'
      invariant q <= i <= |src| && dst == i - q <= SPDK_MAX_NAME_COUNT
      invariant PartEnd(src, i) == PartEnd(src, q)
      invariant part[..dst] == src[q..i]
    {
      if dst < SPDK_MAX_NAME_COUNT {
        part[dst] := src[i];
        dst := dst + 1;
      } else {
        return -1, p;
      }
      i := i + 1;
    }
    part[dst] := '\0';
    return 1, i;
  }

  /** How many parts come before the first one that is too long. */
  ghost function ShortPrefix(ps: seq<string>): (n: nat)
    ensures n <= |ps|
  {
    if ps != [] && |ps[0]| <= SPDK_MAX_NAME_COUNT then 1 + ShortPrefix(ps[1..]) else 0
  }

  /** `strlen` of the part buffer. */
  method StrLen(part: array<char>, ghost n: nat) returns (len: nat)
    requires n < part.Length && part[n] == '\0' && forall i :: 0 <= i < n ==> part[i] != '\0'
    ensures len == n
  {
    len := 0;
    while part[len] != '\0'
      invariant len <= n
      decreases n - len
    {
      len := len + 1;
    }
  }

  /** One call of get_next_part takes the first part, or stops at it. */
  lemma TakePart(s: string, p: nat)
    requires p <= |s|
    ensures var q := SkipSlashes(s, p);
      if q == |s| then PartsFrom(s, p) == [] && ShortPrefix(PartsFrom(s, p)) == 0
      else
        && PartsFrom(s, p) == [s[q..PartEnd(s, q)]] + PartsFrom(s, PartEnd(s, q))
        && ShortPrefix(PartsFrom(s, p)) ==
             (if PartEnd(s, q) - q > SPDK_MAX_NAME_COUNT then 0 else 1 + ShortPrefix(PartsFrom(s, PartEnd(s, q))))
        && p < PartEnd(s, q)
  {
    var q := SkipSlashes(s, p);
    if q < |s| {
      SkipStops(s, p);
      assert PartsFrom(s, p)[1..] == PartsFrom(s, PartEnd(s, q));
    }
  }

  ghost predicate CString(s: string) {
    forall i :: 0 <= i < |s| ==> s[i] != '\0'
  }

  /** Calling get_next_part until it stops yields the parts in order; it fails
      exactly when it comes to a part longer than 512 characters. */
  method SplitPath(src: string) returns (ok: bool, parts: seq<string>)
    requires CString(src)
    ensures ok <==> ShortPrefix(Parts(src)) == |Parts(src)|
    ensures parts == Parts(src)[..ShortPrefix(Parts(src))]
  {
    hide PartsFrom, ShortPrefix, SkipSlashes, PartEnd;
    var part := new char[SPDK_MAX_NAME_COUNT + 1];
    parts := [];
    var p := 0;
    while true
      invariant p <= |src|
      invariant Parts(src) == parts + PartsFrom(src, p)
      invariant ShortPrefix(Parts(src)) == |parts| + ShortPrefix(PartsFrom(src, p))
      decreases |src| - p
    {
      TakePart(src, p);
      var result, next := GetNextPart(src, p, part);
      if result != 1 {
        return result == 0, parts;
      }
      ghost var q := SkipSlashes(src, p);
      forall i | 0 <= i < next - q
        ensures part[i] != '\0'
      {
        assert part[i] == part[..next - q][i] == src[q..next][i] == src[q + i];
      }
      var len := StrLen(part, next - q);
      parts := parts + [part[..len]];
      p := next;
    }
  }

  // ------------------------------------------------- what the parts are

  ghost predicate SlashFree(s: string) {
    forall i :: 0 <= i < |s| ==> s[i] != '/'
  }

  /** Parts depend only on what is left of the path. */
  lemma {:induction false} PartsShift(s: string, p: nat, e: nat)
    requires p <= e <= |s|
    ensures PartsFrom(s[p..], e - p) == PartsFrom(s, e)
    decreases |s| - e
  {
    hide SkipSlashes, PartEnd;
    var q := SkipSlashes(s, e);
    ShiftSkip(s, p, e);
    SkipStops(s, e);
    SkipStops(s[p..], e - p);
    if q < |s| {
      ShiftEnd(s, p, q);
      assert s[p..][q - p..PartEnd(s, q) - p] == s[q..PartEnd(s, q)];
      PartsShift(s, p, PartEnd(s, q));
    }
  }

  lemma {:induction false} ShiftSkip(s: string, p: nat, i: nat)
    requires p <= i <= |s|
    ensures SkipSlashes(s[p..], i - p) == SkipSlashes(s, i) - p
    decreases |s| - i
  {
    if i < |s| && s[i] == '/' {
      ShiftSkip(s, p, i + 1);
    }
  }

  lemma {:induction false} ShiftEnd(s: string, p: nat, i: nat)
    requires p <= i <= |s|
    ensures PartEnd(s[p..], i - p) == PartEnd(s, i) - p
    decreases |s| - i
  {
    if i < |s| && s[i] != '/' {
      ShiftEnd(s, p, i + 1);
    }
  }

  /** Leading slashes do not matter. */
  lemma PartsSlash(s: string)
    ensures Parts("/" + s) == Parts(s)
  {
    var t := "/" + s;
    assert t[1..] == s;
    PartsShift(t, 1, 1);
    assert SkipSlashes(t, 0) == SkipSlashes(t, 1);
  }

  lemma {:induction false} EndOfPart(c: string, rest: string, i: nat)
    requires i <= |c| && SlashFree(c) && (rest == "" || rest[0] == '/')
    ensures PartEnd(c + rest, i) == |c|
    decreases |c| - i
  {
    if i < |c| {
      EndOfPart(c, rest, i + 1);
    }
  }

  /** A slash-free word in front is one part. */
  lemma PartsWord(c: string, rest: string)
    requires c != "" && SlashFree(c) && (rest == "" || rest[0] == '/')
    ensures Parts(c + rest) == [c] + Parts(rest)
  {
    var t := c + rest;
    EndOfPart(c, rest, 0);
    assert SkipSlashes(t, 0) == 0;
    assert t[0..|c|] == c && t[|c|..] == rest;
    PartsShift(t, |c|, |c|);
  }

  /** Words joined with a slash in front of each. */
  ghost function Join(ws: seq<string>): string {
    if ws == [] then "" else "/" + ws[0] + Join(ws[1..])
  }

  ghost predicate Words(ws: seq<string>) {
    forall i :: 0 <= i < |ws| ==> ws[i] != "" && SlashFree(ws[i])
  }

  /** Joining words and splitting gives the words back. */
  lemma {:induction false} SplitJoin(ws: seq<string>)
    requires Words(ws)
    ensures Parts(Join(ws)) == ws
  {
    if ws != [] {
      var rest := Join(ws[1..]);
      SplitJoin(ws[1..]);
      assert Join(ws) == "/" + (ws[0] + rest);
      PartsSlash(ws[0] + rest);
      PartsWord(ws[0], rest);
    }
  }

  lemma {:induction false} PartIsWord(s: string, q: nat, i: nat)
    requires q <= i <= |s| && (forall j :: q <= j < i ==> s[j] != '/')
    ensures SlashFree(s[q..PartEnd(s, i)])
    decreases |s| - i
  {
    if i < |s| && s[i] != '/' {
      PartIsWord(s, q, i + 1);
    }
  }

  /** Every part is a non-empty slash-free word. */
  lemma {:induction false} PartsAreWords(s: string, p: nat)
    requires p <= |s|
    ensures Words(PartsFrom(s, p))
    decreases |s| - p
  {
    var q := SkipSlashes(s, p);
    if q < |s| {
      SkipStops(s, p);
      PartIsWord(s, q, q);
      PartsAreWords(s, PartEnd(s, q));
    }
  }

  /** Splitting, joining and splitting again changes nothing: Join is a canonical path. */
  lemma SplitJoinSplit(s: string)
    ensures Parts(Join(Parts(s))) == Parts(s)
  {
    PartsAreWords(s, 0);
    SplitJoin(Parts(s));
  }

  /** The characters other than slashes, in order. */
  ghost function Letters(s: string): string {
    if s == "" then "" else (if s[0] == '/' then "" else [s[0]]) + Letters(s[1..])
  }

  ghost function Concat(ws: seq<string>): string {
    if ws == [] then "" else ws[0] + Concat(ws[1..])
  }

  lemma {:induction false} LettersSkip(s: string, p: nat)
    requires p <= |s|
    ensures Letters(s[p..]) == Letters(s[SkipSlashes(s, p)..])
    decreases |s| - p
  {
    if p < |s| && s[p] == '/' {
      LettersSkip(s, p + 1);
      assert s[p..][1..] == s[p + 1..];
    }
  }

  lemma {:induction false} LettersPart(s: string, p: nat)
    requires p <= |s|
    ensures Letters(s[p..]) == s[p..PartEnd(s, p)] + Letters(s[PartEnd(s, p)..])
    decreases |s| - p
  {
    if p < |s| && s[p] != '/' {
      LettersPart(s, p + 1);
      assert s[p..][1..] == s[p + 1..];
      assert [s[p]] + s[p + 1..PartEnd(s, p)] == s[p..PartEnd(s, p)];
    } else {
      assert s[p..p] == "";
    }
  }

  /** Nothing but slashes is lost, and the order is kept. */
  lemma {:induction false} PartsKeepLetters(s: string, p: nat)
    requires p <= |s|
    ensures Concat(PartsFrom(s, p)) == Letters(s[p..])
    decreases |s| - p
  {
    var q := SkipSlashes(s, p);
    LettersSkip(s, p);
    if q < |s| {
      SkipStops(s, p);
      LettersPart(s, q);
      PartsKeepLetters(s, PartEnd(s, q));
      assert PartsFrom(s, p)[1..] == PartsFrom(s, PartEnd(s, q));
    }
  }
}

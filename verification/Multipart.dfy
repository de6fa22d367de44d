/**
  The boundary scanner for multipart bodies (read_until and the upload loop of
  request_parse_multipart_chunk in src/libpage/request.c). It never backtracks,
  and is right because of the shape of the boundary.
 */
module Multipart {
  import opened InputIo

  const BUFSZ: nat := 4096

  /** The first byte of the boundary occurs nowhere else in it. */
  predicate Lead(b: string) {
    b != "" && forall i :: 1 <= i < |b| ==> b[i] != b[0]
  }

  predicate Occurs(s: string, b: string, i: nat) {
    i + |b| <= |s| && s[i..i + |b|] == b
  }

  predicate NoOccurrence(s: string, b: string) {
    forall i :: 0 <= i <= |s| ==> !Occurs(s, b, i)
  }

  /** `s` ends with the first `k` bytes of `b`. */
  predicate EndsWith(s: string, b: string, k: nat) {
    k <= |b| && k <= |s| && s[|s| - k..] == b[..k]
  }

  /** `k` is the longest such match, and not a whole one. */
  predicate Longest(s: string, b: string, k: nat) {
    k < |b| && EndsWith(s, b, k) && forall j :: k < j <= |b| ==> !EndsWith(s, b, j)
  }

  /** The scanner's state after one more byte: no backtracking. */
  function Next(b: string, k: nat, c: char): nat
    requires k < |b|
  {
    if b[k] == c then k + 1 else if b[0] == c then 1 else 0
  }

  /** The scanner's state after `n` bytes of `r`; `|b|` once it has stopped. */
  function K(r: string, b: string, n: nat): (k: nat)
    requires b != "" && n <= |r|
    ensures k <= |b|
  {
    if n == 0 then 0
    else
      var k := K(r, b, n - 1);
      if k == |b| then k else Next(b, k, r[n - 1])
  }

  /** Blank-free boundary tokens give scannable boundaries. */
  lemma {:induction false} NewlineBoundary(token: string)
    requires forall i :: 0 <= i < |token| ==> token[i] != '\r'
    ensures Lead("\r\n--" + token)
  {
    var b := "\r\n--" + token;
    assert b[0] == '\r' && b[1] == '\n' && b[2] == '-' && b[3] == '-';
    assert forall i :: 4 <= i < |b| ==> b[i] == token[i - 4];
  }

  // ---- slices ----

  lemma {:induction false} SliceLeft(d: string, x: string, i: nat, j: nat)
    requires i <= j <= |d|
    ensures (d + x)[i..j] == d[i..j]
  {
  }

  lemma {:induction false} SliceRight(d: string, x: string, i: nat, j: nat)
    requires |d| <= i <= j <= |d| + |x|
    ensures (d + x)[i..j] == x[i - |d|..j - |d|]
  {
  }

  lemma {:induction false} SliceAcross(d: string, x: string, i: nat, j: nat)
    requires i <= |d| <= j <= |d| + |x|
    ensures (d + x)[i..j][..|d| - i] == d[i..]
  {
  }

  lemma {:induction false} TakeSlice(t: string, n: nat, i: nat, j: nat)
    requires i <= j <= n <= |t|
    ensures t[..n][i..j] == t[i..j]
  {
  }

  lemma {:induction false} WholeEnd(t: string, i: nat)
    requires i <= |t|
    ensures t[i..] == t[i..|t|] && t[..|t|] == t
  {
  }

  /** No occurrence at all is none at the end, and none in a beginning. */
  lemma {:induction false} NoEnd(t: string, b: string)
    requires b != "" && NoOccurrence(t, b)
    ensures !EndsWith(t, b, |b|)
  {
    if |b| <= |t| {
      WholeEnd(t, |t| - |b|);
      WholeEnd(b, 0);
      assert !Occurs(t, b, |t| - |b|);
    }
  }

  lemma {:induction false} NoneBefore(t: string, b: string, n: nat)
    requires NoOccurrence(t, b) && n <= |t|
    ensures NoOccurrence(t[..n], b)
  {
    forall i | 0 <= i <= n ensures !Occurs(t[..n], b, i) {
      assert !Occurs(t, b, i);
      if i + |b| <= n {
        TakeSlice(t, n, i, i + |b|);
      }
    }
  }

  /** A match of the first j+1 bytes is one of j bytes and one more. */
  lemma {:induction false} EndsWithSnoc(s: string, c: char, b: string, j: nat)
    requires j < |b|
    ensures EndsWith(s + [c], b, j + 1) <==> EndsWith(s, b, j) && c == b[j]
  {
    var t := s + [c];
    assert b[..j + 1] == b[..j] + [b[j]];
    if j <= |s| {
      assert t[|t| - (j + 1)..] == s[|s| - j..] + [c];
    }
  }

  /** Two matches of different lengths would repeat the first byte. */
  lemma {:induction false} OneMatch(s: string, b: string, j: nat, k: nat)
    requires Lead(b) && EndsWith(s, b, k) && 0 < j < k
    ensures !EndsWith(s, b, j)
  {
    assert s[|s| - k..][k - j] == s[|s| - j] == s[|s| - j..][0];
    assert b[..k][k - j] == b[k - j] && b[..j][0] == b[0];
  }

  /** The scanner's reset, without backtracking, keeps the longest match. */
  lemma {:induction false} Advance(s: string, c: char, b: string, k: nat)
    requires Lead(b) && Longest(s, b, k)
    ensures EndsWith(s + [c], b, Next(b, k, c))
    ensures forall j :: Next(b, k, c) < j <= |b| ==> !EndsWith(s + [c], b, j)
  {
    EndsWithSnoc(s, c, b, k);
    EndsWithSnoc(s, c, b, 0);
    forall j | Next(b, k, c) < j <= |b| ensures !EndsWith(s + [c], b, j) {
      EndsWithSnoc(s, c, b, j - 1);
      if 0 < j - 1 < k {
        OneMatch(s, b, j - 1, k);
      }
    }
  }

  lemma {:induction false} OccurrenceSnoc(s: string, c: char, b: string)
    requires b != "" && NoOccurrence(s, b)
    ensures NoOccurrence(s + [c], b) <==> !EndsWith(s + [c], b, |b|)
  {
    var t := s + [c];
    WholeEnd(b, 0);
    if EndsWith(t, b, |b|) {
      WholeEnd(t, |t| - |b|);
      assert Occurs(t, b, |t| - |b|);
    } else {
      forall i | 0 <= i <= |t| ensures !Occurs(t, b, i) {
        if i + |b| <= |s| {
          SliceLeft(s, [c], i, i + |b|);
          assert !Occurs(s, b, i);
        } else if i + |b| == |t| {
          WholeEnd(t, i);
        }
      }
    }
  }

  /** The scan against the naive search: while it runs, its state is the
      longest match and there was no occurrence; it stops on the first one. */
  lemma {:induction false} ScanMeaning(r: string, b: string, n: nat)
    requires Lead(b) && n <= |r|
    ensures K(r, b, n) < |b| ==> Longest(r[..n], b, K(r, b, n)) && NoOccurrence(r[..n], b)
    ensures n > 0 && K(r, b, n - 1) < |b| && K(r, b, n) == |b| ==>
              EndsWith(r[..n], b, |b|) && NoOccurrence(r[..n - 1], b)
  {
    if n > 0 {
      ScanMeaning(r, b, n - 1);
      if K(r, b, n - 1) < |b| {
        var s, c := r[..n - 1], r[n - 1];
        assert s + [c] == r[..n];
        Advance(s, c, b, K(r, b, n - 1));
        OccurrenceSnoc(s, c, b);
      }
    }
  }

  method ReadByte<S(!new)>(io: Io<S>) returns (ok: bool, eof: bool, c: char)
    requires io.Valid()
    modifies io, io.chain`cells, io.chain`ts
    ensures ok ==> io.Valid() && old(io.rest) == (if eof then "" else [c]) + io.rest
    ensures ok && eof ==> io.rest == ""
    ensures io.Reliable() ==> ok
  {
    var s;
    ok, s := io.Read(1);
    eof := s == "";
    c := if eof then '\0' else s[0];
    assert ok && !eof ==> s == [c];
  }

  /** The two comparisons of the scanner's loop. */
  method Match(b: string, k: nat, c: char) returns (k': nat)
    requires k < |b|
    ensures k' == Next(b, k, c)
  {
    k' := k;
    if b[k'] != c {
      k' := 0;
    }
    if b[k'] == c {
      k' := k' + 1;
    }
  }

  /** A match is in progress at every byte from the last room check to the end
      of the buffer, and there is more to read. */
  predicate Overruns(r: string, b: string, size: nat) {
    b != "" && |b| <= size < |r| && forall n :: size - |b| <= n <= size ==> 0 < K(r, b, n) < |b|
  }

  lemma {:induction false} FirstByteAgain(r: string, b: string, n: nat)
    requires Lead(b) && |b| >= 2 && 0 < n <= |r| && forall i :: 0 <= i < |r| ==> r[i] == b[0]
    ensures K(r, b, n) == 1
  {
    if n > 1 {
      FirstByteAgain(r, b, n - 1);
    }
  }

  /** That happens: a stream of nothing but first bytes of the boundary. */
  lemma {:induction false} OverrunsHappen(b: string, size: nat)
    requires Lead(b) && 2 <= |b| < size
    ensures Overruns(seq(size + 1, _ => b[0]), b, size)
  {
    var r := seq(size + 1, _ => b[0]);
    forall n | size - |b| <= n <= size ensures K(r, b, n) == 1 {
      FirstByteAgain(r, b, n);
    }
  }

  /** Some beginning of the boundary, but not all of it, ends `s`. */
  predicate Partial(s: string, b: string) {
    exists k :: 0 < k < |b| && EndsWith(s, b, k)
  }

  lemma {:induction false} NotFound(r: string, b: string, n: nat)
    requires Lead(b) && n <= |r| && NoOccurrence(r[..n], b)
    ensures K(r, b, n) < |b|
  {
    if n > 0 {
      NoneBefore(r[..n], b, n - 1);
      assert r[..n][..n - 1] == r[..n - 1];
      NotFound(r, b, n - 1);
      ScanMeaning(r, b, n);
      NoEnd(r[..n], b);
    }
  }

  /** The same said of the bytes: no boundary in what the buffer can hold, and at
      each of its last places a match begun and not ended. */
  lemma {:induction false} OverrunsInBytes(r: string, b: string, size: nat)
    requires Lead(b)
    ensures Overruns(r, b, size) <==>
            && |b| <= size < |r| && NoOccurrence(r[..size], b)
            && forall n :: size - |b| <= n <= size ==> Partial(r[..n], b)
  {
    if |b| <= size < |r| {
      ScanMeaning(r, b, size);
      forall n | size - |b| <= n <= size ensures K(r, b, n) < |b| ==> (0 < K(r, b, n) <==> Partial(r[..n], b)) {
        ScanMeaning(r, b, n);
      }
      if NoOccurrence(r[..size], b) {
        NotFound(r, b, size);
        forall n | 0 <= n <= size ensures K(r, b, n) < |b| {
          if K(r, b, n) == |b| {
            KStays(r, b, n, size);
          }
        }
      }
    }
  }

  lemma {:induction false} KStays(r: string, b: string, n: nat, m: nat)
    requires b != "" && n <= m <= |r| && K(r, b, n) == |b|
    ensures K(r, b, m) == |b|
    decreases m
  {
    if n < m {
      KStays(r, b, n, m - 1);
    }
  }

  /** Where a call of the scanner ends: behind the boundary, between matches when
      the room gets short, or at the end of the stream. */
  function StopFrom(r: string, b: string, size: nat, n: nat): (m: nat)
    requires b != "" && n <= |r| && n <= size
    ensures n <= m <= |r| && m <= size
    decreases |r| - n
  {
    var k := K(r, b, n);
    if k == |b| || (k == 0 && size - n <= |b|) || n == |r| || n == size then n else StopFrom(r, b, size, n + 1)
  }

  function Stop(r: string, b: string, size: nat): nat
    requires b != ""
  {
    StopFrom(r, b, size, 0)
  }

  /** How a call of the scanner on `r` ends, given the bytes it has stored. */
  predicate Ends(r: string, b: string, size: nat, n: nat, found: bool, fits: bool) {
    && b != "" && |b| <= size && n <= size && n <= |r|
    && (fits <==> !Overruns(r, b, size)) && (fits ==> n == Stop(r, b, size))
    && (fits ==> (found <==> K(r, b, n) == |b|))
    && (fits && found ==> n > 0 && K(r, b, n - 1) < |b|)
    && (fits && !found && n < |r| ==> K(r, b, n) == 0 && size - |b| <= n)
  }

  /** Where such a call stands. */
  predicate Runs(r: string, b: string, size: nat, n: nat, k: nat) {
    && b != "" && |b| <= size && n <= size && n <= |r| && k == K(r, b, n)
    && (k == |b| ==> n > 0 && K(r, b, n - 1) < |b|) && StopFrom(r, b, size, n) == Stop(r, b, size)
    && forall m :: size - |b| <= m < n ==> 0 < K(r, b, m) < |b|
  }

  lemma {:induction false} RunsOn(r: string, b: string, size: nat, n: nat, k: nat)
    requires Runs(r, b, size, n, k) && k < |b| && n < |r| && n < size && !(k == 0 && size - n <= |b|)
    ensures Runs(r, b, size, n + 1, Next(b, k, r[n]))
  {
  }

  lemma {:induction false} RunsEnd(r: string, b: string, size: nat, n: nat, k: nat)
    requires Runs(r, b, size, n, k)
    ensures k == |b| ==> Ends(r, b, size, n, true, true)
    ensures k == 0 && size - n <= |b| ==> Ends(r, b, size, n, false, true)
    ensures k < |b| && n == |r| ==> Ends(r, b, size, n, false, true)
    ensures 0 < k < |b| && n == size < |r| ==> Ends(r, b, size, n, false, false)
  {
    if k == |b| && size < |r| {
      KStays(r, b, n, size);
    }
  }

  lemma {:induction false} Stored(
      r: string, b: string, size: nat, data: string, k: nat, c: char, rest: string, rest': string)
    requires r == data + rest && rest == [c] + rest' && Runs(r, b, size, |data|, k)
    requires k < |b| && |data| < size && !(k == 0 && size - |data| <= |b|)
    ensures r == (data + [c]) + rest' && Runs(r, b, size, |data| + 1, Next(b, k, c))
  {
    RunsOn(r, b, size, |data|, k);
  }

  datatype Outcome = More | AtEnd | TooMuch

  /** One round of the loop of read_until. */
  method ScanByte<S(!new)>(io: Io<S>, b: string, size: nat, data: string, k: nat, ghost r: string)
      returns (ok: bool, data': string, k': nat, outcome: Outcome)
    requires io.Valid() && r == data + io.rest && Runs(r, b, size, |data|, k)
    requires k < |b| && !(k == 0 && size - |data| <= |b|)
    modifies io, io.chain`cells, io.chain`ts
    ensures ok ==> io.Valid() && (outcome != TooMuch ==> r == data' + io.rest)
    ensures ok && outcome == More ==> |data'| == |data| + 1 && Runs(r, b, size, |data'|, k')
    ensures ok && outcome != More ==> data' == data && k' == k && Ends(r, b, size, |data|, false, outcome == AtEnd)
    ensures io.Reliable() ==> ok
  {
    data', k', outcome := data, k, AtEnd;
    ghost var rest := io.rest;
    var eof, c;
    ok, eof, c := ReadByte(io);
    if !ok {
      return;
    }
    if eof {
      assert r == data;
      RunsEnd(r, b, size, |data|, k);
      return;
    }
    if |data| == size {
      outcome := TooMuch;
      RunsEnd(r, b, size, |data|, k);
      return;
    }
    Stored(r, b, size, data, k, c, rest, io.rest);
    outcome := More;
    k' := Match(b, k, c);
    data' := data + [c];
  }

  /** read_until: read into a buffer of `size` bytes and stop right behind the
      boundary. Room is checked only while no match is in progress; `fits`
      tells whether that was enough. */
  method ReadUntil<S(!new)>(io: Io<S>, b: string, size: nat) returns (ok: bool, data: string, found: bool, fits: bool)
    requires io.Valid() && b != ""
    modifies io, io.chain`cells, io.chain`ts
    ensures size < |b| ==> !ok
    ensures ok ==> io.Valid() && Ends(old(io.rest), b, size, |data|, found, fits)
    ensures ok && fits ==> old(io.rest) == data + io.rest
    ensures io.Reliable() && size >= |b| ==> ok
  {
    data, found, fits, ok := "", false, true, true;
    if size < |b| {
      return false, data, found, fits;
    }
    var k := 0;
    ghost var r := io.rest;
    assert r == data + io.rest;
    while !found && !(k == 0 && size - |data| < |b| + 1)
      invariant ok && fits && io.Valid() && r == data + io.rest
      invariant Runs(r, b, size, |data|, k) && found == (k == |b|)
      decreases size - |data|, !found
    {
      var outcome;
      ok, data, k, outcome := ScanByte(io, b, size, data, k, r);
      if !ok {
        return;
      }
      if outcome != More {
        fits := outcome == AtEnd;
        return;
      }
      found := k == |b|;
    }
    RunsEnd(r, b, size, |data|, k);
  }

  /** Behind bytes that end in no partial match the search starts afresh. */
  lemma {:induction false} Join(d: string, x: string, b: string, i: nat)
    requires b != "" && NoOccurrence(d, b) && (x == "" || Longest(d, b, 0))
    ensures Occurs(d + x, b, i) <==> i >= |d| && Occurs(x, b, i - |d|)
  {
    var t := d + x;
    if i >= |d| {
      if i + |b| <= |t| {
        SliceRight(d, x, i, i + |b|);
      }
    } else if i + |b| <= |d| {
      SliceLeft(d, x, i, i + |b|);
      assert !Occurs(d, b, i);
    } else if i + |b| <= |t| {
      SliceAcross(d, x, i, i + |b|);
      assert !EndsWith(d, b, |d| - i);
    }
  }

  lemma {:induction false} JoinLongest(d: string, x: string, b: string)
    requires Longest(d, b, 0) && Longest(x, b, 0)
    ensures Longest(d + x, b, 0)
  {
    var t := d + x;
    forall j | 0 < j <= |b| ensures !EndsWith(t, b, j) {
      if j <= |x| {
        WholeEnd(t, |t| - j);
        WholeEnd(x, |x| - j);
        SliceRight(d, x, |t| - j, |t|);
        assert !EndsWith(x, b, j);
      } else if j <= |t| {
        var m := j - |x|;
        WholeEnd(t, |t| - j);
        SliceAcross(d, x, |t| - j, |t|);
        TakeSlice(b, j, 0, m);
        assert b[..j][..m] == b[..j][0..m] && b[..m] == b[0..m];
        assert !EndsWith(d, b, m);
      }
    }
  }

  /** The boundary that ends `r[..n]` is the first one in `r`. */
  lemma {:induction false} FoundFirst(r: string, b: string, n: nat)
    requires b != "" && 0 < n <= |r| && EndsWith(r[..n], b, |b|) && NoOccurrence(r[..n - 1], b)
    ensures |b| <= n && Occurs(r, b, n - |b|) && forall j :: 0 <= j < n - |b| ==> !Occurs(r, b, j)
  {
    WholeEnd(r[..n], n - |b|);
    TakeSlice(r, n, n - |b|, n);
    WholeEnd(b, 0);
    forall j | 0 <= j < n - |b| ensures !Occurs(r, b, j) {
      assert !Occurs(r[..n - 1], b, j);
      TakeSlice(r, n - 1, j, j + |b|);
    }
  }

  /** What the upload loop has written so far. */
  predicate Clean(all: string, content: string, rest: string, b: string) {
    all == content + rest && NoOccurrence(content, b) && (rest == "" || Longest(content, b, 0))
  }

  /** The content of a part ends at the first boundary in the stream. */
  predicate FirstPart(all: string, b: string, content: string, rest: string) {
    && Occurs(all, b, |content|) && (forall j :: 0 <= j < |content| ==> !Occurs(all, b, j))
    && content == all[..|content|] && rest == all[|content| + |b|..]
  }

  lemma {:induction false} PartFound(all: string, content: string, r: string, b: string, n: nat)
    requires Lead(b) && Clean(all, content, r, b) && 0 < n <= |r| && K(r, b, n - 1) < |b| == K(r, b, n)
    ensures |b| <= n && FirstPart(all, b, content + r[..n - |b|], r[n..])
  {
    ScanMeaning(r, b, n);
    FoundFirst(r, b, n);
    var c := content + r[..n - |b|];
    forall j | 0 <= j <= |c| ensures Occurs(all, b, j) <==> j == |c| {
      Join(content, r, b, j);
    }
    assert c == all[..|c|];
  }

  lemma {:induction false} PartGoesOn(all: string, content: string, r: string, b: string, n: nat)
    requires Lead(b) && Clean(all, content, r, b) && n <= |r| && K(r, b, n) < |b|
    requires n < |r| ==> K(r, b, n) == 0
    ensures Clean(all, content + r[..n], r[n..], b)
  {
    ScanMeaning(r, b, n);
    var c := content + r[..n];
    forall i | 0 <= i <= |c| ensures !Occurs(c, b, i) {
      Join(content, r[..n], b, i);
    }
    if n < |r| {
      JoinLongest(content, r[..n], b);
    }
    assert content + r == c + r[n..];
  }

  /** Some call of the upload loop has its room check come too late. */
  predicate Overflows(r: string, b: string)
    requires b != ""
    decreases |r|
  {
    var n := Stop(r, b, BUFSZ);
    Overruns(r, b, BUFSZ) || (0 < n && K(r, b, n) < |b| && Overflows(r[n..], b))
  }

  /** One round of the upload loop. */
  method PartRound<S(!new)>(io: Io<S>, b: string, content: string, ghost all: string)
      returns (ok: bool, content': string, found: bool, fits: bool)
    requires io.Valid() && Lead(b) && |b| < BUFSZ && Clean(all, content, io.rest, b)
    modifies io, io.chain`cells, io.chain`ts
    ensures ok ==> io.Valid()
    ensures ok && found ==> FirstPart(all, b, content', io.rest)
    ensures ok && !found ==> Clean(all, content', io.rest, b) && |io.rest| < old(|io.rest|)
    ensures !ok && fits && io.Reliable() ==> NoOccurrence(all, b)
    ensures ok ==> fits && (Overflows(old(io.rest), b) <==> !found && Overflows(io.rest, b))
    ensures !ok && io.Reliable() ==> (!fits <==> Overflows(old(io.rest), b))
  {
    content' := content;
    ghost var r := io.rest;
    var data;
    ok, data, found, fits := ReadUntil(io, b, BUFSZ);
    if !ok || !fits {
      ok := false;
      return;
    }
    RoundEnds(all, content, r, io.rest, data, b, found);
    if data == "" {
      ok := false;
    } else if found {
      content' := content + data[..|data| - |b|];
    } else {
      content' := content + data;
    }
  }

  lemma {:induction false} RoundEnds(
      all: string, content: string, r: string, r': string, data: string, b: string, found: bool)
    requires Lead(b) && |b| < BUFSZ && Clean(all, content, r, b)
    requires r == data + r' && Ends(r, b, BUFSZ, |data|, found, true)
    ensures data == "" ==> NoOccurrence(all, b)
    ensures data != "" && found ==> |b| <= |data| && FirstPart(all, b, content + data[..|data| - |b|], r')
    ensures data != "" && !found ==> Clean(all, content + data, r', b) && |r'| < |r|
  {
    var n := |data|;
    assert data == r[..n] && r' == r[n..];
    if data == "" {
      assert all == content;
    } else if found {
      PartFound(all, content, r, b, n);
      assert r[..n - |b|] == data[..n - |b|];
    } else {
      PartGoesOn(all, content, r, b, n);
    }
  }

  /** The upload loop of request_parse_multipart_chunk: successive read_until
      calls with an empty buffer each, writing all but the boundary. */
  method ReadPart<S(!new)>(io: Io<S>, b: string) returns (ok: bool, content: string, fits: bool)
    requires io.Valid() && Lead(b)
    modifies io, io.chain`cells, io.chain`ts
    ensures ok ==> io.Valid() && |b| < BUFSZ && FirstPart(old(io.rest), b, content, io.rest)
    ensures !ok && fits && |b| < BUFSZ && io.Reliable() ==> NoOccurrence(old(io.rest), b)
    ensures io.Reliable() ==> (!fits <==> |b| < BUFSZ && Overflows(old(io.rest), b))
    ensures ok ==> fits
  {
    content, fits, ok := "", true, false;
    if BUFSZ <= |b| {
      return;
    }
    ghost var all := io.rest;
    assert Clean(all, content, io.rest, b);
    var found := false;
    ok := true;
    while !found
      invariant ok && fits && io.Valid()
      invariant Overflows(all, b) <==> !found && Overflows(io.rest, b)
      invariant if found then FirstPart(all, b, content, io.rest) else Clean(all, content, io.rest, b)
      decreases !found, |io.rest|
    {
      ok, content, found, fits := PartRound(io, b, content, all);
      if !ok {
        return;
      }
    }
  }
}

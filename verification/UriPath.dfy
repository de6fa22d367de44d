/**
  URI path handling: u_uri_normalize of src/libutils/path.c and the split into
  filename and path info by request_set_uri of src/libpage/request.c.
 */
module UriPath {
  import opened UrlCoding
  import opened Codec

  const URI_BUFSZ: nat := 4096

  // ---- segments ----

  predicate Segment(t: string) {
    t != "" && '/' !in t
  }

  /** A segment that stays in a normal path. */
  predicate Proper(t: string) {
    Segment(t) && t != "." && t != ".."
  }

  /** Length of the leading part of `s` without a slash. */
  function SegLen(s: string): (n: nat)
    ensures n <= |s|
    ensures '/' !in s[..n]
    ensures n < |s| ==> s[n] == '/'
  {
    if s == "" || s[0] == '/' then 0
    else
      var n := 1 + SegLen(s[1..]);
      assert s[..n] == [s[0]] + s[1..][..n - 1];
      n
  }

  /** The pieces strtok_r finds between slashes; none of them is empty. */
  function Segments(s: string): (ts: seq<string>)
    ensures forall t :: t in ts ==> Segment(t)
    decreases |s|
  {
    if s == "" then []
    else if s[0] == '/' then Segments(s[1..])
    else
      var n := SegLen(s);
      assert n > 0;
      [s[..n]] + Segments(s[n..])
  }

  /** One segment on the stack of directories. */
  function Enter(stack: seq<string>, t: string): seq<string> {
    if t == "." then stack
    else if t == ".." then (if stack == [] then [] else stack[..|stack| - 1])
    else stack + [t]
  }

  function Resolve(ts: seq<string>): seq<string> {
    if ts == [] then [] else Enter(Resolve(ts[..|ts| - 1]), ts[|ts| - 1])
  }

  function Join(stack: seq<string>): string {
    if stack == [] then "" else Join(stack[..|stack| - 1]) + "/" + stack[|stack| - 1]
  }

  function Slashed(p: string): string {
    if p == "" then "" else [if p[0] == '\\' then '/' else p[0]] + Slashed(p[1..])
  }

  /** What an absolute path resolves to: its stack, a slash for an empty one,
      and the trailing slash it had. */
  function Normal(p: string): string
    requires p != "" && p[0] == '/'
  {
    var stack := Resolve(Segments(p));
    Join(stack) + if stack == [] || p[|p| - 1] == '/' then "/" else ""
  }

  // ---- properties ----

  lemma {:induction false} ResolveProper(ts: seq<string>)
    requires forall t :: t in ts ==> Segment(t)
    ensures forall t :: t in Resolve(ts) ==> Proper(t)
    ensures |Resolve(ts)| <= |ts|
  {
    if ts != [] {
      ResolveProper(ts[..|ts| - 1]);
    }
  }

  /** Proper segments resolve to themselves. */
  lemma {:induction false} ResolveSelf(ts: seq<string>)
    requires forall t :: t in ts ==> Proper(t)
    ensures Resolve(ts) == ts
  {
    if ts != [] {
      ResolveSelf(ts[..|ts| - 1]);
      assert Proper(ts[|ts| - 1]);
    }
  }

  lemma {:induction false} SegLenAt(t: string, rest: string)
    requires Segment(t) && (rest == "" || rest[0] == '/')
    ensures SegLen(t + rest) == |t|
  {
    var s := t + rest;
    var n := SegLen(s);
    assert forall i :: 0 <= i < |t| ==> s[i] == t[i] && t[i] in t;
    assert forall i :: 0 <= i < n ==> s[i] == s[..n][i] && s[i] in s[..n];
    assert rest != "" ==> s[|t|] == rest[0];
  }

  lemma {:induction false} SegmentsFirst(t: string, rest: string)
    requires Segment(t) && (rest == "" || rest[0] == '/')
    ensures Segments("/" + t + rest) == [t] + Segments(rest)
  {
    assert "/" + t + rest == "/" + (t + rest);
    SegmentsSlash(t + rest);
    SegmentsStep(t, rest);
  }

  lemma {:induction false} JoinFirst(stack: seq<string>)
    requires stack != []
    ensures Join(stack) == "/" + stack[0] + Join(stack[1..])
  {
    if |stack| > 1 {
      var init, last := stack[..|stack| - 1], stack[|stack| - 1];
      JoinFirst(init);
      assert init[1..] == stack[1..][..|stack| - 2];
      assert stack[1..][|stack| - 2] == last;
      assert Join(stack[1..]) == Join(init[1..]) + "/" + last;
    } else {
      assert stack[..0] == [] && stack[1..] == [];
    }
  }

  /** A joined stack is cut back into the same segments. */
  lemma {:induction false} SegmentsJoin(stack: seq<string>, tail: string)
    requires (forall t :: t in stack ==> Segment(t)) && (tail == "" || tail == "/")
    ensures Segments(Join(stack) + tail) == stack
  {
    if stack == [] {
      assert Join(stack) + tail == tail;
    } else {
      var rest := Join(stack[1..]) + tail;
      JoinFirst(stack);
      if stack[1..] != [] {
        JoinFirst(stack[1..]);
      }
      assert Segment(stack[0]);
      assert Join(stack) + tail == "/" + stack[0] + rest;
      SegmentsFirst(stack[0], rest);
      SegmentsJoin(stack[1..], tail);
    }
  }

  lemma {:induction false} JoinEnds(stack: seq<string>)
    requires stack != [] && forall t :: t in stack ==> Segment(t)
    ensures Join(stack) != "" && Join(stack)[0] == '/' && Join(stack)[|Join(stack)| - 1] != '/'
  {
    var last := stack[|stack| - 1];
    assert Segment(last) && last[|last| - 1] in last;
    JoinFirst(stack);
  }

  /** No slash follows another, so that no segment is empty. */
  predicate SingleSlashes(p: string) {
    forall i :: 0 <= i < |p| - 1 ==> !(p[i] == '/' && p[i + 1] == '/')
  }

  lemma {:induction false} GlueSingle(a: string, b: string)
    requires SingleSlashes(a) && SingleSlashes(b)
    requires a == "" || b == "" || a[|a| - 1] != '/' || b[0] != '/'
    ensures SingleSlashes(a + b)
  {
    var s := a + b;
    forall i | 0 <= i < |s| - 1 ensures !(s[i] == '/' && s[i + 1] == '/') {
      if i + 1 < |a| {
        assert s[i] == a[i] && s[i + 1] == a[i + 1];
      } else if i < |a| {
        assert s[i] == a[|a| - 1] && s[i + 1] == b[0];
      } else {
        assert s[i] == b[i - |a|] && s[i + 1] == b[i - |a| + 1];
      }
    }
  }

  lemma {:induction false} JoinSingle(stack: seq<string>)
    requires forall t :: t in stack ==> Segment(t)
    ensures SingleSlashes(Join(stack))
  {
    if stack != [] {
      var init, last := stack[..|stack| - 1], stack[|stack| - 1];
      JoinSingle(init);
      if init != [] {
        JoinEnds(init);
      }
      assert Segment(last) && forall i :: 0 <= i < |last| ==> last[i] in last;
      GlueSingle(Join(init), "/");
      GlueSingle(Join(init) + "/", last);
    }
  }

  /** A normal path is absolute, has only proper segments and no empty one, and
      is a fixed point of normalisation. */
  lemma {:induction false} NormalIsNormal(p: string)
    requires p != "" && p[0] == '/'
    ensures Normal(p) != "" && Normal(p)[0] == '/'
    ensures Segments(Normal(p)) == Resolve(Segments(p))
    ensures SingleSlashes(Normal(p)) && forall t :: t in Segments(Normal(p)) ==> Proper(t)
    ensures Normal(Normal(p)) == Normal(p)
  {
    var stack := Resolve(Segments(p));
    ResolveProper(Segments(p));
    var tail := if stack == [] || p[|p| - 1] == '/' then "/" else "";
    SegmentsJoin(stack, tail);
    ResolveSelf(stack);
    JoinSingle(stack);
    if stack != [] {
      JoinEnds(stack);
    }
    GlueSingle(Join(stack), tail);
  }

  // ---- what "." and ".." do ----

  lemma {:induction false} SegmentsStep(t: string, rest: string)
    requires Segment(t) && (rest == "" || rest[0] == '/')
    ensures Segments(t + rest) == [t] + Segments(rest)
  {
    var s := t + rest;
    assert s[0] == t[0] && t[0] in t;
    SegLenAt(t, rest);
    assert s[..|t|] == t && s[|t|..] == rest;
  }

  lemma {:induction false} SegmentsSlash(s: string)
    ensures Segments("/" + s) == Segments(s)
  {
    assert ("/" + s)[1..] == s;
  }

  /** The first segment of a path, and what is left behind it. */
  lemma {:induction false} FirstSegment(p: string) returns (t: string, rest: string)
    requires p != "" && p[0] != '/'
    ensures Segment(t) && (rest == "" || rest[0] == '/') && p == t + rest && |rest| < |p|
  {
    var n := SegLen(p);
    t, rest := p[..n], p[n..];
  }

  /** A place between segments cuts the list of segments in two. */
  lemma {:induction false} SegmentsApart(p: string, q: string)
    requires q == "" || q[0] == '/'
    ensures Segments(p + q) == Segments(p) + Segments(q)
    decreases |p|
  {
    if p == "" {
      assert p + q == q;
    } else if p[0] == '/' {
      SegmentsApart(p[1..], q);
      assert p + q == "/" + (p[1..] + q);
      SegmentsSlash(p[1..] + q);
    } else {
      var t, rest := FirstSegment(p);
      SegmentsApart(rest, q);
      Assoc(t, rest, q);
      SegmentsStep(t, rest);
      HeadOf(rest, q);
      SegmentsStep(t, rest + q);
      AssocList(t, Segments(rest), Segments(q));
    }
  }

  lemma {:induction false} AssocList(t: string, a: seq<string>, b: seq<string>)
    ensures [t] + (a + b) == ([t] + a) + b
  {
  }

  lemma {:induction false} HeadOf(a: string, b: string)
    requires (a == "" || a[0] == '/') && (b == "" || b[0] == '/')
    ensures a + b == "" || (a + b)[0] == '/'
  {
  }

  /** What comes later depends only on the stack so far. */
  lemma {:induction false} ResolveAfter(a: seq<string>, a': seq<string>, b: seq<string>)
    requires Resolve(a) == Resolve(a')
    ensures Resolve(a + b) == Resolve(a' + b)
    decreases |b|
  {
    if b == [] {
      assert a + b == a && a' + b == a';
    } else {
      var n := |b| - 1;
      ResolveAfter(a, a', b[..n]);
      ResolveLast(a, b);
      ResolveLast(a', b);
    }
  }

  lemma {:induction false} ResolveLast(a: seq<string>, b: seq<string>)
    requires b != []
    ensures Resolve(a + b) == Enter(Resolve(a + b[..|b| - 1]), b[|b| - 1])
  {
    assert (a + b)[..|a + b| - 1] == a + b[..|b| - 1];
  }

  /** ".." takes back the segment before it, at the top nothing, and "." nothing
      anywhere. */
  lemma {:induction false} ResolveDots(a: seq<string>, t: string, b: seq<string>)
    requires Proper(t)
    ensures Resolve(a + [t, ".."] + b) == Resolve(a + b)
    ensures Resolve(a + ["."] + b) == Resolve(a + b)
    ensures Resolve([".."] + b) == Resolve(b)
  {
    assert a + [t, ".."] == (a + [t]) + [".."];
    ResolveSnoc(a, t);
    ResolveSnoc(a + [t], "..");
    assert (Resolve(a) + [t])[..|Resolve(a)|] == Resolve(a);
    ResolveAfter(a + [t, ".."], a, b);
    ResolveSnoc(a, ".");
    ResolveAfter(a + ["."], a, b);
    assert [] + [".."] == [".."] && [] + b == b;
    ResolveSnoc([], "..");
    ResolveAfter([".."], [], b);
  }

  /** An absolute path that goes on with `rest` behind `p`, and that does not
      end in a slash if nothing follows. */
  predicate Joint(p: string, rest: string) {
    && (p == "" || p[0] == '/')
    && if rest == "" then p != "" && p[|p| - 1] != '/' else rest[0] == '/'
  }

  lemma {:induction false} SegmentsDots(t: string)
    requires Segment(t)
    ensures Segments("/" + t) == [t] && Segments("/" + t + "/..") == [t, ".."]
    ensures Segments("/.") == ["."] && Segments("/..") == [".."]
  {
    SegmentsFirst(t, "");
    SegmentsFirst(".", "");
    SegmentsFirst("..", "");
    SegmentsFirst(t, "/..");
    assert "/" + t + "" == "/" + t && "/" + "." + "" == "/." && "/" + ".." + "" == "/..";
    assert [t] + [".."] == [t, ".."];
  }

  /** Paths that come to the same stack and end alike. */
  lemma {:induction false} SameNormal(x: string, y: string)
    requires x != "" && y != "" && x[0] == y[0] == '/' && (x[|x| - 1] == '/' <==> y[|y| - 1] == '/')
    requires Resolve(Segments(x)) == Resolve(Segments(y))
    ensures Normal(x) == Normal(y)
  {
  }

  lemma {:induction false} EndsAlike(p: string, mid: string, rest: string)
    requires Joint(p, rest) && mid != "" && mid[0] == '/' && (rest == "" ==> mid[|mid| - 1] != '/')
    ensures var x, y := p + (mid + rest), p + rest;
            x != "" && y != "" && x[0] == y[0] == '/' && (x[|x| - 1] == '/' <==> y[|y| - 1] == '/')
  {
  }

  /** A segment and the ".." behind it are as if they were not there. */
  lemma {:induction false} NormalUp(p: string, t: string, rest: string)
    requires Joint(p, rest) && Proper(t)
    ensures Normal(p + "/" + t + "/.." + rest) == Normal(p + rest)
  {
    var mid := "/" + t + "/..";
    SegmentsDots(t);
    Grouped(p, "/", t, "/..", rest);
    ResolveDots(Segments(p), t, Segments(rest));
    NormalWithout(p, mid, rest);
  }

  /** A middle part that makes no difference to the stack. */
  lemma {:induction false} NormalWithout(p: string, mid: string, rest: string)
    requires Joint(p, rest) && mid != "" && mid[0] == '/' && (rest == "" ==> mid[|mid| - 1] != '/')
    requires Resolve(Segments(p) + Segments(mid) + Segments(rest)) == Resolve(Segments(p) + Segments(rest))
    ensures p + (mid + rest) != "" && (p + (mid + rest))[0] == '/' && Normal(p + (mid + rest)) == Normal(p + rest)
  {
    ThreeParts(p, mid, rest);
    EndsAlike(p, mid, rest);
    SameNormal(p + (mid + rest), p + rest);
  }

  lemma {:induction false} Grouped(a: string, b: string, c: string, d: string, e: string)
    ensures a + b + c + d + e == a + ((b + c + d) + e)
  {
  }

  /** Nor is a "." there. */
  lemma {:induction false} NormalHere(p: string, rest: string)
    requires Joint(p, rest)
    ensures Normal(p + "/." + rest) == Normal(p + rest)
  {
    var dot := "/.";
    SegmentsDots("a");
    Assoc(p, dot, rest);
    ResolveDots(Segments(p), "a", Segments(rest));
    NormalWithout(p, dot, rest);
  }

  /** Nor a slash that follows another. */
  lemma {:induction false} NormalTwice(p: string, rest: string)
    requires Joint(p, rest) && rest != ""
    ensures Normal(p + "/" + rest) == Normal(p + rest)
  {
    assert p + "/" + rest == p + ("/" + rest);
    SegmentsSlash(rest);
    SegmentsApart(p, "/" + rest);
    SegmentsApart(p, rest);
    EndsAlike(p, "/", rest);
    SameNormal(p + ("/" + rest), p + rest);
  }

  /** Above the top there is nothing. */
  lemma {:induction false} NormalTop(rest: string)
    requires rest != "" && rest[0] == '/'
    ensures Normal("/.." + rest) == Normal(rest)
  {
    var up := "/..";
    var x := up + rest;
    SegmentsDots("a");
    SegmentsApart(up, rest);
    ResolveDots([], "a", Segments(rest));
    assert x[0] == '/' && x[|x| - 1] == rest[|rest| - 1];
    SameNormal(x, rest);
  }

  /** Nor is there anything left of a path that goes up again to the top. */
  lemma {:induction false} NormalEmpty(t: string)
    requires Proper(t)
    ensures Normal("/..") == Normal("/.") == Normal("/" + t + "/..") == "/"
  {
    SegmentsDots(t);
    ResolveTwo(t);
    NothingLeft("/..");
    NothingLeft("/.");
    NothingLeft("/" + t + "/..");
  }

  lemma {:induction false} ResolveTwo(t: string)
    requires Proper(t)
    ensures Resolve([t, ".."]) == Resolve([".."]) == Resolve(["."]) == []
  {
    ResolveSnoc([], t);
    ResolveSnoc([t], "..");
    ResolveSnoc([], "..");
    ResolveSnoc([], ".");
    assert [] + [t] == [t] && [t] + [".."] == [t, ".."] && [] + [".."] == [".."] && [] + ["."] == ["."];
  }

  lemma {:induction false} NothingLeft(p: string)
    requires p != "" && p[0] == '/' && Resolve(Segments(p)) == []
    ensures Normal(p) == "/"
  {
  }

  lemma {:induction false} ThreeParts(p: string, mid: string, rest: string)
    requires (mid == "" || mid[0] == '/') && (rest == "" || rest[0] == '/')
    ensures Segments(p + (mid + rest)) == Segments(p) + Segments(mid) + Segments(rest)
    ensures Segments(p + rest) == Segments(p) + Segments(rest)
  {
    HeadOf(mid, rest);
    SegmentsApart(p, mid + rest);
    SegmentsApart(mid, rest);
    SegmentsApart(p, rest);
    AssocLists(Segments(p), Segments(mid), Segments(rest));
  }

  lemma {:induction false} AssocLists(a: seq<string>, b: seq<string>, c: seq<string>)
    ensures a + (b + c) == (a + b) + c
  {
  }

  /** A path cut into segments and joined again. */
  lemma {:induction false} JoinSegments(p: string)
    requires p == "" || (p[0] == '/' && SingleSlashes(p))
    ensures Join(Segments(p)) + Ending(p) == p
    decreases |p|
  {
    if |p| > 1 {
      assert p[0] == '/' && p[0 + 1] != '/';
      var t, rest := FirstSegment(p[1..]);
      assert p == "/" + t + rest;
      SegmentsFirst(t, rest);
      SingleRest("/" + t, rest);
      JoinSegments(rest);
      JoinStep("/" + t, Join(Segments(rest)), rest);
      assert rest == "" ==> t[|t| - 1] in t;
      JoinFirst([t] + Segments(rest));
      assert ([t] + Segments(rest))[1..] == Segments(rest);
    }
  }

  lemma {:induction false} JoinStep(a: string, j: string, rest: string)
    requires j + Ending(rest) == rest
    ensures (rest == "" ==> Ending(a) == "") ==> (a + j) + Ending(a + rest) == a + rest
  {
    if rest == "" {
      assert a + rest == a && a + j == a;
    } else {
      assert (a + rest)[|a + rest| - 1] == rest[|rest| - 1];
      Assoc(a, j, Ending(rest));
    }
  }

  /** The slash at the end of a path, if there is one. */
  function Ending(p: string): string {
    if p != "" && p[|p| - 1] == '/' then "/" else ""
  }

  lemma {:induction false} SingleRest(a: string, b: string)
    requires SingleSlashes(a + b)
    ensures SingleSlashes(b)
  {
    forall i | 0 <= i < |b| - 1 ensures !(b[i] == '/' && b[i + 1] == '/') {
      assert b[i] == (a + b)[|a| + i] && b[i + 1] == (a + b)[|a| + i + 1];
    }
  }

  /** A path without any of this stays as it is. */
  lemma {:induction false} NormalStays(p: string)
    requires p != "" && p[0] == '/' && SingleSlashes(p) && forall t :: t in Segments(p) ==> Proper(t)
    ensures Normal(p) == p
  {
    ResolveSelf(Segments(p));
    JoinSegments(p);
    if Segments(p) == [] {
      assert p == "/";
    }
  }

  lemma {:induction false} JoinLength(ts: seq<string>, s: string)
    requires ts == Segments(s)
    ensures |Join(ts)| + (if s != "" && s[|s| - 1] == '/' then 1 else 0) <= |s| + 1
    ensures s != "" && s[0] == '/' ==> |Join(ts)| + (if s[|s| - 1] == '/' then 1 else 0) <= |s|
    decreases |s|
  {
    if s != "" {
      if s[0] == '/' {
        JoinLength(ts, s[1..]);
      } else {
        var n := SegLen(s);
        JoinFirst(ts);
        JoinLength(ts[1..], s[n..]);
        assert ts[1..] == Segments(s[n..]);
      }
    }
  }

  lemma {:induction false} ResolveLength(ts: seq<string>)
    ensures |Join(Resolve(ts))| <= |Join(ts)|
  {
    if ts != [] {
      ResolveLength(ts[..|ts| - 1]);
      var r := Resolve(ts[..|ts| - 1]);
      assert (r + [ts[|ts| - 1]])[..|r|] == r;
    }
  }

  /** Normalisation never lengthens a path. */
  lemma {:induction false} NormalLength(p: string)
    requires p != "" && p[0] == '/'
    ensures |Normal(p)| <= |p|
  {
    JoinLength(Segments(p), p);
    ResolveLength(Segments(p));
  }

  // ---- u_uri_normalize ----

  method ConvertBackslashes(path: string) returns (p: string)
    ensures p == Slashed(path)
  {
    p := "";
    assert path[0..] == path;
    for i := 0 to |path|
      invariant p + Slashed(path[i..]) == Slashed(path)
    {
      SlashedNext(path, i, p);
      p := p + [if path[i] == '\\' then '/' else path[i]];
    }
  }

  /** Every backslash has become a slash, and nothing else has changed. */
  lemma {:induction false} SlashedBytes(p: string)
    ensures |Slashed(p)| == |p|
    ensures forall i :: 0 <= i < |p| ==> Slashed(p)[i] == if p[i] == '\\' then '/' else p[i]
  {
    if p != "" {
      SlashedBytes(p[1..]);
    }
  }

  lemma {:induction false} SlashedNext(path: string, i: nat, p: string)
    requires i < |path|
    ensures p + Slashed(path[i..])
         == (p + [if path[i] == '\\' then '/' else path[i]]) + Slashed(path[i + 1..])
  {
    assert path[i..][0] == path[i] && path[i..][1..] == path[i + 1..];
  }

  /** "..": eat the last directory, if there is one. */
  method EatLast(s: string, ghost stack: seq<string>) returns (r: string)
    requires s == Join(stack) && forall t :: t in stack ==> Segment(t)
    ensures r == Join(if stack == [] then [] else stack[..|stack| - 1])
  {
    var len := |s|;
    ghost var at := -1;
    if stack != [] {
      LastSlash(Join(stack[..|stack| - 1]), stack[|stack| - 1]);
      at := |Join(stack[..|stack| - 1])|;
    }
    while len > 0 && s[len - 1] != '/'
      invariant at < len <= |s|
    {
      len := len - 1;
    }
    r := s[..if len > 0 then len - 1 else 0];
  }

  lemma {:induction false} LastSlash(init: string, last: string)
    requires Segment(last)
    ensures var s := init + "/" + last;
            && s[|init|] == '/' && s[..|init|] == init
            && forall j :: |init| < j < |s| ==> s[j] != '/'
  {
    var s := init + "/" + last;
    forall j | |init| < j < |s| ensures s[j] != '/' {
      assert s[j] == last[j - |init| - 1] && last[j - |init| - 1] in last;
    }
  }

  /** strtok_r with the slash as delimiter: the next segment and what is left
      behind it, or nothing. */
  method NextSegment(p: string, from: nat) returns (found: bool, tok: string, at: nat)
    requires from <= |p|
    ensures from <= at <= |p| && (found ==> from < at)
    ensures found ==> Segment(tok) && Segments(p[from..]) == [tok] + Segments(p[at..])
    ensures !found ==> Segments(p[from..]) == []
  {
    at := from;
    while at < |p| && p[at] == '/'
      invariant from <= at <= |p| && Segments(p[from..]) == Segments(p[at..])
    {
      assert p[at..][1..] == p[at + 1..];
      at := at + 1;
    }
    if at == |p| {
      return false, "", at;
    }
    tok, at := TakeSegment(p, at);
    found := true;
  }

  /** Up to the next slash. */
  method TakeSegment(p: string, start: nat) returns (tok: string, at: nat)
    requires start < |p| && p[start] != '/'
    ensures start < at <= |p| && Segment(tok) && Segments(p[start..]) == [tok] + Segments(p[at..])
  {
    at := start;
    while at < |p| && p[at] != '/'
      invariant start <= at <= |p| && '/' !in p[start..at]
    {
      assert p[start..at + 1] == p[start..at] + [p[at]];
      at := at + 1;
    }
    tok := p[start..at];
    SegLenAt(tok, p[at..]);
    ghost var rest := p[start..];
    assert rest == tok + p[at..];
    assert rest[..|tok|] == tok && rest[|tok|..] == p[at..];
  }

  lemma {:induction false} ResolveSnoc(ts: seq<string>, t: string)
    ensures Resolve(ts + [t]) == Enter(Resolve(ts), t)
  {
    assert (ts + [t])[..|ts|] == ts;
  }

  /** The token loop: resolution on the string itself. */
  method ResolveString(p: string) returns (s: string)
    ensures s == Join(Resolve(Segments(p)))
  {
    s := "";
    var pos := 0;
    ghost var done: seq<string> := [];
    assert p[0..] == p;
    while true
      invariant pos <= |p| && done + Segments(p[pos..]) == Segments(p)
      invariant forall t :: t in done ==> Segment(t)
      invariant s == Join(Resolve(done))
      decreases |p| - pos
    {
      var found, tok;
      ghost var rest := Segments(p[pos..]);
      found, tok, pos := NextSegment(p, pos);
      if !found {
        assert done + [] == done;
        return;
      }
      assert done + ([tok] + Segments(p[pos..])) == (done + [tok]) + Segments(p[pos..]);
      ResolveSnoc(done, tok);
      ResolveProper(done);
      ghost var stack := Resolve(done);
      if tok == "." {
      } else if tok == ".." {
        s := EatLast(s, stack);
      } else {
        assert (stack + [tok])[..|stack|] == stack;
        s := s + "/" + tok;
      }
      done := done + [tok];
    }
  }

  /** u_uri_normalize: an error for a path that is not absolute. */
  method Normalize(path: string) returns (ok: bool, out: string)
    ensures ok <==> path != "" && (path[0] == '/' || path[0] == '\\')
    ensures ok ==> Slashed(path) != "" && Slashed(path)[0] == '/' && out == Normal(Slashed(path))
  {
    var p := ConvertBackslashes(path);
    if p == "" || p[0] != '/' {
      return false, "";
    }
    var trailing := p[|p| - 1] == '/';
    out := ResolveString(p);
    JoinEmpty(Resolve(Segments(p)));
    if out == "" || trailing {
      out := out + "/";
    }
    ok := true;
  }

  lemma {:induction false} JoinEmpty(stack: seq<string>)
    ensures Join(stack) == "" <==> stack == []
  {
  }

  // ---- filename and path info ----

  /** A place where the path may be cut: its end, or before a slash. */
  predicate CutPoint(cp: string, i: nat) {
    i <= |cp| && (i < |cp| ==> cp[i] == '/')
  }

  /** u_strnrchr: last `c` among the first `len` bytes, or -1. */
  method FindLast(s: string, c: char, len: nat) returns (i: int)
    requires len <= |s|
    ensures -1 <= i < len
    ensures i >= 0 ==> s[i] == c
    ensures forall j :: i < j < len ==> s[j] != c
  {
    i := len - 1;
    while i >= 0 && s[i] != c
      invariant -1 <= i < len && forall j :: i < j < len ==> s[j] != c
    {
      i := i - 1;
    }
  }

  /** The search of request_set_uri for the longest prefix that the validator
      accepts; if there is none the whole path is the filename. */
  method SplitPath(cp: string, valid: string -> bool) returns (filename: string, pathInfo: string)
    ensures filename + pathInfo == cp
    ensures CutPoint(cp, |filename|)
    ensures forall i :: |filename| < i <= |cp| && CutPoint(cp, i) ==> !valid(cp[..i])
    ensures valid(filename) || (filename == cp && forall i :: 0 <= i <= |cp| && CutPoint(cp, i) ==> !valid(cp[..i]))
  {
    var pi := |cp|;
    while true
      invariant 0 <= pi <= |cp| && CutPoint(cp, pi)
      invariant forall i :: pi < i <= |cp| && CutPoint(cp, i) ==> !valid(cp[..i])
      decreases pi
    {
      if valid(cp[..pi]) {
        filename, pathInfo := cp[..pi], cp[pi..];
        return;
      }
      var p := FindLast(cp, '/', pi);
      if p < 0 {
        filename, pathInfo := cp, "";
        return;
      }
      pi := p;
    }
  }

  // ---- request_set_uri ----

  datatype Query = NoQuery | Query(text: string)

  datatype Request = Request(filename: string, pathInfo: string, query: Query)

  /** The query string is what follows the first '?', as it stands in the URI. */
  ghost predicate IsQuery(uri: string, q: Query) {
    match q
    case NoQuery => '?' !in uri
    case Query(text) => exists p :: uri == p + "?" + text && '?' !in p
  }

  /** The strchr of request_set_uri. */
  method TakeQuery(uri: string) returns (q: Query)
    ensures IsQuery(uri, q)
  {
    var i := 0;
    while i < |uri| && uri[i] != '?'
      invariant 0 <= i <= |uri| && '?' !in uri[..i]
    {
      assert uri[..i + 1] == uri[..i] + [uri[i]];
      i := i + 1;
    }
    assert uri[..|uri|] == uri;
    if i == |uri| {
      return NoQuery;
    }
    q := Query(uri[i + 1..]);
    assert uri == uri[..i] + "?" + uri[i + 1..];
  }

  /** The path request_set_uri works on: decoded, as a C string, without the
      query. */
  function PathOf(uri: string): Decoded {
    match Decode(uri)
    case Bad => Bad
    case Good(bytes) => if bytes == "" then Bad else Good(Until(Until(bytes, '\0'), '?'))
  }

  /** On the bytes: the decoded URI up to its first NUL or '?'. */
  lemma {:induction false} PathIs(uri: string)
    ensures PathOf(uri).Good? <==> Decode(uri).Good? && Decode(uri).bytes != ""
    ensures PathOf(uri).Good? ==>
              var all, p := Decode(uri).bytes, PathOf(uri).bytes;
              && |p| <= |all| && p == all[..|p|] && '\0' !in p && '?' !in p
              && (|p| < |all| ==> all[|p|] == '\0' || all[|p|] == '?')
  {
    if Decode(uri).Good? && Decode(uri).bytes != "" {
      UntilEither(Decode(uri).bytes, '\0', '?');
    }
  }

  lemma {:induction false} UntilEither(all: string, a: char, b: char)
    ensures var p := Until(Until(all, a), b);
            && |p| <= |all| && p == all[..|p|] && a !in p && b !in p
            && (|p| < |all| ==> all[|p|] == a || all[|p|] == b)
  {
    var s := Until(all, a);
    var p := Until(s, b);
    UntilIs(all, a);
    UntilIs(s, b);
    assert p == s[..|p|] == all[..|p|];
    assert forall c :: c in p ==> c in s;
  }

  /** request_set_uri. It fails on an URI that is too long, malformed, empty or
      not absolute. */
  method SetUri(uri: string, valid: string -> bool) returns (ok: bool, rq: Request)
    ensures ok <==> |uri| < URI_BUFSZ && PathOf(uri).Good? && PathOf(uri).bytes != "" &&
                    (PathOf(uri).bytes[0] == '/' || PathOf(uri).bytes[0] == '\\')
    ensures ok ==> IsQuery(uri, rq.query)
    ensures ok ==> var p := Slashed(PathOf(uri).bytes);
                   && p != "" && p[0] == '/' && rq.filename + rq.pathInfo == Normal(p)
                   && SingleSlashes(Normal(p)) && (forall t :: t in Segments(Normal(p)) ==> Proper(t))
                   && CutPoint(Normal(p), |rq.filename|)
                   && (forall i :: |rq.filename| < i <= |Normal(p)| && CutPoint(Normal(p), i) ==>
                                     !valid(Normal(p)[..i]))
                   && (valid(rq.filename) ||
                       (rq.filename == Normal(p) &&
                        forall i :: 0 <= i <= |Normal(p)| && CutPoint(Normal(p), i) ==> !valid(Normal(p)[..i])))
  {
    rq := Request("", "", NoQuery);
    if |uri| >= URI_BUFSZ {
      return false, rq;
    }
    var d := DecodeBuffer(uri);
    if d.Bad? || d.bytes == "" {
      return false, rq;
    }
    var cp := Until(Until(d.bytes, '\0'), '?');
    ok, cp := Normalize(cp);
    if !ok {
      return;
    }
    NormalIsNormal(Slashed(PathOf(uri).bytes));
    var f, i := SplitPath(cp, valid);
    var q := TakeQuery(uri);
    rq := Request(f, i, q);
  }
}

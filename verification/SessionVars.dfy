/**
  Saving session variables as lines of url-coded name=value pairs and loading
  them back (src/libpage/session.c, src/libpage/vars.c, u_getline of
  src/libutils/utils.c), through whatever codecs the session is stored with.
 */
module SessionVars {
  import opened UrlCoding
  import opened Codec
  import opened CodecChain
  import Out = OutputIo
  import In = InputIo

  const LINE_BUFSZ: nat := 1024

  /** The value of a variable, which may be missing. */
  datatype Value = Null | Bytes(data: string)

  datatype Var = Var(name: string, value: Value)

  predicate NulFree(s: string) {
    forall i :: 0 <= i < |s| ==> s[i] != '\0'
  }

  predicate InBytes(v: Var) {
    IsBytes(v.name) && (v.value.Bytes? ==> IsBytes(v.value.data))
  }

  predicate AllInBytes(vs: seq<Var>) {
    forall i :: 0 <= i < |vs| ==> InBytes(vs[i])
  }

  /** What follows the '=' of a line. */
  function Tail(value: Value): string
    requires value.Bytes? ==> IsBytes(value.data)
  {
    if value.Null? then "" else Encode(value.data)
  }

  /** The line of one variable, without its newline. */
  function LineOf(v: Var): string
    requires InBytes(v)
  {
    Encode(v.name) + "=" + Tail(v.value)
  }

  /** A variable session_prv_save_var does not write: no name, or a value of no
      bytes. */
  predicate Refused(v: Var) {
    v.name == "" || v.value == Bytes("")
  }

  /** A variable that is written; its name is a C string. */
  predicate Savable(v: Var) {
    InBytes(v) && !Refused(v) && NulFree(v.name)
  }

  /** A variable that survives: written, and with a line that fits. */
  predicate Storable(v: Var) {
    Savable(v) && |LineOf(v)| <= LINE_BUFSZ - 2
  }

  /** What a variable is after saving and loading: a missing value has become a
      NUL byte. */
  function Restored(v: Var): Var {
    if v.value.Null? then Var(v.name, Bytes("\0")) else v
  }

  function AllRestored(vs: seq<Var>): seq<Var> {
    if vs == [] then [] else [Restored(vs[0])] + AllRestored(vs[1..])
  }

  lemma {:induction false} RestoredExactly(vs: seq<Var>)
    ensures AllRestored(vs) == vs <==> forall i :: 0 <= i < |vs| ==> vs[i].value.Bytes?
  {
    RestoredLength(vs);
    forall i | 0 <= i < |vs| ensures AllRestored(vs)[i] == Restored(vs[i]) {
      RestoredAt(vs, i);
    }
  }

  lemma {:induction false} RestoredLength(vs: seq<Var>)
    ensures |AllRestored(vs)| == |vs|
  {
    if vs != [] {
      RestoredLength(vs[1..]);
    }
  }

  lemma {:induction false} RestoredAt(vs: seq<Var>, i: nat)
    requires i < |vs|
    ensures i < |AllRestored(vs)| && AllRestored(vs)[i] == Restored(vs[i])
  {
    if i > 0 {
      RestoredAt(vs[1..], i - 1);
      assert AllRestored(vs)[i] == AllRestored(vs[1..])[i - 1];
    }
  }

  /** The variables vars_foreach gets to before one is refused. */
  function Accepted(vs: seq<Var>): (r: seq<Var>)
    ensures AllInBytes(vs) ==> AllInBytes(r)
  {
    if vs == [] || Refused(vs[0]) then []
    else
      assert AllInBytes(vs) ==> AllInBytes(vs[1..]);
      [vs[0]] + Accepted(vs[1..])
  }

  /** Those before the first without a name, or with a value of no bytes. */
  lemma {:induction false} AcceptedAre(vs: seq<Var>)
    ensures var r := Accepted(vs);
            && |r| <= |vs| && r == vs[..|r|]
            && (forall i :: 0 <= i < |r| ==> r[i].name != "" && r[i].value != Bytes(""))
            && (|r| < |vs| ==> vs[|r|].name == "" || vs[|r|].value == Bytes(""))
  {
    if vs != [] && !Refused(vs[0]) {
      AcceptedAre(vs[1..]);
      var n := |Accepted(vs[1..])|;
      assert vs[..n + 1] == [vs[0]] + vs[1..][..n];
    }
  }

  function Lines(vs: seq<Var>): string
    requires AllInBytes(vs)
  {
    if vs == [] then "" else LineOf(vs[0]) + "\n" + Lines(vs[1..])
  }

  // ---- u_getline ----

  /** What u_getline makes of a stream: `None` at the end of it, or a line and
      what remains. Every chunk but the last of a long line loses a byte. */
  datatype Line = None | Some(line: string, rest: string)

  predicate IsNl(c: char) {
    c == '\n' || c == '\r'
  }

  function GetLine(s: string): Line
    decreases |s|
  {
    var n := |In.LineOf(s, '\n', LINE_BUFSZ - 1)|;
    ChunkLength(s);
    if s == "" then None
    else if IsNl(s[n - 1]) then Some(s[..n - 1], s[n..])
    else
      match GetLine(s[n..])
      case None => None
      case Some(line, rest) => Some(s[..n - 1] + line, rest)
  }

  lemma {:induction false} ChunkLength(s: string)
    ensures var n := |In.LineOf(s, '\n', LINE_BUFSZ - 1)|;
            n <= |s| && (s != "" ==> n > 0) && In.LineOf(s, '\n', LINE_BUFSZ - 1) == s[..n]
  {
  }

  /** A line that fits into one chunk is read whole. */
  lemma {:induction false} GetShortLine(line: string, rest: string)
    requires (forall c :: c in line ==> !IsNl(c)) && |line| <= LINE_BUFSZ - 2
    ensures GetLine(line + "\n" + rest) == Some(line, rest)
  {
    var s := line + "\n" + rest;
    assert s == line + ("\n" + rest);
    In.UpToSkip(line, "\n" + rest, '\n');
    var n := |In.LineOf(s, '\n', LINE_BUFSZ - 1)|;
    assert n == |line| + 1 && s[n - 1] == '\n' && s[..n - 1] == line && s[n..] == rest;
  }

  /** A line without the last byte of every chunk but the last. */
  function Thin(line: string): string
    decreases |line|
  {
    if |line| <= LINE_BUFSZ - 2 then line else line[..LINE_BUFSZ - 2] + Thin(line[LINE_BUFSZ - 1..])
  }

  /** Byte for byte: of every 1023 bytes the last is missing. */
  lemma {:induction false} ThinAt(line: string, j: nat)
    requires j < |line| - |line| / (LINE_BUFSZ - 1)
    ensures |Thin(line)| == |line| - |line| / (LINE_BUFSZ - 1)
    ensures j + j / (LINE_BUFSZ - 2) < |line| && Thin(line)[j] == line[j + j / (LINE_BUFSZ - 2)]
    decreases |line|
  {
    var n := LINE_BUFSZ - 2;
    ThinLength(line);
    if |line| > n && j >= n {
      Behind(|line|, j);
      ThinAt(line[n + 1..], j - n);
    }
  }

  lemma {:induction false} Behind(len: nat, j: nat)
    requires LINE_BUFSZ - 2 <= j < len - len / (LINE_BUFSZ - 1)
    ensures var n := LINE_BUFSZ - 2;
            && len > n && len / (n + 1) == 1 + (len - n - 1) / (n + 1) && j / n == 1 + (j - n) / n
  {
  }

  lemma {:induction false} ThinLength(line: string)
    ensures |Thin(line)| == |line| - |line| / (LINE_BUFSZ - 1)
    decreases |line|
  {
    if |line| > LINE_BUFSZ - 2 {
      ThinLength(line[LINE_BUFSZ - 1..]);
    }
  }

  /** What comes behind the last line end is not given back. */
  lemma {:induction false} GetLineUnended(s: string)
    requires forall c :: c in s ==> !IsNl(c)
    ensures GetLine(s) == None
    decreases |s|
  {
    ChunkLength(s);
    if s != "" {
      var n := |In.LineOf(s, '\n', LINE_BUFSZ - 1)|;
      assert s[n - 1] in s && forall c :: c in s[n..] ==> c in s;
      GetLineUnended(s[n..]);
    }
  }

  /** A carriage return ends a line only as the last byte of a chunk. */
  lemma {:induction false} GetLineReturn(line: string, rest: string)
    requires forall c :: c in line ==> !IsNl(c)
    requires |line| == LINE_BUFSZ - 2 || (|line| < LINE_BUFSZ - 2 && rest == "")
    ensures GetLine(line + "\r" + rest) == Some(line, rest)
  {
    var s := line + "\r" + rest;
    assert s == (line + "\r") + rest;
    In.UpToSkip(line + "\r", rest, '\n');
    var n := |In.LineOf(s, '\n', LINE_BUFSZ - 1)|;
    assert n == |line| + 1 && s[n - 1] == '\r' && s[..n - 1] == line && s[n..] == rest;
  }

  /** A longer one loses bytes. */
  lemma {:induction false} GetLongLine(line: string, rest: string)
    requires forall c :: c in line ==> !IsNl(c)
    ensures GetLine(line + "\n" + rest) == Some(Thin(line), rest)
    ensures |Thin(line)| <= |line| && (|Thin(line)| == |line| <==> |line| <= LINE_BUFSZ - 2)
    decreases |line|
  {
    if |line| <= LINE_BUFSZ - 2 {
      GetShortLine(line, rest);
    } else {
      var s, n := line + "\n" + rest, LINE_BUFSZ - 1;
      assert s == line + ("\n" + rest);
      In.UpToSkip(line, "\n" + rest, '\n');
      ChunkLength(s);
      assert s[n - 1] == line[n - 1] && line[n - 1] in line && s[..n - 1] == line[..n - 1];
      var left := line[n..];
      assert s[n..] == left + "\n" + rest;
      assert forall c :: c in left ==> c in line;
      GetLongLine(left, rest);
    }
  }

  /** u_getline gives back a line exactly when it fits into one chunk. */
  lemma {:induction false} GetLineExact(line: string, rest: string)
    requires forall c :: c in line ==> !IsNl(c)
    ensures GetLine(line + "\n" + rest) == Some(line, rest) <==> |line| <= LINE_BUFSZ - 2
  {
    GetLongLine(line, rest);
  }

  // ---- what the lost bytes do ----

  /** `x` is what is left of `y` when some bytes are taken out. */
  predicate Sub(x: string, y: string)
    decreases |y|
  {
    x == "" || (y != "" &&
                (Sub(x, y[..|y| - 1]) ||
                 (x[|x| - 1] == y[|y| - 1] && Sub(x[..|x| - 1], y[..|y| - 1]))))
  }

  lemma {:induction false} SubSelf(x: string)
    ensures Sub(x, x)
  {
    if x != "" {
      SubSelf(x[..|x| - 1]);
    }
  }

  lemma {:induction false} SubMore(x: string, y: string, z: string)
    requires Sub(x, y)
    ensures Sub(x, y + z) && Sub(x + z, y + z)
    decreases |z|
  {
    if z == "" {
      assert x + z == x && y + z == y;
    } else {
      var n := |z| - 1;
      SubMore(x, y, z[..n]);
      assert (y + z)[..|y + z| - 1] == y + z[..n] && (x + z)[..|x + z| - 1] == x + z[..n];
    }
  }

  lemma {:induction false} SubAppend(x: string, y: string, x': string, y': string)
    requires Sub(x, y) && Sub(x', y')
    ensures Sub(x + x', y + y')
    decreases |y'|
  {
    if x' == "" {
      assert x + x' == x;
      SubMore(x, y, y');
    } else {
      var n, m := |x'| - 1, |y'| - 1;
      assert (y + y')[..|y + y'| - 1] == y + y'[..m] && (x + x')[..|x + x'| - 1] == x + x'[..n];
      if Sub(x', y'[..m]) {
        SubAppend(x, y, x', y'[..m]);
      } else {
        SubAppend(x, y, x'[..n], y'[..m]);
      }
    }
  }

  lemma {:induction false} SubChars(x: string, y: string)
    requires Sub(x, y)
    ensures forall c :: c in x ==> c in y
    decreases |y|
  {
    if x != "" {
      var n := |y| - 1;
      assert y == y[..n] + [y[n]] && x == x[..|x| - 1] + [x[|x| - 1]];
      if Sub(x, y[..n]) {
        SubChars(x, y[..n]);
      } else {
        SubChars(x[..|x| - 1], y[..n]);
      }
    }
  }

  /** One byte taken out, and more behind it. */
  lemma {:induction false} SubCut(y: string, k: nat, z: string)
    requires k < |y| && Sub(z, y[k + 1..])
    ensures Sub(y[..k] + z, y)
  {
    var x := y[..k];
    SubSelf(x);
    SubMore(x, x, [y[k]]);
    SubAppend(x, x + [y[k]], z, y[k + 1..]);
    assert y == (x + [y[k]]) + y[k + 1..];
  }

  lemma {:induction false} ThinSub(line: string)
    ensures Sub(Thin(line), line)
    decreases |line|
  {
    if |line| <= LINE_BUFSZ - 2 {
      SubSelf(line);
    } else {
      ThinSub(line[LINE_BUFSZ - 1..]);
      SubCut(line, LINE_BUFSZ - 2, Thin(line[LINE_BUFSZ - 1..]));
    }
  }

  /** A place in the first of two parts, and one in the second. */
  lemma {:induction false} CutLeft(u: string, w: string, n: nat)
    requires n < |u|
    ensures (u + w)[..n] == u[..n] && (u + w)[n + 1..] == u[n + 1..] + w
  {
  }

  lemma {:induction false} CutRight(u: string, w: string, k: nat)
    requires k < |w|
    ensures (u + w)[..|u| + k] == u + w[..k] && (u + w)[|u| + k + 1..] == w[k + 1..]
  {
  }

  /** The two parts of a line after that, and that a short last part loses one
      byte at most. */
  lemma {:induction false} ThinParts(u: string, w: string) returns (u': string, w': string)
    ensures Thin(u + w) == u' + w' && Sub(u', u) && Sub(w', w)
    ensures |w| < LINE_BUFSZ ==> |w'| >= |w| - 1
    decreases |u|
  {
    var n := LINE_BUFSZ - 2;
    if |u + w| <= n {
      u', w' := u, w;
      SubSelf(u);
      SubSelf(w);
    } else if |u| > n {
      var y';
      y', w' := ThinParts(u[n + 1..], w);
      CutLeft(u, w, n);
      SubCut(u, n, y');
      u' := u[..n] + y';
      Assoc(u[..n], y', w');
    } else {
      u' := u;
      w' := ThinSecond(u, w);
      SubSelf(u);
    }
  }

  lemma {:induction false} ThinSecond(u: string, w: string) returns (w': string)
    requires |u| <= LINE_BUFSZ - 2 < |u + w|
    ensures Thin(u + w) == u + w' && Sub(w', w)
    ensures |w| < LINE_BUFSZ ==> |w'| >= |w| - 1
  {
    var k := LINE_BUFSZ - 2 - |u|;
    var y := w[k + 1..];
    CutRight(u, w, k);
    ThinSub(y);
    SubCut(w, k, Thin(y));
    w' := w[..k] + Thin(y);
    Assoc(u, w[..k], Thin(y));
  }

  // ---- vars_add_urlvar ----

  datatype Parsed = Malformed | Ok(v: Var)

  /** Index of the first '=', or the length. */
  function FindEq(s: string): (n: nat)
    ensures n <= |s|
    ensures n < |s| ==> s[n] == '='
  {
    if s == "" || s[0] == '=' then 0 else 1 + FindEq(s[1..])
  }

  function ParseLine(str: string): Parsed {
    var s := Until(str, '\0');
    var n := FindEq(s);
    if n == |s| then Malformed
    else
      var name, value := Decode(s[..n]), Decode(s[n + 1..]);
      if n == 0 || name.Bad? then Malformed
      else if n + 1 == |s| then Ok(Var(Until(name.bytes, '\0'), Bytes("\0")))
      else if value.Bad? then Malformed
      else Ok(Var(Until(name.bytes, '\0'), Bytes(value.bytes)))
  }

  lemma {:induction false} WholeString(s: string)
    requires NulFree(s)
    ensures Until(s, '\0') == s
  {
    if s != "" {
      WholeString(s[1..]);
    }
  }

  lemma {:induction false} FindEqAt(a: string, b: string)
    requires forall i :: 0 <= i < |a| ==> a[i] != '='
    ensures FindEq(a + "=" + b) == |a|
  {
    var s := a + "=" + b;
    if a == "" {
      assert s[0] == '=';
    } else {
      assert s[0] == a[0] && s[1..] == a[1..] + "=" + b;
      FindEqAt(a[1..], b);
    }
  }

  /** A line holds no line end, no NUL and one '=' before the value. */
  lemma {:induction false} LineClean(v: Var)
    requires Savable(v)
    ensures forall c :: c in LineOf(v) ==> !IsNl(c)
    ensures NulFree(LineOf(v)) && FindEq(LineOf(v)) == |Encode(v.name)|
  {
    EncodeClean(v.name);
    if v.value.Bytes? {
      EncodeClean(v.value.data);
    }
    PairClean(Encode(v.name), Tail(v.value));
  }

  lemma {:induction false} PairClean(a: string, b: string)
    requires Coded(a) && Coded(b)
    ensures forall c :: c in a + "=" + b ==> !IsNl(c)
    ensures NulFree(a + "=" + b) && FindEq(a + "=" + b) == |a|
  {
    assert forall i :: 0 <= i < |a| ==> a[i] in a;
    assert forall i :: 0 <= i < |b| ==> b[i] in b;
    FindEqAt(a, b);
  }

  /** A saved line parses back to its variable. */
  lemma {:induction false} ParseSaved(v: Var)
    requires Storable(v)
    ensures ParseLine(LineOf(v)) == Ok(Restored(v))
  {
    LineClean(v);
    DecodeEncode(v.name);
    EncodeClean(v.name);
    WholeString(v.name);
    if v.value.Bytes? {
      DecodeEncode(v.value.data);
      EncodeClean(v.value.data);
    }
    ParsePair(Encode(v.name), Tail(v.value));
  }

  lemma {:induction false} ParsePair(a: string, b: string)
    requires a != "" && NulFree(a + "=" + b) && FindEq(a + "=" + b) == |a| && Decode(a).Good? && Decode(b).Good?
    ensures ParseLine(a + "=" + b)
         == Ok(Var(Until(Decode(a).bytes, '\0'), Bytes(if b == "" then "\0" else Decode(b).bytes)))
  {
    var s := a + "=" + b;
    WholeString(s);
    assert s[..|a|] == a && s[|a| + 1..] == b && |s| == |a| + 1 + |b|;
  }

  /** What a line parses to, on the bytes: name, '=' and value, each decoded; a
      value that is missing counts as a NUL byte. Everything else is malformed. */
  lemma {:induction false} ParseExactly(str: string, v: Var)
    ensures ParseLine(str) == Ok(v) <==> exists p: (string, string) :: IsPair(Until(str, '\0'), p.0, p.1, v)
  {
    if ParseLine(str) == Ok(v) {
      var a, b := PairOf(str);
      var p := (a, b);
      assert IsPair(Until(str, '\0'), p.0, p.1, v);
    }
    forall p: (string, string) | IsPair(Until(str, '\0'), p.0, p.1, v) ensures ParseLine(str) == Ok(v) {
      ParseOf(str, p.0, p.1, v);
    }
  }

  lemma {:induction false} PairOf(str: string) returns (a: string, b: string)
    requires ParseLine(str).Ok?
    ensures IsPair(Until(str, '\0'), a, b, ParseLine(str).v)
  {
    var s := Until(str, '\0');
    var n := FindEq(s);
    NoEqBefore(s);
    a, b := s[..n], s[n + 1..];
    assert s == a + "=" + b;
  }

  lemma {:induction false} ParseOf(str: string, a: string, b: string, v: Var)
    requires IsPair(Until(str, '\0'), a, b, v)
    ensures ParseLine(str) == Ok(v)
  {
    var s := Until(str, '\0');
    assert forall i :: 0 <= i < |a| ==> a[i] in a;
    FindEqAt(a, b);
    assert s[..|a|] == a && s[|a| + 1..] == b && |s| == |a| + 1 + |b|;
  }

  /** `s` is the line a=b of the variable `v`. */
  predicate IsPair(s: string, a: string, b: string, v: Var) {
    && s == a + "=" + b && '=' !in a && a != "" && Decode(a).Good? && v.name == Until(Decode(a).bytes, '\0')
    && if b == "" then v.value == Bytes("\0") else Decode(b).Good? && v.value == Bytes(Decode(b).bytes)
  }

  lemma {:induction false} NoEqBefore(s: string)
    ensures '=' !in s[..FindEq(s)]
  {
    if s == "" || s[0] == '=' {
      assert s[..FindEq(s)] == "";
    } else {
      NoEqBefore(s[1..]);
      assert s[..FindEq(s)] == [s[0]] + s[1..][..FindEq(s[1..])];
    }
  }

  /** A variable of letters and digits is saved as it is read: name=value, and
      name= without a value. */
  lemma {:induction false} PlainLine(v: Var)
    requires InBytes(v) && (forall c :: c in v.name ==> Plain(c))
    requires v.value.Bytes? ==> forall c :: c in v.value.data ==> Plain(c)
    ensures LineOf(v) == v.name + "=" + if v.value.Null? then "" else v.value.data
  {
    PlainCode(v.name);
    if v.value.Bytes? {
      PlainCode(v.value.data);
    }
  }

  lemma {:induction false} PlainCode(s: string)
    requires IsBytes(s) && forall c :: c in s ==> Plain(c)
    ensures Encode(s) == s
  {
    if s != "" {
      assert s[0] in s && s == [s[0]] + s[1..];
      PlainCode(s[1..]);
    }
  }

  predicate Coded(x: string) {
    forall c :: c in x ==> Plain(c) || c == '+' || c == '%'
  }

  /** What a line of two codes parses to, if to anything: no more bytes than the
      codes are long. */
  lemma {:induction false} ParseCodes(a: string, b: string)
    requires Coded(a) && Coded(b)
    ensures var p := ParseLine(a + "=" + b);
            p.Ok? ==> && IsBytes(p.v.name) && |Encode(p.v.name)| <= |a|
                      && (b == "" ==> p.v.value == Bytes("\0"))
                      && (b != "" ==> p.v.value.Bytes? && IsBytes(p.v.value.data) && |Encode(p.v.value.data)| <= |b|)
  {
    PairClean(a, b);
    var s := a + "=" + b;
    WholeString(s);
    assert s[..|a|] == a && s[|a| + 1..] == b && |s| == |a| + 1 + |b|;
    if Decode(a).Good? {
      CodeIsShortest(a);
      UntilShorter(Decode(a).bytes, '\0');
    }
    if Decode(b).Good? {
      CodeIsShortest(b);
    }
  }

  lemma {:induction false} NoEquals(x: string)
    requires Coded(x)
    ensures ParseLine(x).Malformed?
  {
    assert forall i :: 0 <= i < |x| ==> x[i] in x;
    WholeString(x);
  }

  /** A code and the '=' behind it, with bytes taken out. */
  lemma {:induction false} SubName(u: string, a: string)
    requires Sub(u, a + "=") && Coded(a)
    ensures Coded(u) || (u != "" && u == u[..|u| - 1] + "=" && Coded(u[..|u| - 1]))
  {
    var y := a + "=";
    assert y[..|y| - 1] == a;
    if u != "" {
      if Sub(u, a) {
        SubChars(u, a);
      } else {
        SubChars(u[..|u| - 1], a);
      }
    }
  }

  /** A line that has lost bytes never parses back to its variable. */
  lemma {:induction false} ParseThin(v: Var)
    requires Savable(v) && |LineOf(v)| > LINE_BUFSZ - 2
    ensures ParseLine(Thin(LineOf(v))) != Ok(Restored(v))
  {
    var a, b := Encode(v.name), Tail(v.value);
    EncodeClean(v.name);
    if v.value.Bytes? {
      EncodeClean(v.value.data);
    }
    LineClean(v);
    GetLongLine(LineOf(v), "");
    assert LineOf(v) == (a + "=") + b;
    var u, w := ThinParts(a + "=", b);
    SubChars(w, b);
    SubName(u, a);
    if Coded(u) {
      NoEquals(u + w);
    } else {
      var n := u[..|u| - 1];
      ParseCodes(n, w);
      assert Thin(LineOf(v)) == n + "=" + w;
      NulCode(v.value);
    }
  }

  /** The code of a single NUL is three bytes long, so that it does not vanish. */
  lemma {:induction false} NulCode(value: Value)
    ensures value == Bytes("\0") ==> |Tail(value)| == 3
  {
    var s := "\0";
    assert s[1..] == "" && Encode1('\0') == ['%', Hex(0), Hex(0)];
  }

  // ---- loading ----

  datatype Loaded = Failed | Vars(vs: seq<Var>)

  lemma {:induction false} GetLineShrinks(s: string)
    ensures GetLine(s).Some? ==> |GetLine(s).rest| < |s|
    decreases |s|
  {
    ChunkLength(s);
    var n := |In.LineOf(s, '\n', LINE_BUFSZ - 1)|;
    if s != "" && !IsNl(s[n - 1]) {
      GetLineShrinks(s[n..]);
    }
  }

  /** session_prv_load_from_io on the decoded stream. */
  function Load(s: string): Loaded
    decreases |s|
  {
    GetLineShrinks(s);
    match GetLine(s)
    case None => Vars([])
    case Some(line, rest) =>
      if line == "" then Load(rest)
      else
        match ParseLine(line)
        case Malformed => Failed
        case Ok(v) => Push(v, Load(rest))
  }

  function Push(v: Var, l: Loaded): Loaded {
    if l.Failed? then Failed else Vars([v] + l.vs)
  }

  predicate AllStorable(vs: seq<Var>) {
    forall i :: 0 <= i < |vs| ==> Storable(vs[i])
  }

  predicate AllSavable(vs: seq<Var>) {
    forall i :: 0 <= i < |vs| ==> Savable(vs[i])
  }

  /** Loading what was saved gives back the list, up to missing values, if and
      only if every line fits into one chunk. */
  lemma {:induction false} LoadSaved(vs: seq<Var>)
    requires AllSavable(vs)
    ensures Load(Lines(vs)) == Vars(AllRestored(vs)) <==> AllStorable(vs)
    ensures Accepted(vs) == vs
  {
    if vs != [] {
      var v, tail := vs[0], vs[1..];
      LoadSaved(tail);
      LoadLine(v, Lines(tail), AllRestored(tail));
      SplitHead(vs, v, tail);
    }
  }

  lemma {:induction false} SplitHead(vs: seq<Var>, v: Var, tail: seq<Var>)
    requires vs != [] && v == vs[0] && tail == vs[1..]
    ensures vs == [v] + tail && (AllStorable(vs) <==> Storable(v) && AllStorable(tail))
  {
  }

  /** The first variable, with `rest` and the list `vs` behind it. */
  lemma {:induction false} LoadLine(v: Var, rest: string, vs: seq<Var>)
    requires Savable(v)
    ensures Load(LineOf(v) + "\n" + rest) == Vars([Restored(v)] + vs) <==> Storable(v) && Load(rest) == Vars(vs)
  {
    var line := LineOf(v);
    LineClean(v);
    GetLongLine(line, rest);
    assert Thin(line) != "";
    if Storable(v) {
      ParseSaved(v);
    } else {
      ParseThin(v);
    }
    LoadFirst(line, rest);
    var p := ParseLine(Thin(line));
    if p.Ok? && Load(rest).Vars? {
      SameHead(p.v, Restored(v), Load(rest).vs, vs);
    }
  }

  lemma {:induction false} SameHead(x: Var, y: Var, a: seq<Var>, b: seq<Var>)
    ensures [x] + a == [y] + b <==> x == y && a == b
  {
    assert ([x] + a)[0] == x && ([y] + b)[0] == y && ([x] + a)[1..] == a && ([y] + b)[1..] == b;
  }

  lemma {:induction false} LoadFirst(line: string, rest: string)
    requires line != "" && Thin(line) != "" && GetLine(line + "\n" + rest) == Some(Thin(line), rest)
    ensures Load(line + "\n" + rest)
         == if ParseLine(Thin(line)).Malformed? then Failed else Push(ParseLine(Thin(line)).v, Load(rest))
  {
  }

  function Join(ln: string, l: Line): Line {
    if l.None? then None else Some(ln + l.line, l.rest)
  }

  /** One chunk of a line, the stream being `r`. */
  lemma {:induction false} ChunkStep(r: string, ln: string, buf: string, rest: string)
    requires buf == In.LineOf(r, '\n', LINE_BUFSZ - 1) && rest == r[|buf|..]
    ensures buf == "" ==> GetLine(r) == None
    ensures buf != "" && IsNl(buf[|buf| - 1]) ==> Join(ln, GetLine(r)) == Some(ln + buf[..|buf| - 1], rest)
    ensures buf != "" && !IsNl(buf[|buf| - 1]) ==>
              Join(ln, GetLine(r)) == Join(ln + buf[..|buf| - 1], GetLine(rest)) && |rest| < |r|
  {
    ChunkLength(r);
    if buf != "" {
      assert buf[..|buf| - 1] == r[..|buf| - 1];
      var g := GetLine(rest);
      if !IsNl(buf[|buf| - 1]) && g.Some? {
        assert ln + (buf[..|buf| - 1] + g.line) == (ln + buf[..|buf| - 1]) + g.line;
      }
    }
  }

  datatype Progress = Partial | Whole | End

  /** One round of u_getline. */
  method ReadChunk<S(!new)>(io: In.Io<S>, ln: string, ghost g: Line) returns (ok: bool, ln': string, p: Progress)
    requires io.Valid() && g == Join(ln, GetLine(io.rest))
    modifies io, io.chain`cells, io.chain`ts
    ensures ok ==> io.Valid()
    ensures ok && p == End ==> g == None
    ensures ok && p == Whole ==> g == Some(ln', io.rest)
    ensures ok && p == Partial ==> g == Join(ln', GetLine(io.rest)) && |io.rest| < old(|io.rest|)
    ensures io.Reliable() ==> ok
  {
    ghost var r := io.rest;
    var buf;
    ln', p := ln, End;
    ok, buf := io.GetUntil('\n', LINE_BUFSZ);
    if !ok {
      return;
    }
    ChunkStep(r, ln, buf, io.rest);
    if |buf| > 0 {
      ln' := ln + buf[..|buf| - 1];
      p := if IsNl(buf[|buf| - 1]) then Whole else Partial;
    }
  }

  /** u_getline. */
  method ReadLine<S(!new)>(io: In.Io<S>) returns (ok: bool, got: bool, line: string)
    requires io.Valid()
    modifies io, io.chain`cells, io.chain`ts
    ensures ok ==> io.Valid()
    ensures ok ==> GetLine(old(io.rest)) == if got then Some(line, io.rest) else None
    ensures io.Reliable() ==> ok
  {
    got, line := false, "";
    ghost var g := GetLine(io.rest);
    var p := Partial;
    ok := true;
    assert g == Join(line, g);
    while p == Partial
      invariant ok && io.Valid()
      invariant p == Partial ==> g == Join(line, GetLine(io.rest))
      invariant p == Whole ==> g == Some(line, io.rest)
      invariant p == End ==> g == None
      decreases p == Partial, |io.rest|
    {
      ok, line, p := ReadChunk(io, line, g);
      if !ok {
        return;
      }
    }
    got := p == Whole;
  }

  function Append(vs: seq<Var>, l: Loaded): Loaded {
    if l.Failed? then Failed else Vars(vs + l.vs)
  }

  lemma {:induction false} LoadStep(r: string, vs: seq<Var>, got: bool, line: string, rest: string)
    requires GetLine(r) == if got then Some(line, rest) else None
    ensures !got ==> Append(vs, Load(r)) == Vars(vs)
    ensures got && line == "" ==> Load(r) == Load(rest)
    ensures got && line != "" && ParseLine(line).Malformed? ==> Load(r) == Failed
    ensures got && line != "" && ParseLine(line).Ok? ==>
              Append(vs, Load(r)) == Append(vs + [ParseLine(line).v], Load(rest))
    ensures got ==> |rest| < |r|
  {
    GetLineShrinks(r);
    if got && line != "" && ParseLine(line).Ok? && Load(rest).Vars? {
      var v, l := ParseLine(line).v, Load(rest).vs;
      assert vs + ([v] + l) == (vs + [v]) + l;
    }
  }

  /** session_prv_load_from_io, with the codecs already on the io. A read error
      (not `ok`) ends the loop as the end of the stream does, and keeps what has
      been read. */
  method LoadFrom<S(!new)>(io: In.Io<S>) returns (ok: bool, l: Loaded)
    requires io.Valid()
    modifies io, io.chain`cells, io.chain`ts
    ensures ok ==> l == Load(old(io.rest))
    ensures !ok ==> l.Vars? && exists more :: Load(old(io.rest)) == Append(l.vs, more)
    ensures io.Reliable() ==> ok
  {
    var vs: seq<Var> := [];
    ghost var all := Load(io.rest);
    ok := true;
    assert all == Append(vs, Load(io.rest));
    while true
      invariant ok && io.Valid() && all == Append(vs, Load(io.rest))
      decreases |io.rest|
    {
      var got, line;
      ghost var r := io.rest;
      ok, got, line := ReadLine(io);
      if !ok {
        return false, Vars(vs);
      }
      LoadStep(r, vs, got, line, io.rest);
      if !got {
        return true, Vars(vs);
      }
      if |line| > 0 {
        var p := ParseLine(line);
        if p.Malformed? {
          return true, Failed;
        }
        vs := vs + [p.v];
      }
    }
  }

  // ---- saving ----

  /** session_prv_save_var: `ok` unless the io failed; `written` unless the
      variable is refused. */
  method SaveVar<S(!new)>(io: Out.Io<S>, v: Var) returns (ok: bool, written: bool)
    requires io.Valid() && InBytes(v)
    modifies io`sink, io`wbuf, io`wcount, io`staged, io`cur, io.chain`cells, io.chain`ts
    ensures ok ==> io.Valid() && (written <==> v.name != "" && v.value != Bytes(""))
    ensures ok && written ==> io.wbuf != [] && io.cur == old(io.cur) + LineOf(v) + "\n"
    ensures ok && !written ==> io.cur == old(io.cur) && io.wbuf == old(io.wbuf)
    ensures |io.chain.cells| == old(|io.chain.cells|)
    ensures io.Reliable() ==> ok
  {
    var uname := EncodeBuffer(v.name);
    EncodeClean(v.name);
    ok, written := true, false;
    if |uname| == 0 {
      return;
    }
    var uvalue := "";
    if v.value.Bytes? {
      uvalue := EncodeBuffer(v.value.data);
      EncodeClean(v.value.data);
      if |uvalue| == 0 {
        return;
      }
    }
    written := true;
    Glue(io.cur, uname + "=" + uvalue, "");
    ok := io.Write(uname + "=" + uvalue + "\n");
  }

  lemma {:induction false} LinesAppend(vs: seq<Var>, v: Var)
    requires AllInBytes(vs) && InBytes(v)
    ensures AllInBytes(vs + [v]) && Lines(vs + [v]) == Lines(vs) + LineOf(v) + "\n"
  {
    var ws := vs + [v];
    assert AllInBytes(ws);
    if vs == [] {
      assert ws[0] == v && ws[1..] == [];
      Glue("", "", LineOf(v));
    } else {
      assert ws[0] == vs[0] && ws[1..] == vs[1..] + [v];
      LinesAppend(vs[1..], v);
      Glue(LineOf(vs[0]) + "\n", Lines(vs[1..]), LineOf(v));
    }
  }

  lemma {:induction false} Glue(a: string, b: string, c: string)
    ensures a + (b + c + "\n") == (a + b) + c + "\n"
    ensures "" + c == c && c + "\n" + "" == c + "\n" && b + "" == b
  {
  }

  /** How far vars_foreach has got: `i` variables written. */
  predicate SavedUpTo(vs: seq<Var>, i: nat, text: string)
    requires AllInBytes(vs)
  {
    && i <= |Accepted(vs)| && i <= |vs| && Accepted(vs)[..i] == vs[..i]
    && AllInBytes(vs[..i]) && text == Lines(vs[..i])
  }

  lemma {:induction false} AcceptedNext(vs: seq<Var>, i: nat)
    requires i <= |Accepted(vs)| && i < |vs| && Accepted(vs)[..i] == vs[..i]
    ensures if Refused(vs[i]) then |Accepted(vs)| == i
            else i < |Accepted(vs)| && Accepted(vs)[..i + 1] == vs[..i + 1]
  {
    if i > 0 {
      var a, tail := Accepted(vs), vs[1..];
      assert a[1..] == Accepted(tail);
      assert Accepted(tail)[..i - 1] == a[..i][1..] == vs[..i][1..] == tail[..i - 1];
      AcceptedNext(tail, i - 1);
      assert tail[i - 1] == vs[i];
      if !Refused(vs[i]) {
        assert a[..i + 1] == [a[0]] + a[1..][..i] && vs[..i + 1] == [vs[0]] + tail[..i];
      }
    }
  }

  lemma {:induction false} AcceptedLength(vs: seq<Var>)
    ensures |Accepted(vs)| <= |vs|
  {
    if vs != [] {
      AcceptedLength(vs[1..]);
    }
  }

  lemma {:induction false} SavedNext(vs: seq<Var>, i: nat, text: string)
    requires AllInBytes(vs) && SavedUpTo(vs, i, text) && i < |vs|
    ensures if Refused(vs[i]) then AllInBytes(Accepted(vs)) && text == Lines(Accepted(vs)) && |Accepted(vs)| == i
            else SavedUpTo(vs, i + 1, text + LineOf(vs[i]) + "\n")
  {
    AcceptedNext(vs, i);
    if Refused(vs[i]) {
      assert Accepted(vs)[..i] == Accepted(vs);
    } else {
      assert vs[..i + 1] == vs[..i] + [vs[i]];
      LinesAppend(vs[..i], vs[i]);
    }
  }

  /** vars_foreach with session_prv_save_var: it stops at the first variable
      that is refused. */
  method SaveAll<S(!new)>(io: Out.Io<S>, vs: seq<Var>) returns (ok: bool)
    requires io.Valid() && io.cur == "" && AllInBytes(vs)
    modifies io`sink, io`wbuf, io`wcount, io`staged, io`cur, io.chain`cells, io.chain`ts
    ensures ok ==> io.Valid() && io.cur == Lines(Accepted(vs))
    ensures ok ==> if Accepted(vs) == [] then io.wbuf == old(io.wbuf) else io.wbuf != []
    ensures |io.chain.cells| == old(|io.chain.cells|)
    ensures io.Reliable() ==> ok
  {
    ok := true;
    AcceptedLength(vs);
    for i := 0 to |vs|
      invariant ok && io.Valid() && SavedUpTo(vs, i, io.cur)
      invariant if i == 0 then io.wbuf == old(io.wbuf) else io.wbuf != []
      invariant |io.chain.cells| == old(|io.chain.cells|)
    {
      SavedNext(vs, i, io.cur);
      var written;
      ok, written := SaveVar(io, vs[i]);
      if !ok || !written {
        return;
      }
    }
    assert vs[..|vs|] == vs && Accepted(vs)[..|vs|] == Accepted(vs);
  }

  /** session_prv_save_to_io followed by the flush of io_free. */
  method SaveTo<S(!new)>(io: Out.Io<S>, vs: seq<Var>) returns (ok: bool)
    requires io.Valid() && io.wbuf == [] && io.sink == io.past == "" && AllInBytes(vs)
    modifies io, io.chain
    ensures ok ==> io.sink == if old(io.chain.cells) == [] then Lines(Accepted(vs))
                              else if Accepted(vs) == [] then "" else Compose(old(io.chain.ms), 0, Lines(Accepted(vs)))
    ensures old(io.Reliable()) ==> ok
  {
    ok := SaveAll(io, vs);
    if ok {
      ok := io.RemoveCodecs();
    }
    if ok {
      ok := io.Flush();
    }
  }

  method Store<S(!new)>(save: Chain<S>, vs: seq<Var>) returns (ok: bool, stored: string)
    requires save.Fresh() && AllInBytes(vs)
    modifies save
    ensures ok ==> stored == if old(save.cells) == [] then Lines(Accepted(vs))
                             else if Accepted(vs) == [] then "" else Compose(old(save.ms), 0, Lines(Accepted(vs)))
    ensures old(save.Reliable()) ==> ok
  {
    var io := new Out.Io(save, true);
    ok := SaveTo(io, vs);
    stored := io.sink;
  }

  method Restore<T(!new)>(load: Chain<T>, stored: string) returns (ok: bool, l: Loaded)
    requires load.Fresh() && forall j :: 0 <= j < |load.ms| ==> !load.ms[j].lastOnly
    modifies load
    ensures ok ==> l == Load(Compose(old(load.ms), 0, stored))
    ensures old(load.Reliable()) ==> ok
  {
    var io := new In.Io(load, stored, true);
    ok, l := LoadFrom(io);
  }

  // ---- codecs that mirror each other ----

  /** The codecs of `load`, in reverse order, undo those of `save`. */
  ghost predicate Mirror<S(!new), T(!new)>(save: seq<Meaning<S>>, load: seq<Meaning<T>>) {
    && |load| == |save|
    && forall i, x :: 0 <= i < |save| ==> load[|load| - 1 - i].F(save[i].F(x)) == x
  }

  /** What the first `k` codecs make of `x`. */
  ghost function First<S>(ms: seq<Meaning<S>>, k: nat, x: string): string
    requires k <= |ms|
  {
    if k == 0 then x else ms[k - 1].F(First(ms, k - 1, x))
  }

  lemma {:induction false} FirstThenRest<S>(ms: seq<Meaning<S>>, k: nat, x: string)
    requires k <= |ms|
    ensures Compose(ms, k, First(ms, k, x)) == Compose(ms, 0, x)
  {
    if k > 0 {
      FirstThenRest(ms, k - 1, x);
    }
  }

  lemma {:induction false} LastUndoFirst<S(!new), T(!new)>(
      save: seq<Meaning<S>>, load: seq<Meaning<T>>, k: nat, x: string)
    requires Mirror(save, load) && k <= |save|
    ensures Compose(load, |load| - k, First(save, k, x)) == x
  {
    if k > 0 {
      LastUndoFirst(save, load, k - 1, x);
      assert load[|load| - 1 - (k - 1)].F(save[k - 1].F(First(save, k - 1, x))) == First(save, k - 1, x);
    }
  }

  /** Mirrored chains of any length undo each other. */
  lemma {:induction false} MirrorUndoes<S(!new), T(!new)>(save: seq<Meaning<S>>, load: seq<Meaning<T>>, x: string)
    requires Mirror(save, load)
    ensures Compose(load, 0, Compose(save, 0, x)) == x
  {
    LastUndoFirst(save, load, |save|, x);
    FirstThenRest(save, |save|, x);
  }

  /** Saving a session through one chain of codecs and loading it through its
      mirror image gives back the same variables, a missing value as a NUL byte,
      if and only if no line is longer than one chunk.
      (With no variable nothing is ever written, so that the stored file is
      empty.) */
  method SaveAndLoad<S(!new), T(!new)>(save: Chain<S>, load: Chain<T>, vs: seq<Var>) returns (ok: bool, l: Loaded)
    requires save as object != load as object
    requires save.Fresh() && load.Fresh() && (forall j :: 0 <= j < |load.ms| ==> !load.ms[j].lastOnly)
    requires AllSavable(vs) && Mirror(save.ms, load.ms)
    requires vs == [] ==> Compose(load.ms, 0, "") == ""
    modifies save, load
    ensures ok ==> (l == Vars(AllRestored(vs)) <==> AllStorable(vs))
    ensures old(save.Reliable()) && old(load.Reliable()) ==> ok
  {
    ghost var x := Lines(vs);
    MirrorUndoes(save.ms, load.ms, x);
    LoadSaved(vs);
    l := Failed;
    var stored;
    ok, stored := Store(save, vs);
    if ok {
      ok, l := Restore(load, stored);
    }
  }
}

/**
  The page parser of src/libtrans/parser.c: a character machine that splits a
  page into HTML and code blocks. It inverts the obvious printer.
 */
module PageParser {
  const BUFSZ: nat := 262144

  /** The states that are ever entered. */
  datatype State = Start | Html | WaitPerc | StartCode | Code | WaitGt

  /** A callback: HTML text, or code with its command character ('\0': none). */
  datatype Token = Text(text: string) | Script(cmd: char, code: string)

  predicate IsSpace(c: char) {
    c in {' ', '\t', '\n', '\r', '\U{0B}', '\U{0C}'}
  }

  /** parser_on_block. */
  function Emit(st: State, cmd: char, buf: string): seq<Token> {
    if buf == "" || st == Start then []
    else if st == Html || st == WaitPerc then [Text(buf)]
    else [Script(cmd, buf)]
  }

  /** A character goes into the buffer, which is handed over when full. */
  function Push(st: State, cmd: char, buf: string, c: char, rest: string): seq<Token>
    decreases |rest|, 1
  {
    if |buf| + 1 == BUFSZ - 1 then Emit(st, cmd, buf + [c]) + Parse(st, cmd, "", rest)
    else Parse(st, cmd, buf + [c], rest)
  }

  /** All callbacks made from a given state on. */
  function Parse(st: State, cmd: char, buf: string, s: string): seq<Token>
    decreases |s|, 0
  {
    if s == "" then Emit(st, cmd, buf)
    else
      var c, rest := s[0], s[1..];
      match st
      case Start | Html =>
        Push(if c == '<' then WaitPerc else Html, cmd, buf, c, rest)
      case WaitPerc =>
        if c == '%' then Emit(st, cmd, Chop(buf)) + Parse(StartCode, cmd, "", rest)
        else Push(if c == '<' then WaitPerc else Html, cmd, buf, c, rest)
      case StartCode =>
        if IsSpace(c) then Push(Code, '\0', buf, c, rest) else Parse(Code, c, buf, rest)
      case Code =>
        Push(if c == '%' then WaitGt else Code, cmd, buf, c, rest)
      case WaitGt =>
        if c == '>' then Emit(st, cmd, Chop(buf)) + Parse(Html, '\0', "", rest)
        else Push(if c == '%' then WaitGt else Code, cmd, buf, c, rest)
  }

  function Chop(buf: string): string {
    if buf == "" then "" else buf[..|buf| - 1]
  }

  /** Going back to the plain state without taking a character. */
  function Rank(st: State): nat {
    if st == Html || st == Code then 0 else 1
  }

  /** parser_run. */
  method Run(input: string) returns (out: seq<Token>)
    ensures out == Parse(Start, '\0', "", input)
  {
    var st, cmd, buf, pos := Start, '\0', "", 0;
    ghost var all := Parse(Start, '\0', "", input);
    out := [];
    assert input[0..] == input;
    while pos < |input|
      invariant 0 <= pos <= |input|
      invariant out + Parse(st, cmd, buf, input[pos..]) == all
      decreases |input| - pos, Rank(st)
    {
      var c := input[pos];
      assert input[pos..][0] == c && input[pos..][1..] == input[pos + 1..];
      match st {
      case Start =>
        st := Html;
        continue;
      case Html =>
        if c == '<' {
          st := WaitPerc;
        }
      case WaitPerc =>
        if c == '%' {
          Assoc(out, Emit(st, cmd, Chop(buf)), Parse(StartCode, cmd, "", input[pos + 1..]));
          out := out + Emit(st, cmd, Chop(buf));
          st, buf, pos := StartCode, "", pos + 1;
          continue;
        } else {
          st := Html;
          continue;
        }
      case StartCode =>
        if IsSpace(c) {
          cmd := '\0';
        } else {
          cmd, pos := c, pos + 1;
        }
        st := Code;
        continue;
      case Code =>
        if c == '%' {
          st := WaitGt;
        }
      case WaitGt =>
        if c == '>' {
          Assoc(out, Emit(st, cmd, Chop(buf)), Parse(Html, '\0', "", input[pos + 1..]));
          out := out + Emit(st, cmd, Chop(buf));
          st, cmd, buf, pos := Html, '\0', "", pos + 1;
          continue;
        } else {
          st := Code;
          continue;
        }
      }
      assert out + Push(st, cmd, buf, c, input[pos + 1..]) == all;
      buf := buf + [c];
      pos := pos + 1;
      if |buf| == BUFSZ - 1 {
        Assoc(out, Emit(st, cmd, buf), Parse(st, cmd, "", input[pos..]));
        out := out + Emit(st, cmd, buf);
        buf := "";
      }
    }
    out := out + Emit(st, cmd, buf);
  }

  lemma {:induction false} Assoc(a: seq<Token>, b: seq<Token>, c: seq<Token>)
    ensures a + (b + c) == (a + b) + c
  {
  }

  // ---- the printer and its inversion ----

  function Print1(t: Token): string {
    match t
    case Text(x) => x
    case Script(cmd, x) => "<%" + (if cmd == '\0' then "" else [cmd]) + x + "%>"
  }

  function Print(ts: seq<Token>): string {
    if ts == [] then "" else Print1(ts[0]) + Print(ts[1..])
  }

  predicate Free(x: string, a: char, b: char) {
    forall i :: 0 <= i < |x| - 1 ==> !(x[i] == a && x[i + 1] == b)
  }

  /** A token the printer can show unambiguously. */
  predicate Clear(t: Token) {
    match t
    case Text(x) => x != "" && Free(x, '<', '%')
    case Script(cmd, x) =>
      x != "" && Free(x, '%', '>') && if cmd == '\0' then IsSpace(x[0]) else !IsSpace(cmd)
  }

  /** Clear tokens, and no two texts in a row. */
  predicate Page(ts: seq<Token>) {
    ts == [] ||
    (Clear(ts[0]) && (ts[0].Text? && |ts| > 1 ==> ts[1].Script?) && Page(ts[1..]))
  }

  /** Lengths that leave room for the mark behind the block, or fill the buffer
      to the byte. */
  predicate Holds(n: nat) {
    n + 2 < BUFSZ || n == BUFSZ - 1
  }

  /** A token the buffer can hold; text at the end of a page has no mark behind
      it. */
  predicate Fits(t: Token, last: bool) {
    match t
    case Text(x) => Holds(|x|) || (last && |x| == BUFSZ - 2)
    case Script(_, x) => Holds(|x|)
  }

  predicate AllFit(ts: seq<Token>) {
    ts == [] || (Fits(ts[0], |ts| == 1) && AllFit(ts[1..]))
  }

  /** The state after reading text that ends in `c`. */
  function After(open: char, wait: State, plain: State, c: char): State {
    if c == open then wait else plain
  }

  /** HTML without "<%" is only buffered. */
  lemma {:induction false} ReadText(st: State, cmd: char, buf: string, x: string, rest: string)
    requires st == Html || st == WaitPerc || (st == Start && buf == "")
    requires x != "" && Free(x, '<', '%') && (st == WaitPerc ==> x[0] != '%') && |buf| + |x| + 1 < BUFSZ
    ensures Parse(st, cmd, buf, x + rest)
         == Parse(After('<', WaitPerc, Html, x[|x| - 1]), cmd, buf + x, rest)
    decreases |x|
  {
    var c, st' := x[0], After('<', WaitPerc, Html, x[0]);
    assert (x + rest)[0] == c && (x + rest)[1..] == x[1..] + rest;
    assert Parse(st, cmd, buf, x + rest) == Parse(st', cmd, buf + [c], x[1..] + rest);
    if |x| > 1 {
      ReadText(st', cmd, buf + [c], x[1..], rest);
      assert buf + [c] + x[1..] == buf + x;
    } else {
      assert x[1..] + rest == rest && buf + [c] == buf + x;
    }
  }

  /** Code without "%>" is only buffered. */
  lemma {:induction false} ReadCode(st: State, cmd: char, buf: string, x: string, rest: string)
    requires st == Code || st == WaitGt
    requires x != "" && Free(x, '%', '>') && (st == WaitGt ==> x[0] != '>') && |buf| + |x| + 1 < BUFSZ
    ensures Parse(st, cmd, buf, x + rest)
         == Parse(After('%', WaitGt, Code, x[|x| - 1]), cmd, buf + x, rest)
    decreases |x|
  {
    var c, st' := x[0], After('%', WaitGt, Code, x[0]);
    assert (x + rest)[0] == c && (x + rest)[1..] == x[1..] + rest;
    assert Parse(st, cmd, buf, x + rest) == Parse(st', cmd, buf + [c], x[1..] + rest);
    if |x| > 1 {
      ReadCode(st', cmd, buf + [c], x[1..], rest);
      assert buf + [c] + x[1..] == buf + x;
    } else {
      assert x[1..] + rest == rest && buf + [c] == buf + x;
    }
  }

  /** "<%" ends the text before it. */
  lemma {:induction false} OpenCode(st: State, cmd: char, buf: string, rest: string)
    requires (st == Html || st == WaitPerc || (st == Start && buf == "")) && |buf| + 2 < BUFSZ
    ensures Parse(st, cmd, buf, "<%" + rest) == Emit(Html, cmd, buf) + Parse(StartCode, cmd, "", rest)
  {
    var s := "<%" + rest;
    assert s[0] == '<' && s[1..] == "%" + rest && ("%" + rest)[1..] == rest;
    assert Parse(st, cmd, buf, s) == Parse(WaitPerc, cmd, buf + "<", "%" + rest);
    assert Chop(buf + "<") == buf;
  }

  /** "%>" ends the code before it. */
  lemma {:induction false} CloseCode(st: State, cmd: char, buf: string, rest: string)
    requires (st == Code || st == WaitGt) && |buf| + 2 < BUFSZ
    ensures Parse(st, cmd, buf, "%>" + rest) == Emit(Code, cmd, buf) + Parse(Html, '\0', "", rest)
  {
    var s := "%>" + rest;
    assert s[0] == '%' && s[1..] == ">" + rest && (">" + rest)[1..] == rest;
    assert Parse(st, cmd, buf, s) == Parse(WaitGt, cmd, buf + "%", ">" + rest);
    assert Chop(buf + "%") == buf;
  }

  /** The command character, or a blank that is part of the code. */
  lemma {:induction false} ReadCommand(cmd0: char, cmd: char, tail: string)
    requires tail != "" && if cmd == '\0' then IsSpace(tail[0]) else !IsSpace(cmd)
    ensures Parse(StartCode, cmd0, "", (if cmd == '\0' then "" else [cmd]) + tail) == Parse(Code, cmd, "", tail)
  {
    var body := (if cmd == '\0' then "" else [cmd]) + tail;
    if cmd == '\0' {
      assert body == tail;
      assert Parse(Code, cmd, "", tail) == Push(Code, cmd, "", body[0], body[1..]);
    } else {
      assert body[0] == cmd && body[1..] == tail;
    }
  }

  /** Text, and code behind it, on the bytes: what stands between "<%" and "%>"
      is code. Its first byte is the command, unless it is one of the six blanks,
      which are part of the code. Nothing is called for an empty block. */
  lemma {:induction false} ReadBlock(x: string, c: char, y: string, rest: string)
    requires Free(x, '<', '%') && Free(y, '%', '>') && |x| + 2 < BUFSZ && |y| + 3 < BUFSZ
    ensures var blank := c == ' ' || c == '\t' || c == '\n' || c == '\r' || c as int == 11 || c as int == 12;
            Parse(Start, '\0', "", x + ("<%" + ([c] + (y + ("%>" + rest)))))
            == (if x == "" then [] else [Text(x)])
               + ((if blank then [Script('\0', [c] + y)] else if y == "" then [] else [Script(c, y)])
                  + Parse(Html, '\0', "", rest))
  {
    var mark := "%>" + rest;
    var code := [c] + (y + mark);
    ReadUpTo(x, code);
    assert code[0] == c && code[1..] == y + mark;
    if IsSpace(c) {
      assert code == ([c] + y) + mark;
      FreeBehind(c, y);
      ReadCommand('\0', '\0', code);
      assert "" + code == code;
      CodeFits('\0', [c] + y, rest);
    } else if y == "" {
      assert y + mark == mark;
      CloseCode(Code, c, "", rest);
    } else {
      CodeFits(c, y, rest);
    }
  }

  lemma {:induction false} FreeBehind(c: char, y: string)
    requires IsSpace(c) && Free(y, '%', '>')
    ensures Free([c] + y, '%', '>')
  {
    var z := [c] + y;
    forall i | 0 <= i < |z| - 1 ensures !(z[i] == '%' && z[i + 1] == '>') {
      assert i > 0 ==> z[i] == y[i - 1] && z[i + 1] == y[i - 1 + 1];
    }
  }

  /** Text up to the mark of a code block. */
  lemma {:induction false} ReadUpTo(x: string, code: string)
    requires Free(x, '<', '%') && |x| + 2 < BUFSZ
    ensures Parse(Start, '\0', "", x + ("<%" + code))
         == (if x == "" then [] else [Text(x)]) + Parse(StartCode, '\0', "", code)
  {
    var s := "<%" + code;
    if x == "" {
      assert x + s == s;
      OpenCode(Start, '\0', "", code);
    } else {
      ReadText(Start, '\0', "", x, s);
      assert "" + x == x;
      OpenCode(After('<', WaitPerc, Html, x[|x| - 1]), '\0', x, code);
    }
  }

  // ---- a block that fills the buffer ----

  /** The character that fills the buffer, in text and in code. */
  lemma {:induction false} LastByte(st: State, cmd: char, buf: string, c: char, rest: string)
    requires |buf| == BUFSZ - 2 && st != Start && st != StartCode
    requires (st == WaitPerc ==> c != '%') && (st == WaitGt ==> c != '>')
    ensures var st' := if st == Html || st == WaitPerc then After('<', WaitPerc, Html, c)
                      else After('%', WaitGt, Code, c);
            Parse(st, cmd, buf, [c] + rest) == Emit(st', cmd, buf + [c]) + Parse(st', cmd, "", rest)
  {
    var s := [c] + rest;
    assert s[0] == c && s[1..] == rest;
  }

  /** A block of at least the size of the buffer, cut there. */
  lemma {:induction false} CutAt(x: string, n: nat, rest: string)
    requires n < |x|
    ensures x + rest == x[..n] + ([x[n]] + (x[n + 1..] + rest)) && x[..n] + [x[n]] == x[..n + 1]
  {
  }

  lemma {:induction false} FreePart(x: string, n: nat, a: char, b: char)
    requires 0 < n < |x| && Free(x, a, b)
    ensures Free(x[..n], a, b) && x[..n][n - 1] == x[n - 1] && !(x[n - 1] == a && x[n] == b)
  {
    assert x[n] == x[n - 1 + 1];
  }

  lemma {:induction false} FillText(st: State, x: string, rest: string)
    requires (st == Start || st == Html) && |x| >= BUFSZ - 1 && Free(x, '<', '%')
    ensures var y, z := x[..BUFSZ - 1], x[BUFSZ - 1..];
            Parse(st, '\0', "", x + rest)
            == [Text(y)] + Parse(After('<', WaitPerc, Html, x[BUFSZ - 2]), '\0', "", z + rest)
  {
    var n := BUFSZ - 2;
    var y, c, r := x[..n], x[n], x[n + 1..] + rest;
    CutAt(x, n, rest);
    FreePart(x, n, '<', '%');
    ReadText(st, '\0', "", y, [c] + r);
    assert "" + y == y;
    LastByte(After('<', WaitPerc, Html, x[n - 1]), '\0', y, c, r);
  }

  lemma {:induction false} FillCode(cmd: char, x: string, rest: string)
    requires |x| >= BUFSZ - 1 && Free(x, '%', '>')
    ensures var y, z := x[..BUFSZ - 1], x[BUFSZ - 1..];
            Parse(Code, cmd, "", x + rest)
            == [Script(cmd, y)] + Parse(After('%', WaitGt, Code, x[BUFSZ - 2]), cmd, "", z + rest)
  {
    var n := BUFSZ - 2;
    var y, c, r := x[..n], x[n], x[n + 1..] + rest;
    CutAt(x, n, rest);
    FreePart(x, n, '%', '>');
    ReadCode(Code, cmd, "", y, [c] + r);
    assert "" + y == y;
    LastByte(After('%', WaitGt, Code, x[n - 1]), cmd, y, c, r);
  }

  // ---- text ----

  /** What may follow a text: nothing, or a code block. */
  predicate Follows(rest: string) {
    rest == "" || (|rest| >= 2 && rest[..2] == "<%")
  }

  /** What follows is read alike whether or not a '<' was the last byte handed
      over. */
  lemma {:induction false} Afresh(st: State, rest: string)
    requires (st == Html || st == WaitPerc) && Follows(rest)
    ensures Parse(st, '\0', "", rest) == Parse(Html, '\0', "", rest)
  {
    if rest != "" {
      assert rest == "<%" + rest[2..];
      OpenCode(st, '\0', "", rest[2..]);
      OpenCode(Html, '\0', "", rest[2..]);
    }
  }

  lemma {:induction false} TextFits(st: State, x: string, rest: string)
    requires (st == Start || st == Html) && Clear(Text(x)) && Fits(Text(x), rest == "") && Follows(rest)
    ensures Parse(st, '\0', "", x + rest) == [Text(x)] + Parse(Html, '\0', "", rest)
  {
    if |x| == BUFSZ - 1 {
      FillText(st, x, rest);
      assert x[..BUFSZ - 1] == x && x[BUFSZ - 1..] + rest == rest;
      Afresh(After('<', WaitPerc, Html, x[BUFSZ - 2]), rest);
    } else {
      ReadText(st, '\0', "", x, rest);
      assert "" + x == x;
      TextEnds(After('<', WaitPerc, Html, x[|x| - 1]), x, rest);
    }
  }

  lemma {:induction false} TextEnds(st: State, x: string, rest: string)
    requires (st == Html || st == WaitPerc) && x != "" && Follows(rest) && (|x| + 2 < BUFSZ || rest == "")
    ensures Parse(st, '\0', x, rest) == [Text(x)] + Parse(Html, '\0', "", rest)
  {
    if rest != "" {
      assert rest == "<%" + rest[2..];
      OpenCode(st, '\0', x, rest[2..]);
      OpenCode(Html, '\0', "", rest[2..]);
    }
  }

  lemma {:induction false} TextFails(st: State, x: string, rest: string)
    requires (st == Start || st == Html) && Clear(Text(x)) && !Fits(Text(x), rest == "") && Follows(rest)
    ensures var r := Parse(st, '\0', "", x + rest);
            r != [] && r[0] != Text(x)
  {
    if |x| >= BUFSZ {
      FillText(st, x, rest);
    } else {
      ReadText(st, '\0', "", x, rest);
      assert "" + x == x && rest == ['<'] + rest[1..];
      LastByte(After('<', WaitPerc, Html, x[|x| - 1]), '\0', x, '<', rest[1..]);
    }
  }

  // ---- code ----

  /** "<%" and the command character. */
  lemma {:induction false} OpenScript(st: State, t: Token, rest: string)
    requires (st == Start || st == Html) && t.Script? && Clear(t)
    ensures Parse(st, '\0', "", Print1(t) + rest) == Parse(Code, t.cmd, "", t.code + ("%>" + rest))
  {
    var cmd, tail := t.cmd, t.code + ("%>" + rest);
    var body := (if cmd == '\0' then "" else [cmd]) + tail;
    assert Print1(t) + rest == "<%" + body;
    OpenCode(st, '\0', "", body);
    assert tail[0] == t.code[0];
    ReadCommand('\0', cmd, tail);
  }

  lemma {:induction false} CodeFits(cmd: char, x: string, rest: string)
    requires x != "" && Free(x, '%', '>') && Holds(|x|)
    ensures Parse(Code, cmd, "", x + ("%>" + rest)) == [Script(cmd, x)] + Parse(Html, '\0', "", rest)
  {
    var mark := "%>" + rest;
    if |x| == BUFSZ - 1 {
      FillCode(cmd, x, mark);
      assert x[..BUFSZ - 1] == x && x[BUFSZ - 1..] + mark == mark;
      CloseCode(After('%', WaitGt, Code, x[BUFSZ - 2]), cmd, "", rest);
    } else {
      ReadCode(Code, cmd, "", x, mark);
      assert "" + x == x;
      CloseCode(After('%', WaitGt, Code, x[|x| - 1]), cmd, x, rest);
    }
  }

  lemma {:induction false} CodeFails(cmd: char, x: string, rest: string)
    requires x != "" && Free(x, '%', '>') && !Holds(|x|)
    ensures var r := Parse(Code, cmd, "", x + ("%>" + rest));
            r != [] && r[0] != Script(cmd, x)
  {
    var mark := "%>" + rest;
    if |x| >= BUFSZ {
      FillCode(cmd, x, mark);
    } else {
      ReadCode(Code, cmd, "", x, mark);
      assert "" + x == x && mark == ['%'] + (">" + rest);
      LastByte(After('%', WaitGt, Code, x[|x| - 1]), cmd, x, '%', ">" + rest);
    }
  }

  // ---- pages ----

  lemma {:induction false} PageFollows(ts: seq<Token>)
    requires ts == [] || ts[0].Script?
    ensures Follows(Print(ts)) && (Print(ts) == "" <==> ts == [])
  {
    if ts != [] {
      assert Print1(ts[0])[..2] == "<%";
      assert Print(ts)[..2] == Print1(ts[0])[..2];
    }
  }

  /** The first token comes back exactly when it fits, and then the rest is
      parsed as a page of its own. */
  lemma {:induction false} FirstToken(st: State, ts: seq<Token>)
    requires Page(ts) && ts != [] && (st == Start || st == Html)
    ensures var r := Parse(st, '\0', "", Print(ts));
            if Fits(ts[0], |ts| == 1) then r == [ts[0]] + Parse(Html, '\0', "", Print(ts[1..]))
            else r != [] && r[0] != ts[0]
  {
    var t, rest := ts[0], Print(ts[1..]);
    match t
    case Text(x) =>
      assert |ts| > 1 ==> ts[1..][0] == ts[1];
      PageFollows(ts[1..]);
      if Fits(t, |ts| == 1) {
        TextFits(st, x, rest);
      } else {
        TextFails(st, x, rest);
      }
    case Script(cmd, x) =>
      OpenScript(st, t, rest);
      if Fits(t, |ts| == 1) {
        CodeFits(cmd, x, rest);
      } else {
        CodeFails(cmd, x, rest);
      }
  }

  /** Parsing inverts printing if and only if every block has a length that the
      buffer can hold. */
  lemma {:induction false} ParsePrint(st: State, ts: seq<Token>)
    requires Page(ts) && (st == Start || st == Html)
    ensures Parse(st, '\0', "", Print(ts)) == ts <==> AllFit(ts)
    decreases |ts|
  {
    if ts != [] {
      var t, tail := ts[0], ts[1..];
      var page, rest := Print(ts), Print(tail);
      FirstToken(st, ts);
      if Fits(t, |ts| == 1) {
        ParsePrint(Html, tail);
        SameHead(t, Parse(Html, '\0', "", rest), tail);
        assert ts == [t] + tail;
        assert Parse(st, '\0', "", page) == ts <==> Parse(Html, '\0', "", rest) == tail;
      } else {
        assert Parse(st, '\0', "", page) != ts;
      }
    }
  }

  lemma {:induction false} SameHead(t: Token, a: seq<Token>, b: seq<Token>)
    ensures [t] + a == [t] + b <==> a == b
  {
    assert ([t] + a)[1..] == a && ([t] + b)[1..] == b;
  }
}

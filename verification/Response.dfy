/**
  Printing a response header and sizing the buffer for it
  (src/libpage/response.c), and the bounded in-memory device it is printed to
  (src/libio/iomem.c).
 */
module ResponseHeader {
  import opened Wrappers
  import opened Codec
  import opened UrlCoding

  datatype Field = Field(name: string, value: string)

  /** `desc` is the text http_get_status_desc gives for `status`; `head` says
      that the method is HEAD. */
  datatype Response = Response(status: int, desc: string, cgi: bool, head: bool, fields: seq<Field>)

  /** An int as printf("%d") shows it. */
  function Digits(n: nat): string {
    if n < 10 then ['0' + n as char] else Digits(n / 10) + ['0' + (n % 10) as char]
  }

  function Decimal(n: int): string {
    if n < 0 then "-" + Digits(-n) else Digits(n)
  }

  function StatusLine(rs: Response): string {
    "HTTP/1.0 " + Decimal(rs.status) + " " + rs.desc + "\r\n"
  }

  function FieldLine(f: Field): string {
    f.name + ": " + f.value + "\r\n"
  }

  function FieldLines(fs: seq<Field>): string {
    if fs == [] then "" else FieldLines(fs[..|fs| - 1]) + FieldLine(fs[|fs| - 1])
  }

  /** The whole printed header. */
  function HeaderText(rs: Response): string {
    (if rs.cgi then "" else StatusLine(rs)) + FieldLines(rs.fields) + "\r\n"
  }

  /** response_print_header_to_io. */
  method PrintHeader(rs: Response) returns (text: string)
    ensures text == HeaderText(rs)
  {
    text := "";
    if !rs.cgi {
      text := text + StatusLine(rs);
    }
    ghost var line := text;
    for i := 0 to |rs.fields|
      invariant text == line + FieldLines(rs.fields[..i])
    {
      assert rs.fields[..i + 1][..i] == rs.fields[..i];
      Assoc(line, FieldLines(rs.fields[..i]), FieldLine(rs.fields[i]));
      text := text + FieldLine(rs.fields[i]);
    }
    assert rs.fields[..|rs.fields|] == rs.fields;
    text := text + "\r\n";
  }

  // ---- what a client reads ----

  /** Where the mark `a`, `b` first stands in `s`, or the length. */
  function FirstMark(s: string, a: char, b: char): (n: nat)
    ensures n <= |s|
  {
    if |s| < 2 then |s| else if s[0] == a && s[1] == b then 0 else 1 + FirstMark(s[1..], a, b)
  }

  /** The fields up to the empty line, each line cut at its first ": ", and the
      body behind it. */
  function ReadFields(s: string): Option<(seq<Field>, string)>
    decreases |s|
  {
    var n := FirstMark(s, '\r', '\n');
    if n + 2 > |s| then None
    else if n == 0 then Some(([], s[2..]))
    else
      var line := s[..n];
      var k := FirstMark(line, ':', ' ');
      var rest := ReadFields(s[n + 2..]);
      if k + 2 > n || rest.None? then None
      else Some(([Field(line[..k], line[k + 2..])] + rest.value.0, rest.value.1))
  }

  function ReadDigits(s: string): int {
    if s == "" then 0 else 10 * ReadDigits(s[..|s| - 1]) + (s[|s| - 1] as int - '0' as int)
  }

  function ReadDecimal(s: string): int {
    if s != "" && s[0] == '-' then -ReadDigits(s[1..]) else ReadDigits(s)
  }

  datatype Reading = Unreadable | Reading(status: int, desc: string, fields: seq<Field>, body: string)

  /** A whole answer: the number and the text of its first line, and the rest. */
  function ReadResponse(s: string): Reading {
    var n := FirstMark(s, '\r', '\n');
    if n + 2 > |s| || n < 9 || s[..9] != "HTTP/1.0 " then Unreadable
    else
      var number := Until(s[9..n], ' ');
      var rest := ReadFields(s[n + 2..]);
      if |number| == n - 9 || rest.None? then Unreadable
      else Reading(ReadDecimal(number), s[9 + |number| + 1..n], rest.value.0, rest.value.1)
  }

  /** No name holds a colon, and nothing a carriage return. */
  predicate Clean(f: Field) {
    ':' !in f.name && '\r' !in f.name && '\r' !in f.value
  }

  lemma {:induction false} FirstMarkAt(x: string, a: char, b: char, rest: string)
    requires a !in x
    ensures FirstMark(x + ([a, b] + rest), a, b) == |x|
  {
    var s := x + ([a, b] + rest);
    if x == "" {
      assert s[0] == a && s[1] == b;
    } else {
      assert s[0] == x[0] && x[0] in x && s[1..] == x[1..] + ([a, b] + rest);
      FirstMarkAt(x[1..], a, b, rest);
    }
  }

  lemma {:induction false} FieldLinesFirst(fs: seq<Field>)
    requires fs != []
    ensures FieldLines(fs) == FieldLine(fs[0]) + FieldLines(fs[1..])
  {
    var n := |fs| - 1;
    if n == 0 {
      assert fs[..0] == [] && fs[1..] == [];
    } else {
      FieldLinesFirst(fs[..n]);
      assert fs[..n][1..] == fs[1..][..n - 1] && fs[1..][n - 1] == fs[n];
      Assoc(FieldLine(fs[0]), FieldLines(fs[1..][..n - 1]), FieldLine(fs[n]));
    }
  }

  /** One line of a field. */
  lemma {:induction false} ReadLine(f: Field, tail: string)
    requires Clean(f)
    ensures var line, s := f.name + ": " + f.value, FieldLine(f) + tail;
            && FirstMark(s, '\r', '\n') == |line| && s[..|line|] == line && s[|line| + 2..] == tail
            && FirstMark(line, ':', ' ') == |f.name| && line[..|f.name|] == f.name && line[|f.name| + 2..] == f.value
  {
    var line := f.name + ": " + f.value;
    FirstMarkAt(f.name, ':', ' ', f.value);
    assert line == f.name + ([':', ' '] + f.value);
    FirstMarkAt(line, '\r', '\n', tail);
    assert FieldLine(f) + tail == line + (['\r', '\n'] + tail);
  }

  /** The fields come back in order, with what is read behind them. */
  lemma {:induction false} FieldsReadBack(fs: seq<Field>, mark: string, body: string)
    requires ReadFields(mark) == Some(([], body)) && forall i :: 0 <= i < |fs| ==> Clean(fs[i])
    ensures ReadFields(FieldLines(fs) + mark) == Some((fs, body))
    decreases |fs|
  {
    if fs == [] {
      assert FieldLines(fs) + mark == mark;
    } else {
      FieldsReadBack(fs[1..], mark, body);
      FieldLinesFirst(fs);
      Assoc(FieldLine(fs[0]), FieldLines(fs[1..]), mark);
      ReadFirst(fs[0], FieldLines(fs[1..]) + mark, fs[1..], body);
      assert fs == [fs[0]] + fs[1..];
    }
  }

  lemma {:induction false} ReadEmptyLine(body: string)
    ensures ReadFields("\r\n" + body) == Some(([], body))
  {
    var s := "\r\n" + body;
    assert s[0] == '\r' && s[1] == '\n' && s[2..] == body;
  }

  lemma {:induction false} ReadFirst(f: Field, tail: string, fs: seq<Field>, body: string)
    requires Clean(f) && ReadFields(tail) == Some((fs, body))
    ensures ReadFields(FieldLine(f) + tail) == Some(([f] + fs, body))
  {
    ReadLine(f, tail);
  }

  lemma {:induction false} DigitsRead(n: nat)
    ensures ReadDigits(Digits(n)) == n && Digits(n) != ""
    ensures forall i :: 0 <= i < |Digits(n)| ==> '0' <= Digits(n)[i] <= '9'
  {
    var d := Digits(n);
    if n < 10 {
      assert d[..0] == "" && d[0] == '0' + n as char;
    } else {
      DigitsRead(n / 10);
      assert d[..|d| - 1] == Digits(n / 10) && d[|d| - 1] == '0' + (n % 10) as char;
    }
  }

  /** A printed number, read in base ten, is the number. */
  lemma {:induction false} DecimalRead(n: int)
    ensures ReadDecimal(Decimal(n)) == n && ' ' !in Decimal(n) && '\r' !in Decimal(n)
  {
    DigitsRead(if n < 0 then -n else n);
    if n < 0 {
      assert Decimal(n)[1..] == Digits(-n);
    }
  }

  lemma {:induction false} StatusRead(number: string, desc: string, tail: string)
    requires ' ' !in number && '\r' !in number && '\r' !in desc
    ensures var s, n := "HTTP/1.0 " + number + " " + desc + "\r\n" + tail, 10 + |number| + |desc|;
            && FirstMark(s, '\r', '\n') == n && n + 2 <= |s| && s[..9] == "HTTP/1.0 " && s[n + 2..] == tail
            && Until(s[9..n], ' ') == number && s[9 + |number| + 1..n] == desc
  {
    var line := "HTTP/1.0 " + number + " " + desc;
    var s := line + "\r\n" + tail;
    assert s == line + (['\r', '\n'] + tail);
    FirstMarkAt(line, '\r', '\n', tail);
    assert s[9..|line|] == number + (" " + desc);
    UntilAt(number, ' ', desc);
  }

  lemma {:induction false} UntilAt(x: string, stop: char, rest: string)
    requires stop !in x
    ensures Until(x + ([stop] + rest), stop) == x
  {
    var s := x + ([stop] + rest);
    if x != "" {
      assert s[0] == x[0] && x[0] in x && s[1..] == x[1..] + ([stop] + rest);
      UntilAt(x[1..], stop, rest);
    }
  }

  lemma {:induction false} ReadStatus(status: int, desc: string, tail: string, fs: seq<Field>, body: string)
    requires '\r' !in desc && ReadFields(tail) == Some((fs, body))
    ensures ReadResponse("HTTP/1.0 " + Decimal(status) + " " + desc + "\r\n" + tail)
         == Reading(status, desc, fs, body)
  {
    DecimalRead(status);
    StatusRead(Decimal(status), desc, tail);
  }

  lemma {:induction false} Grouped(a: string, b: string, c: string, d: string)
    ensures ((a + b) + c) + d == a + (b + (c + d))
  {
  }

  /** Reading inverts printing: the client finds the status, the fields in order
      and then the body. */
  lemma {:induction false} HeaderReadBack(rs: Response, body: string)
    requires '\r' !in rs.desc && forall i :: 0 <= i < |rs.fields| ==> Clean(rs.fields[i])
    ensures rs.cgi ==> ReadFields(HeaderText(rs) + body) == Some((rs.fields, body))
    ensures !rs.cgi ==> ReadResponse(HeaderText(rs) + body) == Reading(rs.status, rs.desc, rs.fields, body)
  {
    var fields, mark := FieldLines(rs.fields), "\r\n" + body;
    ReadEmptyLine(body);
    FieldsReadBack(rs.fields, mark, body);
    ReadStatus(rs.status, rs.desc, fields + mark, rs.fields, body);
    Grouped(if rs.cgi then "" else StatusLine(rs), fields, "\r\n", body);
    assert "" + (fields + mark) == fields + mark;
  }

  function Pow10(k: nat): nat {
    if k == 0 then 1 else 10 * Pow10(k - 1)
  }

  lemma {:induction false} DigitsLength(n: nat, k: nat)
    requires k > 0 && n < Pow10(k)
    ensures |Digits(n)| <= k
  {
    if n >= 10 {
      assert Pow10(k) == 10 * Pow10(k - 1);
      DigitsLength(n / 10, k - 1);
    }
  }

  /** A C int takes at most eleven characters. */
  lemma {:induction false} DecimalLength(n: int)
    requires -0x8000_0000 <= n < 0x8000_0000
    ensures |Decimal(n)| <= 11
  {
    assert Pow10(5) == 100000;
    assert Pow10(10) == 10_000_000_000 by {
      assert Pow10(8) == 1000 * Pow10(5);
    }
    DigitsLength(if n < 0 then -n else n, 10);
  }

  /** response_get_max_header_size: how it stands to the header's true length. */
  method MaxHeaderSize(rs: Response) returns (sz: nat)
    requires -0x8000_0000 <= rs.status < 0x8000_0000
    ensures |HeaderText(rs)| < sz
    ensures !rs.cgi ==> sz + |Decimal(rs.status)| == |HeaderText(rs)| + 68
    ensures rs.cgi ==> sz == |HeaderText(rs)| + 80 + |rs.desc|
  {
    DecimalLength(rs.status);
    sz := 16 + |rs.desc|;
    for i := 0 to |rs.fields|
      invariant sz == 16 + |rs.desc| + |FieldLines(rs.fields[..i])|
    {
      assert rs.fields[..i + 1][..i] == rs.fields[..i];
      sz := sz + |rs.fields[i].name|;
      sz := sz + |rs.fields[i].value|;
      sz := sz + 4;
    }
    assert rs.fields[..|rs.fields|] == rs.fields;
    sz := sz + 2;
    sz := sz + 64;
  }
}

module MemDevice {
  import opened Codec

  /** struct io_mem_s over a buffer of fixed size. */
  class Mem {
    const buf: array<char>
    var off: nat

    ghost predicate Valid()
      reads this
    {
      off <= buf.Length
    }

    constructor (size: nat)
      ensures Valid() && fresh(buf) && buf.Length == size && off == 0
    {
      buf := new char[size];
      off := 0;
    }

    /** io_mem_write: as much as fits, silently. */
    method Write(data: string) returns (n: nat)
      requires Valid()
      modifies this`off, buf
      ensures Valid() && n == Min(|data|, buf.Length - old(off)) && off == old(off) + n
      ensures buf[..off] == old(buf[..off]) + data[..n]
    {
      n := Min(|data|, buf.Length - off);
      forall i | 0 <= i < n {
        buf[off + i] := data[i];
      }
      off := off + n;
    }

    /** io_flush onto this device: it stops without an error once the device
        takes nothing more, and what does not fit is lost. */
    method Drain(data: string) returns (lost: nat)
      requires Valid()
      modifies this`off, buf
      ensures Valid() && lost == |data| - Min(|data|, buf.Length - old(off))
      ensures buf[..off] == old(buf[..off]) + data[..|data| - lost]
    {
      var done := 0;
      var stuck := false;
      while done < |data| && !stuck
        invariant Valid() && done <= |data| && off == old(off) + done
        invariant buf[..off] == old(buf[..off]) + data[..done]
        invariant stuck ==> off == buf.Length
        decreases !stuck, |data| - done
      {
        var c := Write(data[done..]);
        assert data[..done] + data[done..][..c] == data[..done + c];
        done := done + c;
        stuck := c == 0;
      }
      lost := |data| - done;
    }
  }
}

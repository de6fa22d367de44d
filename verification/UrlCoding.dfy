/** URL coding (u_urlncpy_encode and u_urlncpy_decode of src/libutils/utils.c). */
module UrlCoding {
  datatype Decoded = Bad | Good(bytes: string)

  /** A C byte. */
  predicate IsByte(c: char) {
    (c as int) < 256
  }

  /** What comes before the first `stop`; for NUL, what a C string holds of a byte
      string. */
  function Until(s: string, stop: char): (r: string)
    ensures |r| <= |s|
  {
    if s == "" || s[0] == stop then "" else [s[0]] + Until(s[1..], stop)
  }

  lemma {:induction false} UntilIs(s: string, stop: char)
    ensures var r := Until(s, stop);
            r == s[..|r|] && stop !in r && (|r| < |s| ==> s[|r|] == stop)
  {
    if s != "" && s[0] != stop {
      UntilIs(s[1..], stop);
      var r := Until(s[1..], stop);
      assert s == [s[0]] + s[1..];
      assert s[..|r| + 1] == [s[0]] + s[1..][..|r|];
    }
  }

  predicate IsBytes(s: string) {
    forall i :: 0 <= i < |s| ==> IsByte(s[i])
  }

  predicate IsAlnum(c: char) {
    '0' <= c <= '9' || 'A' <= c <= 'Z' || 'a' <= c <= 'z'
  }

  predicate IsXDigit(c: char) {
    '0' <= c <= '9' || 'A' <= c <= 'F' || 'a' <= c <= 'f'
  }

  predicate Plain(c: char) {
    IsAlnum(c) || c == '_' || c == '-' || c == '.'
  }

  function Hex(n: nat): char
    requires n < 16
  {
    "0123456789ABCDEF"[n]
  }

  /** htoi on a hexadecimal digit, either case. */
  function Htoi(c: char): (n: nat)
    requires IsXDigit(c)
    ensures n < 16
  {
    if c <= '9' then c as int - '0' as int
    else if c <= 'F' then c as int - 'A' as int + 10
    else c as int - 'a' as int + 10
  }

  function Encode1(c: char): string
    requires IsByte(c)
  {
    if c == ' ' then "+"
    else if Plain(c) then [c]
    else ['%', Hex(c as int / 16), Hex(c as int % 16)]
  }

  function Encode(s: string): string
    requires IsBytes(s)
  {
    if s == "" then "" else Encode1(s[0]) + Encode(s[1..])
  }

  function Byte(hi: char, lo: char): char
    requires IsXDigit(hi) && IsXDigit(lo)
  {
    (Htoi(hi) * 16 + Htoi(lo)) as char
  }

  /** A '%' must be followed by two hexadecimal digits. */
  function Decode(s: string): Decoded {
    if s == "" then Good("")
    else if s[0] == '%' then
      if |s| < 3 || !IsXDigit(s[1]) || !IsXDigit(s[2]) then Bad
      else Cons(Byte(s[1], s[2]), Decode(s[3..]))
    else Cons(if s[0] == '+' then ' ' else s[0], Decode(s[1..]))
  }

  function Cons(c: char, d: Decoded): Decoded {
    if d.Bad? then Bad else Good([c] + d.bytes)
  }

  /** u_urlncpy_encode. */
  method EncodeBuffer(s: string) returns (d: string)
    requires IsBytes(s)
    ensures d == Encode(s)
  {
    d := "";
    assert s[0..] == s;
    for i := 0 to |s|
      invariant d + Encode(s[i..]) == Encode(s)
    {
      var code := EncodeByte(s[i]);
      ghost var rest := Encode(s[i + 1..]);
      assert s[i..][0] == s[i] && s[i..][1..] == s[i + 1..];
      assert d + (code + rest) == (d + code) + rest;
      d := d + code;
    }
  }

  method EncodeByte(c: char) returns (code: string)
    requires IsByte(c)
    ensures code == Encode1(c)
  {
    if c == ' ' {
      code := "+";
    } else if Plain(c) {
      code := [c];
    } else {
      code := ['%', Hex(c as int / 16 % 16), Hex(c as int % 16)];
    }
  }

  /** u_urlncpy_decode. The byte behind the string is a terminator, so that an
      escape cut short is malformed. */
  method DecodeBuffer(s: string) returns (r: Decoded)
    ensures r == Decode(s)
  {
    var d, i := "", 0;
    assert s[0..] == s;
    while i < |s|
      invariant 0 <= i <= |s|
      invariant Decode(s) == Prepend(d, Decode(s[i..]))
    {
      var c, rest := s[i], s[i..];
      if c == '%' {
        if |s| - i < 3 || !IsXDigit(s[i + 1]) || !IsXDigit(s[i + 2]) {
          return Bad;
        }
        assert rest[3..] == s[i + 3..];
        PrependCons(d, Byte(s[i + 1], s[i + 2]), Decode(s[i + 3..]));
        d := d + [Byte(s[i + 1], s[i + 2])];
        i := i + 3;
      } else {
        assert rest[1..] == s[i + 1..];
        PrependCons(d, if c == '+' then ' ' else c, Decode(s[i + 1..]));
        d := d + [if c == '+' then ' ' else c];
        i := i + 1;
      }
    }
    r := Good(d);
  }

  function Prepend(d: string, r: Decoded): Decoded {
    if r.Bad? then Bad else Good(d + r.bytes)
  }

  lemma {:induction false} PrependCons(d: string, c: char, r: Decoded)
    ensures Prepend(d, Cons(c, r)) == Prepend(d + [c], r)
  {
    if r.Good? {
      assert d + ([c] + r.bytes) == (d + [c]) + r.bytes;
    }
  }

  /** A byte and its code. */
  lemma {:induction false} Hexes(c: char)
    requires IsByte(c)
    ensures var hi, lo := Hex(c as int / 16), Hex(c as int % 16);
            IsXDigit(hi) && IsXDigit(lo) && Byte(hi, lo) == c
  {
    var n := c as int;
    HexBack(n / 16);
    HexBack(n % 16);
    assert (n / 16 * 16 + n % 16) == n;
  }

  lemma {:induction false} HexBack(n: nat)
    requires n < 16
    ensures IsXDigit(Hex(n)) && Htoi(Hex(n)) == n
  {
    var h := "0123456789ABCDEF";
    assert h[0] == '0' && h[1] == '1' && h[2] == '2' && h[3] == '3' && h[4] == '4' && h[5] == '5' && h[6] == '6';
    assert h[7] == '7' && h[8] == '8' && h[9] == '9' && h[10] == 'A' && h[11] == 'B' && h[12] == 'C' && h[13] == 'D';
    assert h[14] == 'E' && h[15] == 'F';
  }

  /** Decoding undoes encoding, for every byte string. */
  lemma {:induction false} DecodeEncode(s: string)
    requires IsBytes(s)
    ensures Decode(Encode(s)) == Good(s)
  {
    if s != "" {
      var c, rest := s[0], Encode(s[1..]);
      DecodeEncode(s[1..]);
      var e := Encode(s);
      if c == ' ' || Plain(c) {
        assert e[1..] == rest;
      } else {
        Hexes(c);
        assert e[3..] == rest;
      }
    }
  }

  // ---- everything that decodes ----

  /** What a URI may be made of: a byte as it is, a blank as '+', or an escape of
      two hexadecimal digits, each of either case. */
  datatype Code = Raw(c: char) | Blank | Escape(hi: nat, lo: nat, upperHi: bool, upperLo: bool)

  predicate Legal(k: Code) {
    match k
    case Raw(c) => c != '%' && c != '+'
    case Blank => true
    case Escape(hi, lo, _, _) => hi < 16 && lo < 16
  }

  predicate AllLegal(ks: seq<Code>) {
    forall i :: 0 <= i < |ks| ==> Legal(ks[i])
  }

  function Digit(n: nat, upper: bool): char
    requires n < 16
  {
    if upper then "0123456789ABCDEF"[n] else "0123456789abcdef"[n]
  }

  function Spell1(k: Code): string
    requires Legal(k)
  {
    match k
    case Raw(c) => [c]
    case Blank => "+"
    case Escape(hi, lo, u, v) => ['%', Digit(hi, u), Digit(lo, v)]
  }

  function Stand1(k: Code): char
    requires Legal(k)
  {
    match k
    case Raw(c) => c
    case Blank => ' '
    case Escape(hi, lo, _, _) => (16 * hi + lo) as char
  }

  function Spell(ks: seq<Code>): string
    requires AllLegal(ks)
  {
    if ks == [] then "" else Spell1(ks[0]) + Spell(ks[1..])
  }

  function Stands(ks: seq<Code>): string
    requires AllLegal(ks)
  {
    if ks == [] then "" else [Stand1(ks[0])] + Stands(ks[1..])
  }

  lemma {:induction false} DigitBack(n: nat, upper: bool)
    requires n < 16
    ensures IsXDigit(Digit(n, upper)) && Htoi(Digit(n, upper)) == n
  {
    var h := "0123456789abcdef";
    assert h[0] == '0' && h[1] == '1' && h[2] == '2' && h[3] == '3' && h[4] == '4' && h[5] == '5' && h[6] == '6';
    assert h[7] == '7' && h[8] == '8' && h[9] == '9' && h[10] == 'a' && h[11] == 'b' && h[12] == 'c' && h[13] == 'd';
    assert h[14] == 'e' && h[15] == 'f';
    HexBack(n);
  }

  lemma {:induction false} IsDigit(c: char) returns (n: nat, upper: bool)
    requires IsXDigit(c)
    ensures n < 16 && Digit(n, upper) == c
  {
    n, upper := Htoi(c), c <= 'F';
    DigitBack(n, upper);
  }

  lemma {:induction false} DecodeFirst(k: Code, rest: string)
    requires Legal(k)
    ensures Decode(Spell1(k) + rest) == Cons(Stand1(k), Decode(rest))
  {
    var x := Spell1(k) + rest;
    match k
    case Raw(c) => assert x[0] == c && x[1..] == rest;
    case Blank => assert x[0] == '+' && x[1..] == rest;
    case Escape(hi, lo, u, v) =>
      DigitBack(hi, u);
      DigitBack(lo, v);
      assert x[0] == '%' && x[1] == Digit(hi, u) && x[2] == Digit(lo, v) && x[3..] == rest;
  }

  /** What is spelled in any of these ways decodes to what it stands for. */
  lemma {:induction false} DecodeSpelled(ks: seq<Code>)
    requires AllLegal(ks)
    ensures Decode(Spell(ks)) == Good(Stands(ks))
  {
    if ks != [] {
      DecodeSpelled(ks[1..]);
      DecodeFirst(ks[0], Spell(ks[1..]));
    }
  }

  lemma {:induction false} Spelling(x: string) returns (ks: seq<Code>)
    requires Decode(x).Good?
    ensures AllLegal(ks) && Spell(ks) == x
    decreases |x|
  {
    ks := [];
    if x != "" {
      var k, n := Raw(x[0]), 1;
      if x[0] == '%' {
        var hi, u := IsDigit(x[1]);
        var lo, v := IsDigit(x[2]);
        k, n := Escape(hi, lo, u, v), 3;
      } else if x[0] == '+' {
        k := Blank;
      }
      var rest := Spelling(x[n..]);
      ks := [k] + rest;
      assert ks[1..] == rest;
    }
  }

  /** Decoding gives `s` if and only if the text spells `s`; everything else is
      malformed. */
  lemma {:induction false} DecodeExactly(x: string, s: string)
    ensures Decode(x) == Good(s) <==>
            exists ks: seq<Code> :: AllLegal(ks) && Spell(ks) == x && Stands(ks) == s
  {
    if Decode(x) == Good(s) {
      var ks := Spelling(x);
      DecodeSpelled(ks);
    }
    forall ks: seq<Code> | AllLegal(ks) && Spell(ks) == x && Stands(ks) == s
      ensures Decode(x) == Good(s)
    {
      DecodeSpelled(ks);
    }
  }

  /** `k` is how a byte is coded: with upper-case digits, and only where it must
      be. */
  predicate Canonical(k: Code, c: char) {
    match k
    case Raw(d) => d == c && (IsAlnum(c) || c in "_-.")
    case Blank => c == ' '
    case Escape(hi, lo, u, v) =>
      hi < 16 && lo < 16 && u && v && c as int == 16 * hi + lo && !IsAlnum(c) && c !in "_-. "
  }

  lemma {:induction false} CodeOf(c: char) returns (k: Code)
    requires IsByte(c)
    ensures Canonical(k, c) && Legal(k) && Spell1(k) == Encode1(c) && Stand1(k) == c
  {
    var n := c as int;
    k := if c == ' ' then Blank else if Plain(c) then Raw(c) else Escape(n / 16, n % 16, true, true);
  }

  /** A string is coded byte by byte in that way. */
  lemma {:induction false} EncodeSpelled(s: string) returns (ks: seq<Code>)
    requires IsBytes(s)
    ensures AllLegal(ks) && Spell(ks) == Encode(s) && Stands(ks) == s && |ks| == |s|
    ensures forall i :: 0 <= i < |s| ==> Canonical(ks[i], s[i])
  {
    ks := [];
    if s != "" {
      var k := CodeOf(s[0]);
      var rest := EncodeSpelled(s[1..]);
      ks := [k] + rest;
      assert ks[1..] == rest && s == [s[0]] + s[1..];
    }
  }

  /** Codes contain only the characters of a plain line. */
  lemma {:induction false} EncodeClean(s: string)
    requires IsBytes(s)
    ensures forall c :: c in Encode(s) ==> Plain(c) || c == '+' || c == '%'
    ensures |s| <= |Encode(s)| <= 3 * |s|
  {
    if s != "" {
      EncodeClean(s[1..]);
      HexBack(s[0] as int / 16);
      HexBack(s[0] as int % 16);
    }
  }

  /** Among the texts over the alphabet of codes, the code of a string is the
      shortest that decodes to it. */
  lemma {:induction false} CodeIsShortest(x: string)
    requires (forall c :: c in x ==> Plain(c) || c == '+' || c == '%') && Decode(x).Good?
    ensures IsBytes(Decode(x).bytes) && |Encode(Decode(x).bytes)| <= |x|
    decreases |x|
  {
    if x != "" {
      var n := if x[0] == '%' then 3 else 1;
      assert x[0] in x && forall c :: c in x[n..] ==> c in x;
      CodeIsShortest(x[n..]);
      var s, rest := Decode(x).bytes, Decode(x[n..]).bytes;
      assert s == [s[0]] + rest && s[1..] == rest;
      assert IsByte(s[0]) && |Encode1(s[0])| <= n;
      assert forall i :: 1 <= i < |s| ==> s[i] == rest[i - 1];
    }
  }

  lemma {:induction false} UntilShorter(s: string, stop: char)
    requires IsBytes(s)
    ensures IsBytes(Until(s, stop)) && |Encode(Until(s, stop))| <= |Encode(s)|
  {
    if s != "" && s[0] != stop {
      UntilShorter(s[1..], stop);
      assert Until(s, stop)[1..] == Until(s[1..], stop);
    }
  }
}

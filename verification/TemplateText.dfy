/**
  What overriding a block does to the page: the text around it stays, and its
  own text is replaced where it stands.
 */
module TemplateText {
  import opened Wrappers
  import opened Codec
  import opened TemplateTree
  import opened Translate

  /** A template with a place left open in it, at any depth. */
  datatype Context =
    | Here(before: seq<Shape>, after: seq<Shape>)
    | Inside(before: seq<Shape>, name: string, inner: Context, after: seq<Shape>)

  function Plug(c: Context, ss: seq<Shape>): seq<Shape> {
    match c
    case Here(before, after) => before + (ss + after)
    case Inside(before, name, inner, after) => before + ([Named(name, Plug(inner, ss))] + after)
  }

  /** The text in front of that place, and behind it. */
  function Left(c: Context): string {
    match c
    case Here(before, _) => PrintShapes(before)
    case Inside(before, _, inner, _) => PrintShapes(before) + Left(inner)
  }

  function Right(c: Context): string {
    match c
    case Here(_, after) => PrintShapes(after)
    case Inside(_, _, inner, after) => Right(inner) + PrintShapes(after)
  }

  /** The text of a page as it is written, without its directives. */
  function Said(ds: seq<Directive>): string {
    if ds == [] then "" else (if ds[0].Say? then ds[0].text else "") + Said(ds[1..])
  }

  /** A template without a child is printed as it is written. */
  lemma {:induction false} PrintSaid(ds: seq<Directive>)
    requires Items(ds).Read?
    ensures PrintShapes(Items(ds).ss) + Said(Items(ds).rest) == Said(ds)
    decreases |ds|
  {
    if ds != [] && (ds[0].Say? || ds[0].Open?) {
      var inner := Items(ds[1..]);
      PrintSaid(ds[1..]);
      if ds[0].Say? {
        PrintFirst(Text(ds[0].text), inner.ss);
        Assoc(ds[0].text, PrintShapes(inner.ss), Said(inner.rest));
      } else {
        var more := Items(inner.rest[1..]);
        PrintSaid(inner.rest[1..]);
        PrintFirst(Named(ds[0].name, inner.ss), more.ss);
        Assoc(PrintShapes(inner.ss), PrintShapes(more.ss), Said(more.rest));
      }
    }
  }

  lemma {:induction false} PrintFirst(s: Shape, rest: seq<Shape>)
    ensures PrintShapes([s] + rest) == (if s.Text? then s.text else PrintShapes(s.kids)) + PrintShapes(rest)
  {
    assert ([s] + rest)[1..] == rest;
  }

  lemma {:induction false} PrintAppend(a: seq<Shape>, b: seq<Shape>)
    ensures PrintShapes(a + b) == PrintShapes(a) + PrintShapes(b)
    decreases |a|
  {
    if a == [] {
      assert a + b == b;
    } else {
      assert (a + b)[1..] == a[1..] + b;
      PrintAppend(a[1..], b);
      Assoc(if a[0].Text? then a[0].text else PrintShapes(a[0].kids), PrintShapes(a[1..]), PrintShapes(b));
    }
  }

  /** Whatever stands in the open place is printed between the two texts. */
  lemma {:induction false} PlugPrinted(c: Context, ss: seq<Shape>)
    ensures PrintShapes(Plug(c, ss)) == Left(c) + PrintShapes(ss) + Right(c)
  {
    match c
    case Here(before, after) =>
      PrintAppend(before, ss + after);
      PrintAppend(ss, after);
      Assoc(PrintShapes(before), PrintShapes(ss), PrintShapes(after));
    case Inside(before, name, inner, after) =>
      var b, l, x, r, a := PrintShapes(before), Left(inner), PrintShapes(ss), Right(inner), PrintShapes(after);
      PlugPrinted(inner, ss);
      PrintAppend(before, [Named(name, Plug(inner, ss))] + after);
      PrintFirst(Named(name, Plug(inner, ss)), after);
      Regroup(b, l, x, r, a);
  }

  lemma {:induction false} Regroup(b: string, l: string, x: string, r: string, a: string)
    ensures b + ((l + x + r) + a) == (b + l) + x + (r + a)
  {
  }

  // ---- bodies ----

  /** The text of a body, inherits left out. */
  function WordsOf(body: seq<Part>): string {
    if body == [] then "" else (if body[0].Words? then body[0].text else "") + WordsOf(body[1..])
  }

  lemma {:induction false} WordsPrinted(body: seq<Part>)
    ensures PrintShapes(Expand(body, [])) == WordsOf(body)
  {
    if body != [] {
      WordsPrinted(body[1..]);
      if body[0].Words? {
        PrintFirst(Text(body[0].text), Expand(body[1..], []));
      } else {
        assert [] + Expand(body[1..], []) == Expand(body[1..], []);
      }
    }
  }

  /** The text of the block that is overridden comes where the first inherit
      stands, and nowhere if there is none. */
  lemma {:induction false} ExpandPrinted(x: seq<Part>, y: seq<Part>, previous: seq<Shape>)
    requires Inherit !in x
    ensures PrintShapes(Expand(x, previous)) == WordsOf(x)
    ensures PrintShapes(Expand(x + [Inherit] + y, previous)) == WordsOf(x) + PrintShapes(previous) + WordsOf(y)
    decreases |x|
  {
    var body := x + [Inherit] + y;
    if x == [] {
      assert body[0] == Inherit && body[1..] == y;
      PrintAppend(previous, Expand(y, []));
      WordsPrinted(y);
      assert WordsOf(x) + PrintShapes(previous) == PrintShapes(previous);
    } else {
      assert x[0] in x;
      assert body[0] == x[0] && body[1..] == x[1..] + [Inherit] + y;
      ExpandPrinted(x[1..], y, previous);
      PrintFirst(Text(x[0].text), Expand(x[1..], previous));
      PrintFirst(Text(x[0].text), Expand(body[1..], previous));
      assert WordsOf(x) == x[0].text + WordsOf(x[1..]);
      Assoc(x[0].text, WordsOf(x[1..]), PrintShapes(previous));
      Assoc(x[0].text, WordsOf(x[1..]) + PrintShapes(previous), WordsOf(y));
    }
  }

  // ---- names ----

  lemma {:induction false} NamesPlug(c: Context, ss: seq<Shape>)
    ensures Names(ss) <= Names(Plug(c, ss))
  {
    match c
    case Here(before, after) =>
      NamesAppend(before, ss + after);
      NamesAppend(ss, after);
    case Inside(before, name, inner, after) =>
      NamesPlug(inner, ss);
      NamesAppend(before, [Named(name, Plug(inner, ss))] + after);
      assert ([Named(name, Plug(inner, ss))] + after)[1..] == after;
  }

  lemma {:induction false} FindName(ss: seq<Shape>, n: string) returns (c: Context, m: string, kids: seq<Shape>)
    requires n in Names(ss)
    ensures ss == Plug(c, [Named(m, kids)]) && Lower(m) == n
    decreases ss
  {
    var tail := ss[1..];
    assert ss == [ss[0]] + tail;
    if ss[0].Named? && Lower(ss[0].name) == n {
      c, m, kids := Here([], tail), ss[0].name, ss[0].kids;
    } else if ss[0].Named? && n in Names(ss[0].kids) {
      var inner;
      inner, m, kids := FindName(ss[0].kids, n);
      c := Inside([], ss[0].name, inner, tail);
    } else {
      c, m, kids := FindName(tail, n);
      c := Behind(ss[0], c);
      BehindPlug(ss[0], c.(before := c.before[1..]), [Named(m, kids)]);
    }
  }

  /** A context with one more shape in front. */
  function Behind(s: Shape, c: Context): Context {
    c.(before := [s] + c.before)
  }

  lemma {:induction false} BehindPlug(s: Shape, c: Context, ss: seq<Shape>)
    ensures Plug(Behind(s, c), ss) == [s] + Plug(c, ss)
  {
    var rest := if c.Here? then ss + c.after else [Named(c.name, Plug(c.inner, ss))] + c.after;
    assert ([s] + c.before) + rest == [s] + (c.before + rest);
  }

  /** The names of a template are those of its blocks, at any depth. */
  lemma {:induction false} NamesAre(ss: seq<Shape>, name: string)
    ensures Lower(name) in Names(ss) <==>
            exists c: Context, m, kids :: ss == Plug(c, [Named(m, kids)]) && Same(m, name)
  {
    if Lower(name) in Names(ss) {
      var c, m, kids := FindName(ss, Lower(name));
    }
    forall c: Context, m, kids | ss == Plug(c, [Named(m, kids)]) && Same(m, name) ensures Lower(name) in Names(ss) {
      NamesPlug(c, [Named(m, kids)]);
    }
  }

  lemma {:induction false} UniqueAppend(a: seq<Shape>, b: seq<Shape>)
    ensures UniqueNames(a + b) <==> UniqueNames(a) && UniqueNames(b) && Names(a) !! Names(b)
    decreases |a|
  {
    if a == [] {
      assert a + b == b;
    } else {
      assert (a + b)[1..] == a[1..] + b;
      UniqueAppend(a[1..], b);
      NamesAppend(a[1..], b);
    }
  }

  lemma {:induction false} UniqueOne(name: string, kids: seq<Shape>)
    ensures UniqueNames([Named(name, kids)]) <==> Lower(name) !in Names(kids) && UniqueNames(kids)
    ensures Names([Named(name, kids)]) == {Lower(name)} + Names(kids)
  {
  }

  /** In a template with unique names, taking off the name of a block leaves no
      other block of that name. */
  lemma {:induction false} UniquePlug(c: Context, m: string, kids: seq<Shape>)
    requires UniqueNames(Plug(c, [Named(m, kids)]))
    ensures Lower(m) !in Names(Plug(c, kids))
  {
    var t := [Named(m, kids)];
    UniqueOne(m, kids);
    match c
    case Here(before, after) =>
      UniqueAppend(before, t + after);
      UniqueAppend(t, after);
      NamesAppend(t, after);
      NamesAppend(kids, after);
      NamesAppend(before, kids + after);
    case Inside(before, name, inner, after) =>
      var s, s' := [Named(name, Plug(inner, t))], [Named(name, Plug(inner, kids))];
      UniqueAppend(before, s + after);
      UniqueAppend(s, after);
      NamesAppend(s, after);
      UniqueOne(name, Plug(inner, t));
      UniqueOne(name, Plug(inner, kids));
      NamesPlug(inner, t);
      UniquePlug(inner, m, kids);
      NamesAppend(s', after);
      NamesAppend(before, s' + after);
  }

  /** No two blocks of a template have one name. */
  ghost predicate NoTwoAlike(ss: seq<Shape>) {
    forall c: Context, m, kids :: ss == Plug(c, [Named(m, kids)]) ==> Lower(m) !in Names(Plug(c, kids))
  }

  lemma {:induction false} UniqueIs(ss: seq<Shape>)
    ensures UniqueNames(ss) <==> NoTwoAlike(ss)
    decreases ss
  {
    if UniqueNames(ss) {
      forall c: Context, m, kids | ss == Plug(c, [Named(m, kids)]) ensures Lower(m) !in Names(Plug(c, kids)) {
        UniquePlug(c, m, kids);
      }
    }
    if NoTwoAlike(ss) && ss != [] {
      AlikeBehind(ss[0], ss[1..]);
      UniqueIs(ss[1..]);
      if ss[0].Named? {
        AlikeInside(ss[0].name, ss[0].kids, ss[1..]);
        UniqueIs(ss[0].kids);
      }
    }
  }

  lemma {:induction false} AlikeBehind(s: Shape, tail: seq<Shape>)
    requires NoTwoAlike([s] + tail)
    ensures NoTwoAlike(tail)
  {
    forall c: Context, m, kids | tail == Plug(c, [Named(m, kids)]) ensures Lower(m) !in Names(Plug(c, kids)) {
      BehindPlug(s, c, [Named(m, kids)]);
      BehindPlug(s, c, kids);
      NamesAppend([s], Plug(c, kids));
    }
  }

  lemma {:induction false} AlikeInside(name: string, kids: seq<Shape>, tail: seq<Shape>)
    requires NoTwoAlike([Named(name, kids)] + tail)
    ensures NoTwoAlike(kids) && Lower(name) !in Names(kids) + Names(tail) && Names(kids) !! Names(tail)
  {
    var own := Here([], tail);
    assert [] + ([Named(name, kids)] + tail) == [Named(name, kids)] + tail && [] + (kids + tail) == kids + tail;
    assert Plug(own, [Named(name, kids)]) == [Named(name, kids)] + tail && Plug(own, kids) == kids + tail;
    NamesAppend(kids, tail);
    forall c: Context, m, ks | kids == Plug(c, [Named(m, ks)])
      ensures Lower(m) !in Names(Plug(c, ks)) && Lower(m) !in Names(tail)
    {
      AlikeDeeper(name, c, m, ks, tail);
    }
    forall n | n in Names(kids) ensures n !in Names(tail) {
      var c, m, ks := FindName(kids, n);
    }
  }

  lemma {:induction false} AlikeDeeper(name: string, c: Context, m: string, ks: seq<Shape>, tail: seq<Shape>)
    requires NoTwoAlike([Named(name, Plug(c, [Named(m, ks)]))] + tail)
    ensures Lower(m) !in Names(Plug(c, ks)) && Lower(m) !in Names(tail)
  {
    var deep := Inside([], name, c, tail);
    var s, s' := [Named(name, Plug(c, [Named(m, ks)]))], [Named(name, Plug(c, ks))];
    assert [] + (s + tail) == s + tail && [] + (s' + tail) == s' + tail;
    assert Plug(deep, [Named(m, ks)]) == s + tail && Plug(deep, ks) == s' + tail;
    NamesAppend(s', tail);
    UniqueOne(name, Plug(c, ks));
  }

  // ---- overriding ----

  lemma {:induction false} OverriddenOne(s: Shape, name: string, body: seq<Part>)
    ensures Overridden([s], name, body) ==
            [match s
             case Text(_) => s
             case Named(n, kids) =>
               if Same(n, name) then Named(name, Expand(body, kids)) else Named(n, Overridden(kids, name, body))]
  {
    assert [s][1..] == [];
  }

  /** A block is overridden where it stands, and nothing else is touched. */
  lemma {:induction false} OverrideInPlace(
      c: Context, m: string, kids: seq<Shape>, name: string, body: seq<Part>)
    requires UniqueNames(Plug(c, [Named(m, kids)])) && Same(m, name)
    ensures Overridden(Plug(c, [Named(m, kids)]), name, body) == Plug(c, [Named(name, Expand(body, kids))])
  {
    var t := [Named(m, kids)];
    match c
    case Here(before, after) =>
      UniqueOne(m, kids);
      UniqueAppend(before, t + after);
      UniqueAppend(t, after);
      NamesAppend(t, after);
      OverriddenAppend(before, t + after, name, body);
      OverriddenAppend(t, after, name, body);
      OverriddenOne(t[0], name, body);
      OverriddenAbsent(before, name, body);
      OverriddenAbsent(after, name, body);
    case Inside(before, n, inner, after) =>
      var s := [Named(n, Plug(inner, t))];
      UniqueOne(n, Plug(inner, t));
      NamesPlug(inner, t);
      UniqueAppend(before, s + after);
      UniqueAppend(s, after);
      NamesAppend(s, after);
      OverriddenAppend(before, s + after, name, body);
      OverriddenAppend(s, after, name, body);
      OverriddenOne(s[0], name, body);
      OverriddenAbsent(before, name, body);
      OverriddenAbsent(after, name, body);
      OverrideInPlace(inner, m, kids, name, body);
  }

  /** The page of a child that overrides one block: the text around the block as
      before, and the body in its place, with the old text where the body first
      says inherit. */
  lemma {:induction false} PageOfChild(
      c: Context, m: string, kids: seq<Shape>, name: string, x: seq<Part>, y: seq<Part>, close: Option<string>)
    requires UniqueNames(Plug(c, [Named(m, kids)])) && Same(m, name) && Inherit !in x
    ensures var ss := Plug(c, [Named(m, kids)]);
            && PrintShapes(ss) == Left(c) + PrintShapes(kids) + Right(c)
            && PrintShapes(Extended(ss, [Override(name, x, close)])) == Left(c) + WordsOf(x) + Right(c)
            && PrintShapes(Extended(ss, [Override(name, x + [Inherit] + y, close)]))
               == Left(c) + (WordsOf(x) + PrintShapes(kids) + WordsOf(y)) + Right(c)
  {
    PlugPrinted(c, [Named(m, kids)]);
    PrintFirst(Named(m, kids), []);
    assert [Named(m, kids)] + [] == [Named(m, kids)];
    ChildPrinted(c, m, kids, name, x, close);
    ChildPrinted(c, m, kids, name, x + [Inherit] + y, close);
    ExpandPrinted(x, y, kids);
  }

  lemma {:induction false} ChildPrinted(
      c: Context, m: string, kids: seq<Shape>, name: string, body: seq<Part>, close: Option<string>)
    requires UniqueNames(Plug(c, [Named(m, kids)])) && Same(m, name)
    ensures PrintShapes(Extended(Plug(c, [Named(m, kids)]), [Override(name, body, close)]))
         == Left(c) + PrintShapes(Expand(body, kids)) + Right(c)
  {
    var child, new' := [Override(name, body, close)], Named(name, Expand(body, kids));
    assert child[1..] == [] && Extended(Plug(c, [new']), []) == Plug(c, [new']);
    OverrideInPlace(c, m, kids, name, body);
    PlugPrinted(c, [new']);
    PrintFirst(new', []);
    assert [new'] + [] == [new'];
  }
}

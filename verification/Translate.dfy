/**
  Whole translations: a base template and one child that extends it, through the
  directives of the preprocessor, to the text that is printed in the end.
 */
module Translate {
  import opened Wrappers
  import opened Codec
  import opened TemplateTree
  import opened Template

  lemma {:induction false} RepNext(h: Heap, p: Ref, ids: seq<Ref>, ts: seq<Tree>, i: nat)
    requires i < |ids| && i <= |ts| && Rep(h, p, ids[i..], ts[i..])
    ensures i < |ts| && ids[i] in h && Rep(h, p, ids[i + 1..], ts[i + 1..])
    ensures match ts[i]
            case Leaf(_, text) => h[ids[i]].name.None? && h[ids[i]].text == text
            case Block(_, _, kids) => h[ids[i]].name.Some? && Rep(h, ids[i], h[ids[i]].children, kids)
    ensures Print(ts[i..]) == (if ts[i].Leaf? then ts[i].text else Print(ts[i].kids)) + Print(ts[i + 1..])
  {
    assert ids[i] == ids[i..][0] && ts[i] == ts[i..][0];
    assert ids[i + 1..] == ids[i..][1..] && ts[i + 1..] == ts[i..][1..];
  }

  /** ppctx_print and ppctx_print_kblock: the list `ids` of children of `p`. */
  method PrintList(h: Heap, p: Ref, ids: seq<Ref>, ghost ts: seq<Tree>) returns (out: string)
    requires Rep(h, p, ids, ts)
    ensures out == Print(ts)
    decreases ts
  {
    out := "";
    for i := 0 to |ids|
      invariant Rep(h, p, ids[i..], ts[i..]) && out + Print(ts[i..]) == Print(ts)
    {
      var b := ids[i];
      RepNext(h, p, ids, ts, i);
      var s := h[b].text;
      if h[b].name.Some? {
        s := PrintList(h, b, h[b].children, ts[i].kids);
      }
      Assoc(out, s, Print(ts[i + 1..]));
      out := out + s;
    }
  }

  // ---- the base template ----

  lemma {:induction false} AddNames(ts: seq<Tree>, p: Ref, new': seq<Tree>)
    ensures Names(Erase(Add(ts, p, new'))) == Names(Erase(ts)) + if IsBlock(ts, p) then Names(Erase(new')) else {}
    decreases ts
  {
    if ts != [] {
      var r := Add(ts, p, new');
      assert r[1..] == Add(ts[1..], p, new') && Erase(r)[1..] == Erase(r[1..]) && Erase(ts)[1..] == Erase(ts[1..]);
      AddNames(ts[1..], p, new');
      if ts[0].Block? {
        if ts[0].id == p {
          EraseAppend(ts[0].kids, new');
          NamesAppend(Erase(ts[0].kids), Erase(new'));
        } else {
          AddNames(ts[0].kids, p, new');
        }
      }
    }
  }

  lemma {:induction false} AddAtNames(ts: seq<Tree>, p: Ref, new': seq<Tree>)
    requires p == TOP || IsBlock(ts, p)
    ensures Names(Erase(AddAt(ts, p, new'))) == Names(Erase(ts)) + Names(Erase(new'))
  {
    if p == TOP {
      EraseAppend(ts, new');
      NamesAppend(Erase(ts), Erase(new'));
    } else {
      AddNames(ts, p, new');
    }
  }

  lemma {:induction false} AddAtFacts(ts: seq<Tree>, p: Ref, new': seq<Tree>)
    requires p == TOP || IsBlock(ts, p)
    requires Distinct(ts) && Distinct(new') && Ids(ts) !! Ids(new')
    ensures Ids(AddAt(ts, p, new')) == Ids(ts) + Ids(new')
    ensures p == TOP || IsBlock(AddAt(ts, p, new'), p)
  {
    if p == TOP {
      IdsAppend(ts, new');
    } else {
      AddFacts(ts, p, new');
    }
  }

  lemma {:induction false} AddAtTwice(ts: seq<Tree>, p: Ref, a: seq<Tree>, b: seq<Tree>)
    requires p == TOP || (IsBlock(ts, p) && IsBlock(AddAt(ts, p, a), p))
    requires p !in Ids(a)
    ensures AddAt(AddAt(ts, p, a), p, b) == AddAt(ts, p, a + b)
  {
    if p == TOP {
      assert (ts + a) + b == ts + (a + b);
    } else {
      AddTwice(ts, p, a, b);
    }
  }

  /** A block put in place empty and filled later is one put in place full. */
  lemma {:induction false} FillAddAt(ts: seq<Tree>, p: Ref, n: Ref, name: string, kids: seq<Tree>)
    requires p == TOP || IsBlock(ts, p)
    requires n !in Ids(ts)
    ensures Add(AddAt(ts, p, [Block(n, name, [])]), n, kids) == AddAt(ts, p, [Block(n, name, kids)])
  {
    if p == TOP {
      var e := [Block(n, name, [])];
      AddSplit(ts, e, n, kids);
      AddAbsent(ts, n, kids);
      assert e[1..] == [] && [] + kids == kids;
    } else {
      FillAdd(ts, p, n, name, kids);
    }
  }

  /** What reading a piece `ss` of a base template at `p` does to the nodes. */
  ghost predicate Built(h0: Heap, n0: Ref, f0: seq<Tree>, h1: Heap, n1: Ref, f1: seq<Tree>,
                        p: Ref, new': seq<Tree>, ss: seq<Shape>)
  {
    && n0 <= n1 && Grown(h0, h1, p) && f1 == AddAt(f0, p, new') && Erase(new') == ss
    && (p == TOP || IsBlock(f1, p))
    && Distinct(new') && (forall x :: x in Ids(new') ==> n0 <= x < n1)
  }

  lemma {:induction false} BuiltThen(
      h0: Heap, n0: Ref, f0: seq<Tree>, h1: Heap, n1: Ref, f1: seq<Tree>, h2: Heap, n2: Ref, f2: seq<Tree>,
      p: Ref, a: seq<Tree>, sa: seq<Shape>, b: seq<Tree>, sb: seq<Shape>)
    requires p < n0 && (p == TOP || IsBlock(f0, p))
    requires Built(h0, n0, f0, h1, n1, f1, p, a, sa) && Built(h1, n1, f1, h2, n2, f2, p, b, sb)
    ensures Built(h0, n0, f0, h2, n2, f2, p, a + b, sa + sb)
  {
    AddAtTwice(f0, p, a, b);
    IdsAppend(a, b);
    EraseAppend(a, b);
  }

  lemma {:induction false} BuiltBlock(
      h0: Heap, n: Ref, f0: seq<Tree>, h1: Heap, f1: seq<Tree>, h2: Heap, n2: Ref, f2: seq<Tree>,
      p: Ref, name: string, kids: seq<Tree>, ss: seq<Shape>)
    requires (p == TOP || IsBlock(f0, p)) && Distinct(f0) && n != TOP && n !in h0
    requires forall x :: x in Ids(f0) ==> x < n
    requires Grown(h0, h1, p) && f1 == AddAt(f0, p, [Block(n, name, [])]) && IsBlock(f1, n)
    requires Built(h1, n + 1, f1, h2, n2, f2, n, kids, ss)
    ensures Built(h0, n, f0, h2, n2, f2, p, [Block(n, name, kids)], [Named(name, ss)])
  {
    var t := [Block(n, name, kids)];
    FillAddAt(f0, p, n, name, kids);
    assert t[1..] == [] && Ids(t) == {n} + Ids(kids);
    AddAtFacts(f0, p, t);
  }

  lemma {:induction false} NamesOfOne(s: Shape)
    ensures Names([s]) == if s.Named? then {Lower(s.name)} + Names(s.kids) else {}
    ensures UniqueNames([s]) <==> s.Text? || (UniqueNames(s.kids) && Lower(s.name) !in Names(s.kids))
  {
    assert [s][1..] == [];
  }

  /** Names that are neither repeated nor taken. */
  predicate Fresh(ss: seq<Shape>, taken: set<string>) {
    UniqueNames(ss) && Names(ss) !! taken
  }

  lemma {:induction false} FreshFirst(s: Shape, ss: seq<Shape>, taken: set<string>)
    ensures Fresh([s] + ss, taken) <==> Fresh([s], taken) && Fresh(ss, taken + Names([s]))
  {
    NamesAppend([s], ss);
  }

  lemma {:induction false} FreshBlock(name: string, kids: seq<Shape>, taken: set<string>)
    ensures Fresh([Named(name, kids)], taken) <==> Lower(name) !in taken && Fresh(kids, taken + {Lower(name)})
  {
    NamesOfOne(Named(name, kids));
  }

  /** Reading a base template, at the top or inside a block. */
  ghost predicate InBase(pp: Preprocessor)
    reads pp
  {
    && pp.Valid() && pp.extending == 0 && pp.lev >= 0 && (pp.cur == TOP || IsBlock(pp.forest, pp.cur))
    && pp.h[pp.cur].ancestor.None?
  }

  ghost function Taken(pp: Preprocessor): set<string>
    reads pp
  {
    Names(Erase(pp.forest))
  }

  /** The opening of a block: an error when the name is taken. */
  method OpenBlock(pp: Preprocessor, name: string) returns (ok: bool)
    requires InBase(pp)
    modifies pp
    ensures ok <==> Lower(name) !in old(Taken(pp))
    ensures ok ==> InBase(pp) && pp.lev == old(pp.lev) + 1 && pp.cur == old(pp.next) && pp.next == pp.cur + 1
    ensures ok ==> pp.forest == AddAt(old(pp.forest), old(pp.cur), [Block(pp.cur, name, [])])
                   && IsBlock(pp.forest, pp.cur)
    ensures ok ==> Grown(old(pp.h), pp.h, old(pp.cur))
                   && pp.h[pp.cur].parent == old(pp.cur) && pp.h[pp.cur].name == Some(name)
    ensures ok ==> Taken(pp) == old(Taken(pp)) + {Lower(name)}
  {
    ghost var f0, p, n := pp.forest, pp.cur, pp.next;
    FindNames(f0, name);
    ok := pp.NewBlock(name);
    if ok {
      AddAtNames(f0, p, [Block(n, name, [])]);
      NamesOfOne(Named(name, []));
      assert Erase([Block(n, name, [])]) == [Named(name, [])];
    }
  }

  /** The end of a block, at directive `rest[0]`: an error when there is none or
      it gives another name. */
  method CloseBlock(pp: Preprocessor, name: string, rest: seq<Directive>) returns (ok: bool)
    requires pp.Valid() && pp.extending == 0 && pp.lev > 0 && pp.h[pp.cur].name == Some(name)
    requires rest == [] || rest[0].Close?
    modifies pp`lev, pp`cur, pp`extending
    ensures ok <==> rest != [] && Closes(rest[0], name)
    ensures ok ==> pp.lev == old(pp.lev) - 1 && pp.cur == pp.h[old(pp.cur)].parent && pp.extending == 0
  {
    ok := false;
    if rest != [] {
      ok := pp.EndBlock(rest[0].tag);
    }
  }

  /** The contents of a block just opened, and its end. */
  method BuildInside(
      pp: Preprocessor, name: string, ds: seq<Directive>, ghost h0: Heap, ghost f0: seq<Tree>, ghost p: Ref)
    returns (ok: bool, rest: seq<Directive>, ghost new': seq<Tree>)
    requires InBase(pp) && pp.lev > 0 && pp.cur != TOP && IsBlock(pp.forest, pp.cur) && pp.next == pp.cur + 1
    requires p in h0 && (p == TOP || IsBlock(f0, p)) && Distinct(f0) && pp.cur !in h0 && h0[p].ancestor.None?
    requires pp.h[pp.cur].parent == p && pp.h[pp.cur].name == Some(name)
    requires forall x :: x in Ids(f0) ==> x < pp.cur
    requires Grown(h0, pp.h, p) && pp.forest == AddAt(f0, p, [Block(pp.cur, name, [])])
    modifies pp
    ensures ok <==> var r := Items(ds);
                    r.Read? && r.rest != [] && Closes(r.rest[0], name) && Fresh(r.ss, old(Taken(pp)))
    ensures ok ==> rest == Items(ds).rest[1..]
    ensures ok ==> InBase(pp) && pp.lev == old(pp.lev) - 1 && pp.cur == p
    ensures ok ==> Built(h0, old(pp.cur), f0, pp.h, pp.next, pp.forest, p, new', [Named(name, Items(ds).ss)])
    decreases |ds|, 4
  {
    ghost var h1, n, f1 := pp.h, pp.cur, pp.forest;
    ok, rest, new' := BuildItems(pp, ds);
    if ok {
      ok := Seal(pp, name, rest, h0, f0, p, h1, f1, new', Items(ds).ss);
      new' := [Block(n, name, new')];
      rest := if ok then rest[1..] else [];
    }
  }

  /** The end of a block whose contents have been read. */
  method Seal(pp: Preprocessor, name: string, rest: seq<Directive>, ghost h0: Heap, ghost f0: seq<Tree>, ghost p: Ref,
              ghost h1: Heap, ghost f1: seq<Tree>, ghost kids: seq<Tree>, ghost ss: seq<Shape>) returns (ok: bool)
    requires InBase(pp) && pp.lev > 0 && pp.cur != TOP && (rest == [] || rest[0].Close?)
    requires p in h0 && (p == TOP || IsBlock(f0, p)) && Distinct(f0) && pp.cur !in h0 && h0[p].ancestor.None?
    requires pp.cur in h1 && h1[pp.cur].parent == p && h1[pp.cur].name == Some(name)
    requires forall x :: x in Ids(f0) ==> x < pp.cur
    requires Grown(h0, h1, p) && f1 == AddAt(f0, p, [Block(pp.cur, name, [])]) && IsBlock(f1, pp.cur)
    requires Built(h1, pp.cur + 1, f1, pp.h, pp.next, pp.forest, pp.cur, kids, ss)
    modifies pp`lev, pp`cur, pp`extending
    ensures ok <==> rest != [] && Closes(rest[0], name)
    ensures ok ==> InBase(pp) && pp.lev == old(pp.lev) - 1 && pp.cur == p
    ensures ok ==> Built(h0, old(pp.cur), f0, pp.h, pp.next, pp.forest, p,
                         [Block(old(pp.cur), name, kids)], [Named(name, ss)])
  {
    ghost var n := pp.cur;
    BuiltBlock(h0, n, f0, h1, f1, pp.h, pp.next, pp.forest, p, name, kids, ss);
    assert pp.h[n].parent == p && pp.h[n].name == Some(name) && pp.h[p].ancestor.None?;
    ok := CloseBlock(pp, name, rest);
  }

  /** A block with all that is in it. */
  method BuildBlock(pp: Preprocessor, name: string, ds: seq<Directive>)
      returns (ok: bool, rest: seq<Directive>, ghost new': seq<Tree>)
    requires InBase(pp)
    modifies pp
    ensures ok <==> var r := Items(ds);
                    r.Read? && r.rest != [] && Closes(r.rest[0], name) && Fresh([Named(name, r.ss)], old(Taken(pp)))
    ensures ok ==> rest == Items(ds).rest[1..]
    ensures ok ==> InBase(pp) && pp.lev == old(pp.lev) && pp.cur == old(pp.cur)
    ensures ok ==> Built(old(pp.h), old(pp.next), old(pp.forest), pp.h, pp.next, pp.forest, pp.cur,
                         new', [Named(name, Items(ds).ss)])
    decreases |ds|, 5
  {
    ghost var h0, f0, p := pp.h, pp.forest, pp.cur;
    RepIds(h0, TOP, h0[TOP].children, f0);
    if Items(ds).Read? {
      FreshBlock(name, Items(ds).ss, Taken(pp));
    }
    rest, new' := [], [];
    ok := OpenBlock(pp, name);
    if ok {
      ok, rest, new' := BuildInside(pp, name, ds, h0, f0, p);
    }
  }

  method BuildText(pp: Preprocessor, text: string) returns (ghost new': seq<Tree>)
    requires InBase(pp)
    modifies pp`h, pp`next, pp`forest
    ensures InBase(pp)
    ensures Built(old(pp.h), old(pp.next), old(pp.forest), pp.h, pp.next, pp.forest, pp.cur, new', [Text(text)])
  {
    ghost var h0, f0 := pp.h, pp.forest;
    RepIds(h0, TOP, h0[TOP].children, f0);
    new' := [Leaf(pp.next, text)];
    assert Ids(new') == {pp.next};
    AddAtFacts(f0, pp.cur, new');
    pp.TextBlock(text);
  }

  /** The first directive, if it is text or opens a block, and all that belongs
      to it. */
  method BuildFirst(pp: Preprocessor, ds: seq<Directive>)
    returns (ok: bool, rest: seq<Directive>, ghost s: Shape, ghost new': seq<Tree>)
    requires InBase(pp) && ds != [] && (ds[0].Say? || ds[0].Open?)
    modifies pp
    ensures ok ==> |rest| < |ds| && Items(ds) == Then(s, Items(rest)) && Fresh([s], old(Taken(pp)))
    ensures !ok ==> Items(ds).Broken? || (Items(ds).ss != [] && !Fresh([Items(ds).ss[0]], old(Taken(pp))))
    ensures ok ==> InBase(pp) && pp.lev == old(pp.lev) && pp.cur == old(pp.cur)
    ensures ok ==> Built(old(pp.h), old(pp.next), old(pp.forest), pp.h, pp.next, pp.forest, pp.cur, new', [s])
    decreases |ds|, 2
  {
    if ds[0].Say? {
      s := Text(ds[0].text);
      NamesOfOne(s);
      new' := BuildText(pp, ds[0].text);
      ok, rest := true, ds[1..];
    } else {
      ghost var r := Items(ds[1..]);
      ok, rest, new' := BuildBlock(pp, ds[0].name, ds[1..]);
      s := Named(ds[0].name, if r.Read? then r.ss else []);
    }
  }

  /** A base template, directive by directive, up to an endblock that belongs to
      no block of it. It fails exactly when it is broken, or names a block that
      exists, or two of its own alike. */
  method BuildItems(pp: Preprocessor, ds: seq<Directive>)
    returns (ok: bool, rest: seq<Directive>, ghost new': seq<Tree>)
    requires InBase(pp)
    modifies pp
    ensures ok <==> Items(ds).Read? && Fresh(Items(ds).ss, old(Taken(pp)))
    ensures ok ==> rest == Items(ds).rest
    ensures ok ==> InBase(pp) && pp.lev == old(pp.lev) && pp.cur == old(pp.cur)
    ensures ok ==> Built(old(pp.h), old(pp.next), old(pp.forest), pp.h, pp.next, pp.forest, pp.cur, new', Items(ds).ss)
    decreases |ds|, 3
  {
    ghost var h0, n0, f0, p := pp.h, pp.next, pp.forest, pp.cur;
    ok, rest, new' := true, ds, [];
    if ds == [] || ds[0].Close? {
      AddNothing(f0, p);
      return;
    }
    if ds[0].Take? {
      ok := pp.InheritDirective([]);
      return;
    }
    ghost var s, tail;
    ghost var items := Items(ds);
    ok, rest, s, new' := BuildFirst(pp, ds);
    if items.Read? && items.ss != [] {
      FreshFirst(items.ss[0], items.ss[1..], Names(Erase(f0)));
      assert items.ss == [items.ss[0]] + items.ss[1..];
    }
    if ok {
      ghost var h1, n1, f1, first := pp.h, pp.next, pp.forest, new';
      ghost var more := Items(rest);
      AddAtNames(f0, p, first);
      ok, rest, tail := BuildItems(pp, rest);
      if ok {
        BuiltThen(h0, n0, f0, h1, n1, f1, pp.h, pp.next, pp.forest, p, first, [s], tail, more.ss);
        new' := first + tail;
      }
    }
  }

  // ---- the child template ----

  /** One part of a block that overrides another. */
  ghost predicate Filling(pp: Preprocessor, prev: seq<Tree>)
    reads pp
  {
    && pp.Valid() && pp.extending == 2 && pp.lev == 1 && pp.cur != TOP && IsBlock(pp.forest, pp.cur)
    && pp.h[pp.cur].ancestor.Some?
    && var a := pp.h[pp.cur].ancestor.value;
       a in pp.h && pp.Spare(a, pp.h[a].children, prev)
  }

  /** Text in an overriding block. */
  method FillText(pp: Preprocessor, text: string, ghost prev: seq<Tree>) returns (ghost new': seq<Tree>)
    requires Filling(pp, prev)
    modifies pp`h, pp`next, pp`forest
    ensures Filling(pp, prev) && pp.forest == Add(old(pp.forest), pp.cur, new')
    ensures Erase(new') == [Text(text)] && pp.cur !in Ids(new') && pp.h[pp.cur].name == old(pp.h[pp.cur].name)
  {
    ghost var h0, f0, a := pp.h, pp.forest, pp.h[pp.cur].ancestor.value;
    RepIds(h0, TOP, h0[TOP].children, f0);
    RepIds(h0, a, h0[a].children, prev);
    new' := [Leaf(pp.next, text)];
    assert Ids(new') == {pp.next};
    AddFacts(f0, pp.cur, new');
    pp.TextBlock(text);
    RepFrame(h0, pp.h, a, h0[a].children, prev);
  }

  /** One part of the body: text, or what there is left to inherit. */
  method FillPart(pp: Preprocessor, part: Part, ghost prev: seq<Tree>) returns (ghost new': seq<Tree>)
    requires Filling(pp, prev)
    modifies pp`h, pp`next, pp`forest
    ensures Filling(pp, if part.Inherit? then [] else prev)
    ensures pp.forest == Add(old(pp.forest), pp.cur, new') && pp.cur !in Ids(new')
    ensures pp.h[pp.cur].name == old(pp.h[pp.cur].name)
    ensures Erase(new') == match part case Words(text) => [Text(text)] case Inherit => Erase(prev)
  {
    match part {
      case Words(text) =>
        new' := FillText(pp, text, prev);
      case Inherit =>
        new' := prev;
        var ok := pp.InheritDirective(prev);
    }
  }

  /** The body of a block that overrides one with the children `prev`. */
  method FillBlock(pp: Preprocessor, body: seq<Part>, ghost prev: seq<Tree>) returns (ghost kids: seq<Tree>)
    requires Filling(pp, prev)
    modifies pp`h, pp`next, pp`forest
    ensures pp.Valid() && pp.forest == Add(old(pp.forest), pp.cur, kids) && Erase(kids) == Expand(body, Erase(prev))
    ensures pp.h[pp.cur].name == old(pp.h[pp.cur].name)
    decreases |body|
  {
    if body == [] {
      AddNothing(pp.forest, pp.cur);
      return [];
    }
    ghost var f0 := pp.forest;
    ghost var first := FillPart(pp, body[0], prev);
    ghost var rest := FillBlock(pp, body[1..], if body[0].Inherit? then [] else prev);
    kids := first + rest;
    AddTwice(f0, pp.cur, first, rest);
    EraseAppend(first, rest);
  }

  /** The body of a block that overrides nothing. */
  method FillDead(pp: Preprocessor, body: seq<Part>) returns (ok: bool)
    requires pp.Valid() && pp.extending == 2 && pp.lev == 1
    requires pp.cur != TOP && pp.cur !in Ids(pp.forest) && pp.h[pp.cur].ancestor.None?
    modifies pp`h, pp`next, pp`forest
    ensures ok <==> Inherit !in body
    ensures ok ==> pp.Valid() && pp.forest == old(pp.forest) && pp.h[pp.cur].name == old(pp.h[pp.cur].name)
  {
    if IsBlock(pp.forest, pp.cur) {
      BlockIsId(pp.forest, pp.cur);
    }
    for i := 0 to |body|
      invariant pp.Valid() && pp.cur != TOP && pp.forest == old(pp.forest) && pp.h[pp.cur].ancestor.None?
      invariant !IsBlock(pp.forest, pp.cur) && pp.h[pp.cur].name == old(pp.h[pp.cur].name)
      invariant Inherit !in body[..i]
    {
      assert body[..i + 1] == body[..i] + [body[i]];
      if body[i].Words? {
        pp.TextBlock(body[i].text);
      } else {
        ok := pp.InheritDirective([]);
        assert body[i] in body;
        return;
      }
    }
    assert body[..|body|] == body;
    ok := true;
  }

  /** A block of the child template, from block to endblock. An inherit in a
      block that overrides nothing is an error, and so is an endblock that gives
      another name. */
  method OverrideBlock(pp: Preprocessor, name: string, body: seq<Part>, close: Option<string>) returns (ok: bool)
    requires pp.Valid() && pp.extending == 1 && pp.lev == 0 && pp.cur == TOP && UniqueNames(Erase(pp.forest))
    modifies pp
    ensures ok <==> MayInherit(Erase(old(pp.forest)), name, body) && Closes(Close(close), name)
    ensures ok ==> pp.Valid() && pp.extending == 1 && pp.lev == 0 && pp.cur == TOP
    ensures ok ==> Erase(pp.forest) == Overridden(Erase(old(pp.forest)), name, body)
  {
    ghost var f0 := pp.forest;
    FindNames(f0, name);
    pp.OverridingBlock(name);
    ghost var c := pp.cur;
    if pp.h[pp.cur].ancestor.None? {
      ok := FillDead(pp, body);
      OverriddenAbsent(Erase(f0), name, body);
    } else {
      ghost var o := pp.h[c].ancestor.value;
      ghost var kids := FillBlock(pp, body, KidsOf(f0, o));
      FillSubst(f0, o, c, name, kids);
      SubstOverrides(f0, name, c, kids, body);
      ok := true;
    }
    if ok {
      ok := pp.EndBlock(close);
    }
  }

  predicate MayInherit(ss: seq<Shape>, name: string, body: seq<Part>) {
    Lower(name) in Names(ss) || Inherit !in body
  }

  /** No block of the child inherits from nothing, and each is closed by its own
      name or none. */
  predicate Legal(ss: seq<Shape>, items: seq<Item>)
    decreases |items|
  {
    items == [] ||
    match items[0]
    case Outside(_) => Legal(ss, items[1..])
    case Override(name, body, close) =>
      && MayInherit(ss, name, body) && Closes(Close(close), name)
      && Legal(Overridden(ss, name, body), items[1..])
  }

  /** A whole child template. */
  method ExtendWith(pp: Preprocessor, items: seq<Item>) returns (ok: bool)
    requires pp.Valid() && pp.extending == 1 && pp.lev == 0 && pp.cur == TOP && UniqueNames(Erase(pp.forest))
    modifies pp
    ensures ok <==> Legal(Erase(old(pp.forest)), items)
    ensures ok ==> pp.Valid() && pp.lev == 0 && Erase(pp.forest) == Extended(Erase(old(pp.forest)), items)
  {
    ghost var ss := Erase(pp.forest);
    for i := 0 to |items|
      invariant pp.Valid() && pp.extending == 1 && pp.lev == 0 && pp.cur == TOP && UniqueNames(Erase(pp.forest))
      invariant Legal(ss, items) == Legal(Erase(pp.forest), items[i..])
      invariant Extended(ss, items) == Extended(Erase(pp.forest), items[i..])
    {
      assert items[i..][0] == items[i] && items[i..][1..] == items[i + 1..];
      match items[i] {
        case Outside(text) =>
          pp.TextBlock(text);
        case Override(name, body, close) =>
          OverriddenNames(Erase(pp.forest), name, body);
          ok := OverrideBlock(pp, name, body, close);
          if !ok {
            return;
          }
      }
    }
    ok := true;
  }

  /** translate, up to the printed page: a base template as it is written, and a
      child that extends it. It fails exactly on a base that is broken, has an
      endblock too many or repeats a block name, and on a child that is not
      legal. */
  method Translate(base: seq<Directive>, items: seq<Item>) returns (ok: bool, page: string)
    ensures ok <==> var r := Items(base);
                    r.Read? && r.rest == [] && UniqueNames(r.ss) && Legal(r.ss, items)
    ensures ok ==> page == PrintShapes(Extended(Items(base).ss, items))
  {
    page := "";
    var pp := new Preprocessor();
    ghost var new';
    var rest;
    assert Names(Erase(pp.forest)) == {};
    ok, rest, new' := BuildItems(pp, base);
    if ok {
      assert [] + new' == new';
      if rest != [] {
        ok := pp.EndBlock(rest[0].tag);
        return;
      }
      pp.extending := pp.extending + 1;
      ok := ExtendWith(pp, items);
      if ok {
        page := PrintList(pp.h, TOP, pp.h[TOP].children, pp.forest);
        PrintErase(pp.forest);
      }
    }
  }

  // ---- all overrides at once ----

  /** The blocks of a child by name. */
  function Blocks(items: seq<Item>): map<string, Item> {
    if items == [] then map[]
    else if items[0].Outside? then Blocks(items[1..])
    else Blocks(items[1..])[Lower(items[0].name) := items[0]]
  }

  /** Every named block given the body that the child has for it, in one go. */
  function Substituted(ss: seq<Shape>, m: map<string, Item>): seq<Shape> {
    if ss == [] then []
    else
      [match ss[0]
       case Text(_) => ss[0]
       case Named(n, kids) =>
         var inside := Substituted(kids, m);
         if Lower(n) in m && m[Lower(n)].Override? then
           Named(m[Lower(n)].name, Expand(m[Lower(n)].body, inside))
         else Named(n, inside)]
      + Substituted(ss[1..], m)
  }

  lemma {:induction false} ExpandOverridden(b: seq<Part>, ss: seq<Shape>, name: string, body: seq<Part>)
    ensures Overridden(Expand(b, ss), name, body) == Expand(b, Overridden(ss, name, body))
    decreases |b|
  {
    if b != [] {
      if b[0].Words? {
        ExpandOverridden(b[1..], ss, name, body);
        OverriddenAppend([Text(b[0].text)], Expand(b[1..], ss), name, body);
      } else {
        ExpandOverridden(b[1..], [], name, body);
        OverriddenAppend(ss, Expand(b[1..], []), name, body);
      }
    }
  }

  lemma {:induction false} OverriddenAppend(a: seq<Shape>, b: seq<Shape>, name: string, body: seq<Part>)
    ensures Overridden(a + b, name, body) == Overridden(a, name, body) + Overridden(b, name, body)
    decreases |a|
  {
    if a == [] {
      assert a + b == b;
    } else {
      assert (a + b)[1..] == a[1..] + b;
      OverriddenAppend(a[1..], b, name, body);
    }
  }

  lemma {:induction false} SubstitutedAbsent(ss: seq<Shape>, m: map<string, Item>, l: string, it: Item)
    requires l !in Names(ss)
    ensures Substituted(ss, m[l := it]) == Substituted(ss, m)
    decreases ss
  {
    if ss != [] {
      SubstitutedAbsent(ss[1..], m, l, it);
      if ss[0].Named? {
        SubstitutedAbsent(ss[0].kids, m, l, it);
      }
    }
  }

  lemma {:induction false} NothingSubstituted(ss: seq<Shape>)
    ensures Substituted(ss, map[]) == ss
    decreases ss
  {
    if ss != [] {
      NothingSubstituted(ss[1..]);
      if ss[0].Named? {
        NothingSubstituted(ss[0].kids);
      }
    }
  }

  /** Names written so that overriding keeps the key. */
  predicate Keyed(m: map<string, Item>) {
    forall l :: l in m ==> m[l].Override? && Lower(m[l].name) == l
  }

  /** One more override after the others is one more in the table. */
  lemma {:induction false} OneMore(ss: seq<Shape>, m: map<string, Item>, it: Item, name: string, body: seq<Part>)
    requires UniqueNames(ss) && Keyed(m) && Lower(name) !in m && it.Override? && it.name == name && it.body == body
    ensures Overridden(Substituted(ss, m), name, body)
         == Substituted(ss, m[Lower(name) := it])
    decreases ss
  {
    if ss != [] {
      var m' := m[Lower(name) := it];
      var r := Substituted(ss, m);
      assert r[1..] == Substituted(ss[1..], m);
      OneMore(ss[1..], m, it, name, body);
      if ss[0].Named? {
        OneMore(ss[0].kids, m, it, name, body);
        var l := Lower(ss[0].name);
        if l == Lower(name) {
          SubstitutedAbsent(ss[0].kids, m, l, it);
        } else if l in m {
          ExpandOverridden(m[l].body, Substituted(ss[0].kids, m), name, body);
        }
      }
    }
  }

  /** No block is overridden twice. */
  predicate Once(items: seq<Item>) {
    items == [] ||
    (Once(items[1..]) && (items[0].Override? ==> Lower(items[0].name) !in Blocks(items[1..])))
  }

  lemma {:induction false} ExtendedFrom(ss: seq<Shape>, m: map<string, Item>, items: seq<Item>)
    requires UniqueNames(ss) && Keyed(m) && Once(items) && Blocks(items).Keys !! m.Keys
    ensures Extended(Substituted(ss, m), items) == Substituted(ss, m + Blocks(items))
    decreases |items|
  {
    if items == [] {
      assert m + map[] == m;
    } else if items[0].Outside? {
      ExtendedFrom(ss, m, items[1..]);
    } else {
      var name, body := items[0].name, items[0].body;
      OneMore(ss, m, items[0], name, body);
      var m' := m[Lower(name) := items[0]];
      ExtendedFrom(ss, m', items[1..]);
      assert m' + Blocks(items[1..]) == m + Blocks(items);
    }
  }

  /** With each block overridden once, the replacements made one by one are the
      substitution of all of them at once, so their order does not matter, even
      for a block inside another that is overridden too. */
  lemma {:induction false} ExtendedAtOnce(base: seq<Shape>, items: seq<Item>)
    requires UniqueNames(base) && Once(items)
    ensures Extended(base, items) == Substituted(base, Blocks(items))
  {
    NothingSubstituted(base);
    ExtendedFrom(base, map[], items);
    assert map[] + Blocks(items) == Blocks(items);
  }
}

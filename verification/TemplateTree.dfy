/**
  Block trees of the template preprocessor: the tree with the address of every
  node, its representation in a store of linked nodes, and the edits that the
  directives of src/libtrans/translat.c make.
 */
module TemplateTree {
  import opened Wrappers

  type Ref = nat

  /** struct kblock_s. */
  datatype Node = Node(name: Option<string>, text: string, parent: Ref, ancestor: Option<Ref>, children: seq<Ref>)

  type Heap = map<Ref, Node>

  /** A block tree: an unnamed block with text, or a named one with children. */
  datatype Tree = Leaf(id: Ref, text: string) | Block(id: Ref, name: string, kids: seq<Tree>)

  function Lower(s: string): string {
    if s == "" then "" else
      [if 'A' <= s[0] <= 'Z' then ((s[0] as int) + 32) as char else s[0]] + Lower(s[1..])
  }

  /** strcasecmp. */
  predicate Same(a: string, b: string) {
    Lower(a) == Lower(b)
  }

  predicate IsLetter(c: char) {
    'A' <= c <= 'Z' || 'a' <= c <= 'z'
  }

  /** Equal, or the two cases of one letter. */
  predicate Alike(c: char, d: char) {
    c == d || (IsLetter(c) && IsLetter(d) && (c as int == d as int + 32 || d as int == c as int + 32))
  }

  lemma {:induction false} LowerBytes(s: string)
    ensures |Lower(s)| == |s|
    ensures forall i :: 0 <= i < |s| ==>
              Lower(s)[i] == if 'A' <= s[i] <= 'Z' then ((s[i] as int) + 32) as char else s[i]
  {
    if s != "" {
      LowerBytes(s[1..]);
    }
  }

  /** Two names are the same if and only if they agree byte by byte but for the
      case of letters. */
  lemma {:induction false} SameIs(a: string, b: string)
    ensures Same(a, b) <==> |a| == |b| && forall i :: 0 <= i < |a| ==> Alike(a[i], b[i])
  {
    LowerBytes(a);
    LowerBytes(b);
    if |a| == |b| {
      assert Same(a, b) <==> forall i :: 0 <= i < |a| ==> Lower(a)[i] == Lower(b)[i];
      assert forall i :: 0 <= i < |a| ==> (Lower(a)[i] == Lower(b)[i] <==> Alike(a[i], b[i]));
    }
  }

  function Ids(ts: seq<Tree>): set<Ref> {
    if ts == [] then {}
    else {ts[0].id} + (if ts[0].Block? then Ids(ts[0].kids) else {}) + Ids(ts[1..])
  }

  /** No node sits in two places. */
  predicate Distinct(ts: seq<Tree>) {
    ts == [] ||
    (&& ts[0].id !in Ids(ts[1..]) && Distinct(ts[1..])
     && (ts[0].Block? ==>
           && ts[0].id !in Ids(ts[0].kids) && Ids(ts[0].kids) !! Ids(ts[1..]) && Distinct(ts[0].kids)))
  }

  /** The list `ids` of children of `p` represents the trees `ts`: names, texts
      and lists agree, and every parent link matches the list it sits in. */
  predicate Rep(h: Heap, p: Ref, ids: seq<Ref>, ts: seq<Tree>)
    decreases ts
  {
    && |ids| == |ts|
    && (ts != [] ==>
          && ids[0] == ts[0].id && ids[0] in h && h[ids[0]].parent == p
          && (match ts[0]
              case Leaf(_, text) => h[ids[0]].name == None && h[ids[0]].text == text && h[ids[0]].children == []
              case Block(_, name, kids) =>
                h[ids[0]].name == Some(name) && Rep(h, ids[0], h[ids[0]].children, kids))
          && Rep(h, p, ids[1..], ts[1..]))
  }

  /** ppctx_print_kblock over a list of children. */
  function Print(ts: seq<Tree>): string {
    if ts == [] then ""
    else (if ts[0].Leaf? then ts[0].text else Print(ts[0].kids)) + Print(ts[1..])
  }

  /** Some block of the trees has the address `p`. */
  predicate IsBlock(ts: seq<Tree>, p: Ref) {
    ts != [] && (
      || (ts[0].Block? && (ts[0].id == p || IsBlock(ts[0].kids, p)))
      || IsBlock(ts[1..], p))
  }

  /** `t` appended to the children of block `p`. */
  function Add(ts: seq<Tree>, p: Ref, new': seq<Tree>): seq<Tree> {
    if ts == [] then []
    else
      (match ts[0]
       case Leaf(_, _) => [ts[0]]
       case Block(id, name, kids) => [Block(id, name, if id == p then kids + new' else Add(kids, p, new'))])
      + Add(ts[1..], p, new')
  }

  /** The tree with address `o` replaced by `t`. */
  function Subst(ts: seq<Tree>, o: Ref, t: Tree): seq<Tree> {
    if ts == [] then []
    else
      (if ts[0].id == o then [t]
       else match ts[0]
            case Leaf(_, _) => [ts[0]]
            case Block(id, name, kids) => [Block(id, name, Subst(kids, o, t))])
      + Subst(ts[1..], o, t)
  }

  function Swap(ids: seq<Ref>, o: Ref, c: Ref): seq<Ref> {
    if ids == [] then [] else [if ids[0] == o then c else ids[0]] + Swap(ids[1..], o, c)
  }

  // ---- representation ----

  lemma {:induction false} RepFrame(h: Heap, h': Heap, p: Ref, ids: seq<Ref>, ts: seq<Tree>)
    requires Rep(h, p, ids, ts)
    requires forall x :: x in Ids(ts) && x in h ==> x in h' && h'[x] == h[x]
    ensures Rep(h', p, ids, ts)
    decreases ts
  {
    if ts != [] {
      if ts[0].Block? {
        RepFrame(h, h', ids[0], h[ids[0]].children, ts[0].kids);
      }
      RepFrame(h, h', p, ids[1..], ts[1..]);
    }
  }

  lemma {:induction false} RepIds(h: Heap, p: Ref, ids: seq<Ref>, ts: seq<Tree>)
    requires Rep(h, p, ids, ts)
    ensures forall x :: x in Ids(ts) ==> x in h
    ensures forall x :: x in ids ==> x in Ids(ts)
    decreases ts
  {
    if ts != [] {
      if ts[0].Block? {
        RepIds(h, ids[0], h[ids[0]].children, ts[0].kids);
      }
      RepIds(h, p, ids[1..], ts[1..]);
      assert ids == [ids[0]] + ids[1..];
    }
  }

  lemma {:induction false} RepAppend(h: Heap, p: Ref, ids: seq<Ref>, ts: seq<Tree>, ids': seq<Ref>, ts': seq<Tree>)
    requires Rep(h, p, ids, ts) && Rep(h, p, ids', ts')
    ensures Rep(h, p, ids + ids', ts + ts')
    decreases |ts|
  {
    if ts == [] {
      assert ids + ids' == ids' && ts + ts' == ts';
    } else {
      RepAppend(h, p, ids[1..], ts[1..], ids', ts');
      assert (ids + ids')[1..] == ids[1..] + ids' && (ts + ts')[1..] == ts[1..] + ts';
    }
  }

  lemma {:induction false} IdsAppend(a: seq<Tree>, b: seq<Tree>)
    ensures Ids(a + b) == Ids(a) + Ids(b)
    ensures Distinct(a + b) <==> Distinct(a) && Distinct(b) && Ids(a) !! Ids(b)
    decreases |a|
  {
    if a == [] {
      assert a + b == b;
    } else {
      assert (a + b)[1..] == a[1..] + b;
      IdsAppend(a[1..], b);
    }
  }

  lemma {:induction false} BlockIsId(ts: seq<Tree>, p: Ref)
    requires IsBlock(ts, p)
    ensures p in Ids(ts)
    decreases ts
  {
    if ts[0].Block? && IsBlock(ts[0].kids, p) {
      BlockIsId(ts[0].kids, p);
    } else if !(ts[0].Block? && ts[0].id == p) {
      BlockIsId(ts[1..], p);
    }
  }

  lemma {:induction false} AddAbsent(ts: seq<Tree>, p: Ref, new': seq<Tree>)
    requires p !in Ids(ts)
    ensures Add(ts, p, new') == ts
    decreases ts
  {
    if ts != [] {
      if ts[0].Block? {
        AddAbsent(ts[0].kids, p, new');
      }
      AddAbsent(ts[1..], p, new');
    }
  }

  lemma {:induction false} SubstAbsent(ts: seq<Tree>, o: Ref, t: Tree)
    requires o !in Ids(ts)
    ensures Subst(ts, o, t) == ts
    decreases ts
  {
    if ts != [] {
      if ts[0].Block? {
        SubstAbsent(ts[0].kids, o, t);
      }
      SubstAbsent(ts[1..], o, t);
    }
  }

  /** Appending to a live block, in the store and in the tree. */
  lemma {:induction false} RepAdd(
      h: Heap, h': Heap, q: Ref, ids: seq<Ref>, ts: seq<Tree>, p: Ref, ns: seq<Ref>, new': seq<Tree>)
    requires Rep(h, q, ids, ts) && Distinct(ts) && IsBlock(ts, p) && p in h && p in h'
    requires h'[p] == h[p].(children := h[p].children + ns) && Rep(h', p, ns, new')
    requires forall x :: x in Ids(ts) && x != p && x in h ==> x in h' && h'[x] == h[x]
    ensures Rep(h', q, ids, Add(ts, p, new'))
    decreases ts
  {
    var t := ts[0];
    if t.Block? && t.id == p {
      RepFrame(h, h', p, h[p].children, t.kids);
      RepAppend(h', p, h[p].children, t.kids, ns, new');
      AddAbsent(ts[1..], p, new');
      RepFrame(h, h', q, ids[1..], ts[1..]);
    } else if t.Block? && IsBlock(t.kids, p) {
      BlockIsId(t.kids, p);
      RepAdd(h, h', t.id, h[t.id].children, t.kids, p, ns, new');
      AddAbsent(ts[1..], p, new');
      RepFrame(h, h', q, ids[1..], ts[1..]);
    } else {
      BlockIsId(ts[1..], p);
      RepAdd(h, h', q, ids[1..], ts[1..], p, ns, new');
      if t.Block? {
        AddAbsent(t.kids, p, new');
        RepFrame(h, h', t.id, h[t.id].children, t.kids);
      }
    }
  }

  lemma {:induction false} AddFacts(ts: seq<Tree>, p: Ref, new': seq<Tree>)
    requires Distinct(ts) && IsBlock(ts, p) && Distinct(new') && Ids(ts) !! Ids(new')
    ensures Ids(Add(ts, p, new')) == Ids(ts) + Ids(new') && Distinct(Add(ts, p, new'))
    ensures forall b :: IsBlock(ts, b) ==> IsBlock(Add(ts, p, new'), b)
    decreases ts
  {
    var t := ts[0];
    var r := Add(ts, p, new');
    assert r[0].id == t.id && r[1..] == Add(ts[1..], p, new');
    if t.Block? && t.id == p {
      AddAbsent(ts[1..], p, new');
      IdsAppend(t.kids, new');
      forall b | IsBlock(t.kids, b) ensures IsBlock(t.kids + new', b) {
        BlockAppend(t.kids, new', b);
      }
    } else if t.Block? && IsBlock(t.kids, p) {
      BlockIsId(t.kids, p);
      AddAbsent(ts[1..], p, new');
      AddFacts(t.kids, p, new');
    } else {
      BlockIsId(ts[1..], p);
      AddFacts(ts[1..], p, new');
      if t.Block? {
        AddAbsent(t.kids, p, new');
      }
    }
  }

  lemma {:induction false} BlockAppend(a: seq<Tree>, b: seq<Tree>, p: Ref)
    ensures IsBlock(a + b, p) <==> IsBlock(a, p) || IsBlock(b, p)
    decreases |a|
  {
    if a == [] {
      assert a + b == b;
    } else {
      assert (a + b)[1..] == a[1..] + b;
      BlockAppend(a[1..], b, p);
    }
  }

  lemma {:induction false} SwapAbsent(ids: seq<Ref>, o: Ref, c: Ref)
    requires o !in ids
    ensures Swap(ids, o, c) == ids
  {
    if ids != [] {
      assert ids[0] in ids;
      SwapAbsent(ids[1..], o, c);
    }
  }

  lemma {:induction false} ParentInside(h: Heap, q: Ref, ids: seq<Ref>, ts: seq<Tree>, o: Ref)
    requires Rep(h, q, ids, ts) && o in Ids(ts)
    ensures o in h && (h[o].parent == q || h[o].parent in Ids(ts))
    ensures o in ids ==> h[o].parent == q
    decreases ts
  {
    if ts[0].id != o {
      if ts[0].Block? && o in Ids(ts[0].kids) {
        ParentInside(h, ids[0], h[ids[0]].children, ts[0].kids, o);
      } else {
        ParentInside(h, q, ids[1..], ts[1..], o);
      }
    }
    InList(h, q, ids, ts);
  }

  lemma {:induction false} InList(h: Heap, q: Ref, ids: seq<Ref>, ts: seq<Tree>)
    requires Rep(h, q, ids, ts)
    ensures forall x :: x in ids ==> x in h && h[x].parent == q
    decreases |ts|
  {
    if ts != [] {
      InList(h, q, ids[1..], ts[1..]);
      assert ids == [ids[0]] + ids[1..];
    }
  }

  /** Replacing a live node, in the list of its parent and in the tree. */
  lemma {:induction false} RepSubst(
      h: Heap, h': Heap, q: Ref, ids: seq<Ref>, ts: seq<Tree>, o: Ref, par: Ref, c: Ref, t: Tree)
    requires Rep(h, q, ids, ts) && Distinct(ts) && o in Ids(ts) && o in h && h[o].parent == par && q !in Ids(ts)
    requires par in h && par in h' && h'[par] == h[par].(children := Swap(h[par].children, o, c))
    requires forall x :: x in Ids(ts) && x != par && x in h ==> x in h' && h'[x] == h[x]
    requires Rep(h', par, [c], [t])
    ensures Rep(h', q, if q == par then Swap(ids, o, c) else ids, Subst(ts, o, t))
    decreases ts
  {
    var t0, tail := ts[0], ts[1..];
    RepIds(h, q, ids[1..], tail);
    if t0.id == o {
      SubstAbsent(tail, o, t);
      SwapAbsent(ids[1..], o, c);
      RepFrame(h, h', q, ids[1..], tail);
      RepAppend(h', q, [c], [t], ids[1..], tail);
    } else if t0.Block? && o in Ids(t0.kids) {
      ParentInside(h, t0.id, h[t0.id].children, t0.kids, o);
      RepSubst(h, h', t0.id, h[t0.id].children, t0.kids, o, par, c, t);
      SubstAbsent(tail, o, t);
      RepFrame(h, h', q, ids[1..], tail);
    } else {
      ParentInside(h, q, ids[1..], tail, o);
      RepSubst(h, h', q, ids[1..], tail, o, par, c, t);
      if t0.Block? {
        SubstAbsent(t0.kids, o, t);
        RepFrame(h, h', t0.id, h[t0.id].children, t0.kids);
      }
    }
  }

  /** The children of block `o`. */
  function KidsOf(ts: seq<Tree>, o: Ref): seq<Tree> {
    if ts == [] then []
    else if ts[0].id == o then (if ts[0].Block? then ts[0].kids else [])
    else if ts[0].Block? && o in Ids(ts[0].kids) then KidsOf(ts[0].kids, o)
    else KidsOf(ts[1..], o)
  }

  lemma {:induction false} KidsRep(h: Heap, q: Ref, ids: seq<Ref>, ts: seq<Tree>, o: Ref)
    requires Rep(h, q, ids, ts) && Distinct(ts) && IsBlock(ts, o)
    ensures o in h && Rep(h, o, h[o].children, KidsOf(ts, o)) && Distinct(KidsOf(ts, o))
    ensures Ids(KidsOf(ts, o)) <= Ids(ts) && o !in Ids(KidsOf(ts, o))
    decreases ts
  {
    if ts[0].Block? && ts[0].id == o {
    } else if ts[0].Block? && IsBlock(ts[0].kids, o) {
      BlockIsId(ts[0].kids, o);
      KidsRep(h, ids[0], h[ids[0]].children, ts[0].kids, o);
    } else {
      BlockIsId(ts[1..], o);
      KidsRep(h, q, ids[1..], ts[1..], o);
    }
  }

  lemma {:induction false} SubstFacts(ts: seq<Tree>, o: Ref, t: Tree)
    requires Distinct(ts) && o in Ids(ts) && t.Block? && t.kids == [] && t.id !in Ids(ts)
    ensures Distinct(Subst(ts, o, t)) && IsBlock(Subst(ts, o, t), t.id)
    ensures Ids(Subst(ts, o, t)) <= Ids(ts) + {t.id}
    ensures o !in Ids(Subst(ts, o, t)) && Ids(KidsOf(ts, o)) !! Ids(Subst(ts, o, t))
    decreases ts
  {
    var t0, r := ts[0], Subst(ts, o, t);
    assert r[1..] == Subst(ts[1..], o, t);
    if t0.id == o {
      SubstAbsent(ts[1..], o, t);
    } else if t0.Block? && o in Ids(t0.kids) {
      SubstAbsent(ts[1..], o, t);
      SubstFacts(t0.kids, o, t);
      KidsInside(t0.kids, o);
    } else {
      SubstFacts(ts[1..], o, t);
      KidsInside(ts[1..], o);
      if t0.Block? {
        SubstAbsent(t0.kids, o, t);
      }
    }
  }

  lemma {:induction false} KidsInside(ts: seq<Tree>, o: Ref)
    ensures Ids(KidsOf(ts, o)) <= Ids(ts)
    decreases ts
  {
    if ts != [] && ts[0].id != o {
      if ts[0].Block? && o in Ids(ts[0].kids) {
        KidsInside(ts[0].kids, o);
      } else {
        KidsInside(ts[1..], o);
      }
    }
  }

  /** A block put in place empty and filled later is one put in place full. */
  lemma {:induction false} FillSubst(ts: seq<Tree>, o: Ref, c: Ref, name: string, kids: seq<Tree>)
    requires Distinct(ts) && c !in Ids(ts)
    ensures Add(Subst(ts, o, Block(c, name, [])), c, kids) == Subst(ts, o, Block(c, name, kids))
    decreases ts
  {
    if ts != [] {
      var r := Subst(ts, o, Block(c, name, []));
      assert r[1..] == Subst(ts[1..], o, Block(c, name, []));
      FillSubst(ts[1..], o, c, name, kids);
      assert [] + kids == kids;
      if ts[0].Block? && ts[0].id != o {
        FillSubst(ts[0].kids, o, c, name, kids);
      }
    }
  }

  lemma {:induction false} FillAdd(ts: seq<Tree>, p: Ref, n: Ref, name: string, kids: seq<Tree>)
    requires n !in Ids(ts)
    ensures Add(Add(ts, p, [Block(n, name, [])]), n, kids) == Add(ts, p, [Block(n, name, kids)])
    decreases ts
  {
    if ts != [] {
      var e, f := [Block(n, name, [])], [Block(n, name, kids)];
      assert Add(ts, p, e)[1..] == Add(ts[1..], p, e);
      FillAdd(ts[1..], p, n, name, kids);
      if ts[0].Block? {
        if ts[0].id == p {
          AddSplit(ts[0].kids, e, n, kids);
          AddAbsent(ts[0].kids, n, kids);
          assert Add(e, n, kids) == f by {
            assert [] + kids == kids;
            assert e[1..] == [];
          }
        } else {
          FillAdd(ts[0].kids, p, n, name, kids);
        }
      }
    }
  }

  lemma {:induction false} AddSplit(a: seq<Tree>, b: seq<Tree>, p: Ref, new': seq<Tree>)
    ensures Add(a + b, p, new') == Add(a, p, new') + Add(b, p, new')
    decreases |a|
  {
    if a == [] {
      assert a + b == b;
    } else {
      assert (a + b)[0] == a[0] && (a + b)[1..] == a[1..] + b;
      AddSplit(a[1..], b, p, new');
      var s := Add(a, p, new')[0];
      assert Add(a, p, new') == [s] + Add(a[1..], p, new') && Add(a + b, p, new') == [s] + Add((a + b)[1..], p, new');
      TreesAssoc(s, Add(a[1..], p, new'), Add(b, p, new'));
    }
  }

  lemma {:induction false} TreesAssoc(t: Tree, a: seq<Tree>, b: seq<Tree>)
    ensures [t] + (a + b) == ([t] + a) + b
  {
  }

  lemma {:induction false} AddTwice(ts: seq<Tree>, p: Ref, a: seq<Tree>, b: seq<Tree>)
    requires p !in Ids(a)
    ensures Add(Add(ts, p, a), p, b) == Add(ts, p, a + b)
    decreases ts
  {
    if ts != [] {
      var r := Add(ts, p, a);
      assert r[0].id == ts[0].id && r[1..] == Add(ts[1..], p, a);
      AddTwice(ts[1..], p, a, b);
      if ts[0].Block? && ts[0].id == p {
        assert (ts[0].kids + a) + b == ts[0].kids + (a + b);
      } else if ts[0].Block? {
        AddTwice(ts[0].kids, p, a, b);
      }
    }
  }

  lemma {:induction false} AddNothing(ts: seq<Tree>, p: Ref)
    ensures Add(ts, p, []) == ts
    decreases ts
  {
    if ts != [] {
      AddNothing(ts[1..], p);
      if ts[0].Block? {
        AddNothing(ts[0].kids, p);
        assert ts[0].kids + [] == ts[0].kids;
      }
    }
  }

  // ---- names ----

  /** kblock_get_by_name: the first block of that name, depth first. */
  function Find(ts: seq<Tree>, name: string): Option<Ref> {
    if ts == [] then None
    else if ts[0].Block? && Same(ts[0].name, name) then Some(ts[0].id)
    else if ts[0].Block? && Find(ts[0].kids, name).Some? then Find(ts[0].kids, name)
    else Find(ts[1..], name)
  }

  /** The blocks of a tree, each before those inside it. */
  function InOrder(ts: seq<Tree>): seq<(Ref, string)> {
    if ts == [] then []
    else (if ts[0].Block? then [(ts[0].id, ts[0].name)] + InOrder(ts[0].kids) else []) + InOrder(ts[1..])
  }

  /** The first of that name in a list. */
  function FirstNamed(bs: seq<(Ref, string)>, name: string): Option<Ref> {
    if bs == [] then None else if Same(bs[0].1, name) then Some(bs[0].0) else FirstNamed(bs[1..], name)
  }

  lemma {:induction false} FirstNamedAppend(a: seq<(Ref, string)>, b: seq<(Ref, string)>, name: string)
    ensures FirstNamed(a + b, name) == if FirstNamed(a, name).Some? then FirstNamed(a, name) else FirstNamed(b, name)
  {
    if a == [] {
      assert a + b == b;
    } else {
      assert (a + b)[1..] == a[1..] + b;
      FirstNamedAppend(a[1..], b, name);
    }
  }

  /** The search finds the first block of that name in that order, or there is
      none. */
  lemma {:induction false} FindIsFirst(ts: seq<Tree>, name: string)
    ensures Find(ts, name) == FirstNamed(InOrder(ts), name)
    decreases ts
  {
    if ts != [] {
      FindIsFirst(ts[1..], name);
      if ts[0].Block? {
        var own, inner := [(ts[0].id, ts[0].name)], InOrder(ts[0].kids);
        FindIsFirst(ts[0].kids, name);
        FirstNamedAppend(own, inner, name);
        FirstNamedAppend(own + inner, InOrder(ts[1..]), name);
        assert own[1..] == [];
      } else {
        assert [] + InOrder(ts[1..]) == InOrder(ts[1..]);
      }
    }
  }

  lemma {:induction false} FirstNamedIs(bs: seq<(Ref, string)>, name: string)
    ensures match FirstNamed(bs, name)
            case None => forall j :: 0 <= j < |bs| ==> !Same(bs[j].1, name)
            case Some(r) => exists k :: 0 <= k < |bs| && bs[k] == (r, bs[k].1) && Same(bs[k].1, name) &&
                                        forall j :: 0 <= j < k ==> !Same(bs[j].1, name)
  {
    if bs != [] && !Same(bs[0].1, name) {
      FirstNamedIs(bs[1..], name);
      if FirstNamed(bs, name).Some? {
        var r := FirstNamed(bs, name).value;
        var k :| 0 <= k < |bs[1..]| && bs[1..][k] == (r, bs[1..][k].1) && Same(bs[1..][k].1, name) &&
                 forall j :: 0 <= j < k ==> !Same(bs[1..][j].1, name);
        assert bs[k + 1] == bs[1..][k];
        assert forall j :: 1 <= j < k + 1 ==> bs[j] == bs[1..][j - 1];
      } else {
        assert forall j :: 1 <= j < |bs| ==> bs[j] == bs[1..][j - 1];
      }
    }
  }

  lemma {:induction false} FindIsBlock(ts: seq<Tree>, name: string)
    requires Find(ts, name).Some?
    ensures IsBlock(ts, Find(ts, name).value)
    decreases ts
  {
    if !(ts[0].Block? && Same(ts[0].name, name)) {
      if ts[0].Block? && Find(ts[0].kids, name).Some? {
        FindIsBlock(ts[0].kids, name);
      } else {
        FindIsBlock(ts[1..], name);
      }
    }
  }

  // ---- what a page author sees ----

  /** A template without addresses. */
  datatype Shape = Text(text: string) | Named(name: string, kids: seq<Shape>)

  /** The body of a block of a child template: text and inherit directives. */
  datatype Part = Words(text: string) | Inherit

  /** A child template: text outside of blocks, and blocks, each with the name
      that its endblock gives, if any. */
  datatype Item = Outside(text: string) | Override(name: string, body: seq<Part>, close: Option<string>)

  /** A base template as it is written. */
  datatype Directive = Say(text: string) | Open(name: string) | Close(tag: Option<string>) | Take

  datatype Reading = Broken | Read(ss: seq<Shape>, rest: seq<Directive>)

  /** endblock may leave the name out. */
  predicate Closes(d: Directive, name: string) {
    d.Close? && (d.tag.Some? ==> Same(d.tag.value, name))
  }

  function Then(s: Shape, r: Reading): Reading {
    if r.Broken? then Broken else Read([s] + r.ss, r.rest)
  }

  /** The items up to an endblock that belongs to none of them. An inherit, a
      block left open or one closed by another name breaks the template. */
  function Items(ds: seq<Directive>): (r: Reading)
    ensures r.Read? ==> |r.rest| <= |ds| && (r.rest == [] || r.rest[0].Close?)
    decreases |ds|
  {
    if ds == [] then Read([], [])
    else match ds[0]
      case Say(text) => Then(Text(text), Items(ds[1..]))
      case Close(_) => Read([], ds)
      case Take => Broken
      case Open(name) =>
        var inner := Items(ds[1..]);
        if inner.Broken? || inner.rest == [] || !Closes(inner.rest[0], name) then Broken
        else Then(Named(name, inner.ss), Items(inner.rest[1..]))
  }

  /** A template written out, with unnamed endblocks. */
  function Written(ss: seq<Shape>): seq<Directive> {
    if ss == [] then []
    else (match ss[0]
          case Text(text) => [Say(text)]
          case Named(name, kids) => [Open(name)] + Written(kids) + [Close(None)])
         + Written(ss[1..])
  }

  /** Reading inverts writing, whatever comes behind. */
  lemma {:induction false} ReadWritten(ss: seq<Shape>, tail: seq<Directive>)
    requires tail == [] || tail[0].Close?
    ensures Items(Written(ss) + tail) == Read(ss, tail)
    decreases ss
  {
    if ss == [] {
      assert Written(ss) + tail == tail;
    } else {
      var rest := Written(ss[1..]) + tail;
      ReadWritten(ss[1..], tail);
      assert ss == [ss[0]] + ss[1..];
      match ss[0]
      case Text(text) =>
        assert Written(ss) + tail == [Say(text)] + rest;
        assert ([Say(text)] + rest)[1..] == rest;
      case Named(name, kids) =>
        var behind := [Close(None)] + rest;
        ReadWritten(kids, behind);
        RegroupWritten(name, Written(kids), Written(ss[1..]), tail);
        ReadBlock(name, Written(kids) + behind, kids, rest);
    }
  }

  lemma {:induction false} RegroupWritten(
      name: string, kids: seq<Directive>, others: seq<Directive>, tail: seq<Directive>)
    ensures ([Open(name)] + kids + [Close(None)] + others) + tail
         == [Open(name)] + (kids + ([Close(None)] + (others + tail)))
  {
  }

  lemma {:induction false} ReadBlock(name: string, ds: seq<Directive>, kids: seq<Shape>, rest: seq<Directive>)
    requires Items(ds) == Read(kids, [Close(None)] + rest)
    ensures Items([Open(name)] + ds) == Then(Named(name, kids), Items(rest))
  {
    var all := [Open(name)] + ds;
    assert all[0] == Open(name) && all[1..] == ds;
    assert ([Close(None)] + rest)[1..] == rest;
  }

  function Erase(ts: seq<Tree>): seq<Shape> {
    if ts == [] then []
    else [if ts[0].Leaf? then Text(ts[0].text) else Named(ts[0].name, Erase(ts[0].kids))] + Erase(ts[1..])
  }

  function PrintShapes(ss: seq<Shape>): string {
    if ss == [] then ""
    else (if ss[0].Text? then ss[0].text else PrintShapes(ss[0].kids)) + PrintShapes(ss[1..])
  }

  /** The body of an overriding block: the first inherit brings in what the
      block held before, later ones bring nothing. */
  function Expand(body: seq<Part>, previous: seq<Shape>): seq<Shape> {
    if body == [] then []
    else match body[0]
      case Words(text) => [Text(text)] + Expand(body[1..], previous)
      case Inherit => previous + Expand(body[1..], [])
  }

  /** The template with its block of that name given a new body. */
  function Overridden(ss: seq<Shape>, name: string, body: seq<Part>): seq<Shape> {
    if ss == [] then []
    else
      [match ss[0]
       case Text(_) => ss[0]
       case Named(n, kids) =>
         if Same(n, name) then Named(name, Expand(body, kids)) else Named(n, Overridden(kids, name, body))]
      + Overridden(ss[1..], name, body)
  }

  /** A base template extended by a child: one override after another. */
  function Extended(ss: seq<Shape>, items: seq<Item>): seq<Shape>
    decreases |items|
  {
    if items == [] then ss
    else match items[0]
      case Outside(_) => Extended(ss, items[1..])
      case Override(name, body, _) => Extended(Overridden(ss, name, body), items[1..])
  }

  function Names(ss: seq<Shape>): set<string> {
    if ss == [] then {}
    else (if ss[0].Named? then {Lower(ss[0].name)} + Names(ss[0].kids) else {}) + Names(ss[1..])
  }

  predicate UniqueNames(ss: seq<Shape>) {
    ss == [] ||
    (&& UniqueNames(ss[1..])
     && (ss[0].Named? ==>
           && Lower(ss[0].name) !in Names(ss[0].kids) + Names(ss[1..])
           && UniqueNames(ss[0].kids) && Names(ss[0].kids) !! Names(ss[1..])))
  }

  lemma {:induction false} PrintErase(ts: seq<Tree>)
    ensures Print(ts) == PrintShapes(Erase(ts))
    decreases ts
  {
    if ts != [] {
      PrintErase(ts[1..]);
      assert Erase(ts)[1..] == Erase(ts[1..]);
      if ts[0].Block? {
        PrintErase(ts[0].kids);
      }
    }
  }

  lemma {:induction false} EraseAppend(a: seq<Tree>, b: seq<Tree>)
    ensures Erase(a + b) == Erase(a) + Erase(b)
    decreases |a|
  {
    if a == [] {
      assert a + b == b;
    } else {
      assert (a + b)[1..] == a[1..] + b;
      EraseAppend(a[1..], b);
    }
  }

  lemma {:induction false} FindNames(ts: seq<Tree>, name: string)
    ensures Find(ts, name).Some? <==> Lower(name) in Names(Erase(ts))
    decreases ts
  {
    if ts != [] {
      assert Erase(ts)[1..] == Erase(ts[1..]);
      FindNames(ts[1..], name);
      if ts[0].Block? {
        FindNames(ts[0].kids, name);
      }
    }
  }

  lemma {:induction false} OverriddenAbsent(ss: seq<Shape>, name: string, body: seq<Part>)
    requires Lower(name) !in Names(ss)
    ensures Overridden(ss, name, body) == ss
    decreases ss
  {
    if ss != [] {
      OverriddenAbsent(ss[1..], name, body);
      if ss[0].Named? {
        OverriddenAbsent(ss[0].kids, name, body);
      }
    }
  }

  /** Replacing the node that a search finds is overriding by name. */
  lemma {:induction false} SubstOverrides(ts: seq<Tree>, name: string, c: Ref, kids: seq<Tree>, body: seq<Part>)
    requires Distinct(ts) && UniqueNames(Erase(ts)) && Find(ts, name).Some?
    requires Erase(kids) == Expand(body, Erase(KidsOf(ts, Find(ts, name).value)))
    ensures Erase(Subst(ts, Find(ts, name).value, Block(c, name, kids))) == Overridden(Erase(ts), name, body)
    decreases ts
  {
    var o, t := Find(ts, name).value, Block(c, name, kids);
    var e, tail := Erase(ts), Erase(ts[1..]);
    assert e[1..] == tail;
    FindIsBlock(ts, name);
    var r := Subst(ts, o, t);
    assert r[1..] == Subst(ts[1..], o, t);
    assert Erase(r)[1..] == Erase(r[1..]);
    if ts[0].Block? && Same(ts[0].name, name) {
      SubstAbsent(ts[1..], o, t);
      OverriddenAbsent(tail, name, body);
    } else if ts[0].Block? && Find(ts[0].kids, name).Some? {
      FindIsBlock(ts[0].kids, name);
      BlockIsId(ts[0].kids, o);
      FindNames(ts[0].kids, name);
      SubstAbsent(ts[1..], o, t);
      OverriddenAbsent(tail, name, body);
      SubstOverrides(ts[0].kids, name, c, kids, body);
    } else {
      FindIsBlock(ts[1..], name);
      BlockIsId(ts[1..], o);
      SubstOverrides(ts[1..], name, c, kids, body);
      if ts[0].Block? {
        FindNames(ts[0].kids, name);
        SubstAbsent(ts[0].kids, o, t);
        OverriddenAbsent(Erase(ts[0].kids), name, body);
      }
    }
  }

  lemma {:induction false} NamesAppend(a: seq<Shape>, b: seq<Shape>)
    ensures Names(a + b) == Names(a) + Names(b)
    ensures UniqueNames(a + b) <==> UniqueNames(a) && UniqueNames(b) && Names(a) !! Names(b)
    decreases |a|
  {
    if a == [] {
      assert a + b == b;
    } else {
      assert (a + b)[1..] == a[1..] + b;
      NamesAppend(a[1..], b);
    }
  }

  lemma {:induction false} ExpandNames(body: seq<Part>, previous: seq<Shape>)
    requires UniqueNames(previous)
    ensures Names(Expand(body, previous)) <= Names(previous) && UniqueNames(Expand(body, previous))
    decreases |body|
  {
    if body != [] {
      if body[0].Words? {
        ExpandNames(body[1..], previous);
        NamesAppend([Text(body[0].text)], Expand(body[1..], previous));
      } else {
        ExpandNames(body[1..], []);
        NamesAppend(previous, Expand(body[1..], []));
      }
    }
  }

  /** Overriding brings in no new name and repeats none. */
  lemma {:induction false} OverriddenNames(ss: seq<Shape>, name: string, body: seq<Part>)
    requires UniqueNames(ss)
    ensures Names(Overridden(ss, name, body)) <= Names(ss) && UniqueNames(Overridden(ss, name, body))
    decreases ss
  {
    if ss != [] {
      OverriddenNames(ss[1..], name, body);
      var r := Overridden(ss, name, body);
      assert r[1..] == Overridden(ss[1..], name, body);
      if ss[0].Named? {
        if Same(ss[0].name, name) {
          ExpandNames(body, ss[0].kids);
        } else {
          OverriddenNames(ss[0].kids, name, body);
        }
      }
    }
  }

  /** Extending keeps names unique, whatever the child template is. */
  lemma {:induction false} ExtendedNames(ss: seq<Shape>, items: seq<Item>)
    requires UniqueNames(ss)
    ensures UniqueNames(Extended(ss, items)) && Names(Extended(ss, items)) <= Names(ss)
    decreases |items|
  {
    if items != [] {
      if items[0].Override? {
        OverriddenNames(ss, items[0].name, items[0].body);
        ExtendedNames(Overridden(ss, items[0].name, items[0].body), items[1..]);
      } else {
        ExtendedNames(ss, items[1..]);
      }
    }
  }
}

/**
  The template inheritance preprocessor of src/libtrans/translat.c: directives
  working on linked nodes, for a base template and one child that extends it
  with blocks that are not nested.
 */
module Template {
  import opened Wrappers
  import opened TemplateTree

  const TOP: Ref := 0
  const DEAD: Ref := 1

  /** New trees below `p`; below a node that is not live nothing changes. */
  ghost function AddAt(ts: seq<Tree>, p: Ref, new': seq<Tree>): seq<Tree> {
    if p == TOP then ts + new' else if IsBlock(ts, p) then Add(ts, p, new') else ts
  }

  /** Old nodes are as they were, but for the list of children of `p`. */
  ghost predicate Grown(h0: Heap, h1: Heap, p: Ref) {
    forall x :: x in h0 ==> x in h1 && h1[x] == if x == p then h0[x].(children := h1[x].children) else h0[x]
  }

  /** struct ppctx_s. */
  class Preprocessor {
    var h: Heap
    var next: Ref
    var cur: Ref
    var lev: int
    var extending: int

    ghost var forest: seq<Tree>

    /** The live tree is a tree: what hangs below `top`, each node once, each
        parent link right. */
    ghost predicate Valid()
      reads this
    {
      && TOP in h && DEAD in h && cur in h && next >= 2 && (forall x :: x in h ==> x < next)
      && Rep(h, TOP, h[TOP].children, forest) && Distinct(forest)
      && TOP !in Ids(forest) && DEAD !in Ids(forest)
    }

    /** A node below which the model says what happens. */
    ghost predicate Placeable(p: Ref)
      reads this
    {
      p in h && (p == TOP || IsBlock(forest, p) || p !in Ids(forest))
    }

    /** ppctx_create. */
    constructor ()
      ensures Valid() && forest == [] && cur == TOP && lev == 0 && extending == 0 && h[TOP].ancestor.None?
    {
      h := map[TOP := Node(None, "", TOP, None, []), DEAD := Node(None, "", TOP, None, [])];
      next, cur, lev, extending, forest := 2, TOP, 0, 0, [];
    }

    /** kblock_create. */
    method Create(name: Option<string>, text: string) returns (n: Ref)
      requires Valid()
      modifies this`h, this`next
      ensures Valid() && n == old(next) && next == n + 1
      ensures h == old(h)[n := Node(name, text, TOP, None, [])]
    {
      n := next;
      RepIds(h, TOP, h[TOP].children, forest);
      h := h[n := Node(name, text, TOP, None, [])];
      next := next + 1;
      RepFrame(old(h), h, TOP, h[TOP].children, forest);
    }

    /** kblock_push_child, of a node that represents the tree `t`. */
    method Attach(p: Ref, c: Ref, ghost t: Tree)
      requires Valid() && Placeable(p) && c in h && c != p && c != TOP
      requires Rep(h[c := h[c].(parent := p)], p, [c], [t]) && Distinct([t])
      requires Ids([t]) !! Ids(forest) + {TOP, DEAD, p}
      modifies this`h, this`forest
      ensures Valid() && forest == AddAt(old(forest), p, [t])
      ensures p != TOP && p !in Ids(old(forest)) ==> forest == old(forest)
      ensures h == old(h)[p := old(h)[p].(children := old(h)[p].children + [c])][c := old(h)[c].(parent := p)]
    {
      ghost var f := AddAt(forest, p, [t]);
      Attached(h, forest, p, c, t);
      h := h[p := h[p].(children := h[p].children + [c])];
      h := h[c := h[c].(parent := p)];
      forest := f;
    }

    /** kblock_push_child, of a node just made. */
    method Push(p: Ref, n: Ref, ghost t: Tree)
      requires Valid() && Placeable(p) && n in h && n !in Ids(forest) + {TOP, DEAD, p}
      requires t == (if h[n].name.Some? then Block(n, h[n].name.value, []) else Leaf(n, h[n].text))
               && h[n].children == []
      modifies this`h, this`forest
      ensures Valid() && forest == AddAt(old(forest), p, [t])
      ensures p != TOP && p !in Ids(old(forest)) ==> forest == old(forest)
      ensures h == old(h)[p := old(h)[p].(children := old(h)[p].children + [n])][n := old(h)[n].(parent := p)]
    {
      assert Ids([t]) == {n};
      Attach(p, n, t);
    }

    /** cb_pre_html_block (and code blocks): a text block below the current
        one, or on the dead tree outside the blocks of a child template. */
    method TextBlock(text: string)
      requires Valid() && Placeable(cur)
      modifies this`h, this`next, this`forest
      ensures Valid() && next == old(next) + 1 && Placeable(cur)
      ensures old(cur) == TOP && extending != 0 ==> forest == old(forest)
      ensures !(old(cur) == TOP && extending != 0) ==>
                forest == AddAt(old(forest), cur, [Leaf(old(next), text)])
      ensures Grown(old(h), h, if cur == TOP && extending != 0 then DEAD else cur)
    {
      RepIds(h, TOP, h[TOP].children, forest);
      var n := Create(None, text);
      ghost var t := Leaf(n, text);
      if cur == TOP && extending != 0 {
        Push(DEAD, n, t);
      } else {
        if IsBlock(forest, cur) {
          assert Ids([t]) == {n};
          AddFacts(forest, cur, [t]);
        }
        Push(cur, n, t);
      }
    }

    /** kblock_get_by_name below node `p`: the first block of that name, depth
        first, with its place in the list of its parent. */
    method FindByName(p: Ref, name: string, ghost ts: seq<Tree>) returns (found: bool, o: Ref, idx: nat)
      requires p in h && Rep(h, p, h[p].children, ts)
      ensures found == Find(ts, name).Some?
      ensures found ==> o == Find(ts, name).value && o in h && h[o].parent in h
      ensures found ==> idx < |h[h[o].parent].children| && h[h[o].parent].children[idx] == o
      decreases ts
    {
      var ids := h[p].children;
      found, o, idx := false, p, 0;
      for i := 0 to |ids|
        invariant Rep(h, p, ids[i..], ts[i..]) && Find(ts, name) == Find(ts[i..], name)
      {
        var b := ids[i];
        assert b == ids[i..][0] && ts[i] == ts[i..][0];
        assert ids[i + 1..] == ids[i..][1..] && ts[i + 1..] == ts[i..][1..];
        if h[b].name.Some? && Same(h[b].name.value, name) {
          return true, b, i;
        }
        ghost var kids := if ts[i].Block? then ts[i].kids else ts[..0];
        found, o, idx := FindByName(b, name, kids);
        if found {
          return;
        }
      }
    }

    /** The list of the parent after insert and delete. */
    method SwapChild(par: Ref, idx: nat, o: Ref, n: Ref)
      requires par in h && idx < |h[par].children| && h[par].children[idx] == o && n != o
      requires forall i :: 0 <= i < |h[par].children| && i != idx ==> h[par].children[i] != o
      modifies this`h
      ensures h == old(h)[par := old(h)[par].(children := Swap(old(h)[par].children, o, n))]
    {
      var ids := h[par].children;
      var inserted := ids[..idx] + [n] + ids[idx..];
      var k := 0;
      while inserted[k] != o
        invariant 0 <= k <= idx + 1
        decreases idx + 1 - k
      {
        assert k < idx ==> inserted[k] == ids[k];
        k := k + 1;
      }
      assert k == idx + 1;
      SwapIsUpdate(ids, idx, o, n);
      h := h[par := h[par].(children := inserted[..k] + inserted[k + 1..])];
      assert inserted[..k] + inserted[k + 1..] == ids[idx := n];
    }

    /** The start of process_directive_block. */
    method Declare(name: string) returns (n: Ref, found: bool, o: Ref, idx: nat)
      requires Valid()
      modifies this`h, this`next, this`lev
      ensures Valid() && n == old(next) && next == n + 1 && lev == old(lev) + 1 && n !in Ids(forest) + {TOP, DEAD}
      ensures h == old(h)[n := Node(Some(name), "", TOP, None, [])]
      ensures found == Find(forest, name).Some?
      ensures found ==> o == Find(forest, name).value && o in h && h[o].parent in h
      ensures found ==> idx < |h[h[o].parent].children| && h[h[o].parent].children[idx] == o
    {
      RepIds(h, TOP, h[TOP].children, forest);
      n := Create(Some(name), "");
      lev := lev + 1;
      found, o, idx := FindByName(TOP, name, forest);
    }

    /** <% block name %> outside of a child template: a new block below the
        current one, unless the name is taken. */
    method NewBlock(name: string) returns (ok: bool)
      requires Valid() && extending == 0 && (cur == TOP || IsBlock(forest, cur))
      modifies this`h, this`next, this`forest, this`lev, this`cur
      ensures ok <==> Find(old(forest), name).None?
      ensures ok ==> Valid() && lev == old(lev) + 1 && cur == old(next) && next == old(next) + 1
      ensures ok ==> forest == AddAt(old(forest), old(cur), [Block(cur, name, [])]) && IsBlock(forest, cur)
      ensures ok ==> Grown(old(h), h, old(cur)) && h[cur] == Node(Some(name), "", old(cur), None, [])
    {
      var n, found, o, idx := Declare(name);
      if found {
        return false;
      }
      ghost var t := Block(n, name, []);
      AddedAt(forest, cur, t);
      Push(cur, n, t);
      cur := n;
      ok := true;
    }

    /** The new node takes the place of the old one in its parent's list. */
    method ReplaceBlock(name: string, n: Ref, o: Ref, idx: nat)
      requires Valid() && n in h && n !in Ids(forest) && n != TOP && n != DEAD
      requires h[n] == Node(Some(name), "", TOP, None, [])
      requires IsBlock(forest, o) && o in h && h[o].parent in h
      requires idx < |h[h[o].parent].children| && h[h[o].parent].children[idx] == o
      modifies this`h, this`forest
      ensures Valid() && next == old(next) && forest == Subst(old(forest), o, Block(n, name, [])) && IsBlock(forest, n)
      ensures n in h && h[n] == Node(Some(name), "", h[n].parent, Some(o), []) && o in h && o !in Ids(forest)
      ensures Rep(h, o, h[o].children, KidsOf(old(forest), o)) && Distinct(KidsOf(old(forest), o))
      ensures Ids(KidsOf(old(forest), o)) !! Ids(forest) + {TOP, DEAD, n, o}
    {
      ghost var h0, f := h, forest;
      var par := h[o].parent;
      BlockIsId(f, o);
      ParentList(h, TOP, f, o);
      h := h[n := h[n].(ancestor := Some(o), parent := par)];
      SwapChild(par, idx, o, n);
      Replaced(h0, h, f, o, n, name);
      forest := Subst(f, o, Block(n, name, []));
    }

    /** <% block name %> in a child template, outside of any block. The block of
        that name is replaced and remembered as ancestor; if there is none the
        new block goes to the dead tree. */
    method OverridingBlock(name: string)
      requires Valid() && extending > 0 && cur == TOP
      modifies this`h, this`next, this`forest, this`lev, this`cur, this`extending
      ensures Valid() && lev == old(lev) + 1 && extending == old(extending) + 1 && cur == old(next)
      ensures cur in h && h[cur].children == [] && h[cur].name == Some(name) && cur !in Ids(old(forest))
      ensures Find(old(forest), name).None? ==>
                forest == old(forest) && h[cur].ancestor == None
      ensures Find(old(forest), name).Some? ==>
                var o := Find(old(forest), name).value;
                && forest == Subst(old(forest), o, Block(cur, name, [])) && IsBlock(forest, cur)
                && h[cur].ancestor == Some(o) && o in h && o != cur
                && Rep(h, o, h[o].children, KidsOf(old(forest), o)) && Distinct(KidsOf(old(forest), o))
                && Ids(KidsOf(old(forest), o)) !! Ids(forest) + {TOP, DEAD, cur, o} && o !in Ids(forest)
    {
      var n, found, o, idx := Declare(name);
      extending := extending + 1;
      if !found {
        Push(DEAD, n, Block(n, name, []));
      } else {
        FindIsBlock(forest, name);
        BlockIsId(forest, o);
        ReplaceBlock(name, n, o, idx);
      }
      cur := n;
    }

    /** <% endblock %>: an error when no block is open or the name given is not
        the one of the open block. */
    method EndBlock(name: Option<string>) returns (ok: bool)
      requires cur in h
      modifies this`lev, this`cur, this`extending
      ensures ok <==> old(lev) > 0
                      && (name.Some? ==> h[old(cur)].name.Some? && Same(name.value, h[old(cur)].name.value))
      ensures lev == old(lev) - 1
      ensures ok ==> extending == if old(extending) != 0 then old(extending) - 1 else 0
      ensures ok ==> cur == if old(extending) == 2 then TOP else h[old(cur)].parent
    {
      lev := lev - 1;
      if lev < 0 {
        return false;
      }
      if name.Some? {
        if h[cur].name.None? || !Same(name.value, h[cur].name.value) {
          return false;
        }
      }
      cur := h[cur].parent;
      if extending != 0 {
        extending := extending - 1;
        if extending == 1 {
          cur := TOP;
        }
      }
      ok := true;
    }

    /** Trees below `a`, off the live tree, that may move to the current block. */
    ghost predicate Spare(a: Ref, ids: seq<Ref>, ts: seq<Tree>)
      reads this
    {
      && a in h && a != cur && a != TOP && a !in Ids(forest)
      && Rep(h, a, ids, ts) && Distinct(ts) && Ids(ts) !! Ids(forest) + {TOP, DEAD, cur, a}
    }

    /** One round of the inherit loop. */
    method MoveOne(a: Ref, ids: seq<Ref>, ghost ts: seq<Tree>)
      requires Valid() && IsBlock(forest, cur) && ids != [] && Spare(a, ids, ts)
      modifies this`h, this`forest
      ensures Valid() && IsBlock(forest, cur) && forest == Add(old(forest), cur, [ts[0]])
      ensures Spare(a, ids[1..], ts[1..]) && h[a] == old(h)[a]
      ensures h[cur] == old(h)[cur].(children := h[cur].children)
    {
      ghost var h0, f := h, forest;
      var c := ids[0];
      BlockIsId(f, cur);
      Detach(h, a, ids, ts, cur);
      AddFacts(f, cur, [ts[0]]);
      Attach(cur, c, ts[0]);
      RepFrame(h0, h, a, ids[1..], ts[1..]);
    }

    /** The loop of process_directive_inherit. */
    method MoveAll(a: Ref, ids: seq<Ref>, ghost ts: seq<Tree>)
      requires Valid() && IsBlock(forest, cur) && Spare(a, ids, ts)
      modifies this`h, this`forest
      ensures Valid() && IsBlock(forest, cur) && forest == Add(old(forest), cur, ts)
      ensures a in h && a !in Ids(forest) && h[cur] == old(h)[cur].(children := h[cur].children)
    {
      AddNothing(forest, cur);
      for i := 0 to |ids|
        invariant Valid() && IsBlock(forest, cur) && Spare(a, ids[i..], ts[i..])
        invariant forest == Add(old(forest), cur, ts[..i])
        invariant h[cur] == old(h)[cur].(children := h[cur].children)
      {
        MoveOne(a, ids[i..], ts[i..]);
        assert ids[i..][1..] == ids[i + 1..] && ts[i..][1..] == ts[i + 1..];
        AddNext(old(forest), cur, ts, i);
      }
      assert ts[..|ids|] == ts;
    }

    /** <% inherit %>: the children of the ancestor move to the current block,
        and the ancestor is left without any. An error in a block that overrides
        nothing. */
    method InheritDirective(ghost prev: seq<Tree>) returns (ok: bool)
      requires Valid() && (h[cur].ancestor.Some? ==> IsBlock(forest, cur))
      requires h[cur].ancestor.Some? ==>
                 var a := h[cur].ancestor.value;
                 a in h && Spare(a, h[a].children, prev)
      modifies this`h, this`forest
      ensures ok <==> old(h)[cur].ancestor.Some?
      ensures ok ==> Valid() && IsBlock(forest, cur) && forest == Add(old(forest), cur, prev)
      ensures ok ==> h[cur] == old(h)[cur].(children := h[cur].children)
      ensures ok ==> var a := h[cur].ancestor.value;
                     a in h && h[a].children == [] && Spare(a, [], [])
    {
      if h[cur].ancestor.None? {
        return false;
      }
      var a := h[cur].ancestor.value;
      MoveAll(a, h[a].children, prev);
      ghost var h0 := h;
      h := h[a := h[a].(children := [])];
      RepFrame(h0, h, TOP, h[TOP].children, forest);
      ok := true;
    }
  }

  /** A tree off the live one, appended to the list of `p`. */
  lemma {:induction false} Attached(h: Heap, f: seq<Tree>, p: Ref, c: Ref, t: Tree)
    requires TOP in h && Rep(h, TOP, h[TOP].children, f) && Distinct(f) && TOP !in Ids(f)
    requires p in h && (p == TOP || IsBlock(f, p) || p !in Ids(f)) && c in h && c != p && c != TOP
    requires Rep(h[c := h[c].(parent := p)], p, [c], [t]) && Distinct([t])
    requires Ids([t]) !! Ids(f) + {TOP, p}
    ensures var h' := h[p := h[p].(children := h[p].children + [c])][c := h[c].(parent := p)];
            Rep(h', TOP, h'[TOP].children, AddAt(f, p, [t]))
    ensures Distinct(AddAt(f, p, [t])) && Ids(AddAt(f, p, [t])) <= Ids(f) + Ids([t])
    ensures p != TOP && p !in Ids(f) ==> AddAt(f, p, [t]) == f
  {
    var h1 := h[c := h[c].(parent := p)];
    var h' := h[p := h[p].(children := h[p].children + [c])][c := h[c].(parent := p)];
    assert c in Ids([t]);
    RepFrame(h1, h', p, [c], [t]);
    if p == TOP {
      RepFrame(h, h', TOP, h[TOP].children, f);
      RepAppend(h', TOP, h[TOP].children, f, [c], [t]);
      IdsAppend(f, [t]);
    } else if IsBlock(f, p) {
      BlockIsId(f, p);
      RepAdd(h, h', TOP, h[TOP].children, f, p, [c], [t]);
      AddFacts(f, p, [t]);
    } else {
      RepFrame(h, h', TOP, h[TOP].children, f);
    }
  }

  lemma {:induction false} AddNext(f: seq<Tree>, p: Ref, ts: seq<Tree>, i: nat)
    requires i < |ts| && p !in Ids(ts)
    ensures Add(Add(f, p, ts[..i]), p, [ts[i..][0]]) == Add(f, p, ts[..i + 1])
  {
    assert ts == ts[..i] + ts[i..] && ts[..i + 1] == ts[..i] + [ts[i]];
    IdsAppend(ts[..i], ts[i..]);
    AddTwice(f, p, ts[..i], [ts[i]]);
  }

  /** The first of a list of trees, given another parent. */
  lemma {:induction false} Detach(h: Heap, a: Ref, ids: seq<Ref>, ts: seq<Tree>, p: Ref)
    requires ids != [] && Rep(h, a, ids, ts) && Distinct(ts)
    ensures ids[0] in h && Rep(h[ids[0] := h[ids[0]].(parent := p)], p, [ids[0]], [ts[0]])
    ensures Distinct([ts[0]]) && Distinct(ts[1..]) && Ids(ts) == Ids([ts[0]]) + Ids(ts[1..])
    ensures Ids([ts[0]]) !! Ids(ts[1..]) && ids[0] in Ids([ts[0]])
  {
    var c, t := ids[0], ts[0];
    assert ts == [t] + ts[1..];
    IdsAppend([t], ts[1..]);
    if t.Block? {
      RepFrame(h, h[c := h[c].(parent := p)], c, h[c].children, t.kids);
    }
  }

  lemma {:induction false} AddedBlock(ts: seq<Tree>, p: Ref, t: Tree)
    requires IsBlock(ts, p) && t.Block?
    ensures IsBlock(Add(ts, p, [t]), t.id)
    decreases ts
  {
    var r := Add(ts, p, [t]);
    assert r[1..] == Add(ts[1..], p, [t]);
    if ts[0].Block? && ts[0].id == p {
      BlockAppend(ts[0].kids, [t], t.id);
    } else if ts[0].Block? && IsBlock(ts[0].kids, p) {
      AddedBlock(ts[0].kids, p, t);
    } else {
      AddedBlock(ts[1..], p, t);
    }
  }

  lemma {:induction false} AddedAt(ts: seq<Tree>, p: Ref, t: Tree)
    requires (p == TOP || IsBlock(ts, p)) && t.Block?
    ensures IsBlock(AddAt(ts, p, [t]), t.id)
  {
    if p == TOP {
      BlockAppend(ts, [t], t.id);
    } else {
      AddedBlock(ts, p, t);
    }
  }

  lemma {:induction false} ListOnce(h: Heap, q: Ref, ids: seq<Ref>, ts: seq<Tree>)
    requires Rep(h, q, ids, ts) && Distinct(ts)
    ensures forall i, j :: 0 <= i < j < |ids| ==> ids[i] != ids[j]
    decreases |ts|
  {
    if ts != [] {
      ListOnce(h, q, ids[1..], ts[1..]);
      RepIds(h, q, ids[1..], ts[1..]);
      assert forall j :: 1 <= j < |ids| ==> ids[j] == ids[1..][j - 1] && ids[j] in ids[1..];
    }
  }

  lemma {:induction false} ParentOf(h: Heap, q: Ref, ids: seq<Ref>, ts: seq<Tree>, o: Ref)
    requires Rep(h, q, ids, ts) && Distinct(ts) && o in Ids(ts) && q !in Ids(ts)
    ensures o in h && (h[o].parent == q || IsBlock(ts, h[o].parent))
    ensures h[o].parent !in Ids(KidsOf(ts, o)) && h[o].parent != o
    decreases ts
  {
    KidsInside(ts, o);
    if ts[0].id != o {
      if ts[0].Block? && o in Ids(ts[0].kids) {
        ParentOf(h, ids[0], h[ids[0]].children, ts[0].kids, o);
      } else {
        ParentOf(h, q, ids[1..], ts[1..], o);
      }
    }
  }

  /** A live node sits once in the list of its parent. */
  lemma {:induction false} ParentList(h: Heap, q: Ref, ts: seq<Tree>, o: Ref)
    requires q in h && Rep(h, q, h[q].children, ts) && Distinct(ts) && o in Ids(ts) && q !in Ids(ts)
    ensures o in h && h[o].parent in h && h[o].parent !in Ids(KidsOf(ts, o)) && h[o].parent != o
    ensures var l := h[h[o].parent].children;
            forall i, j :: 0 <= i < j < |l| ==> l[i] != l[j]
  {
    ParentOf(h, q, h[q].children, ts, o);
    var par := h[o].parent;
    if par == q {
      ListOnce(h, q, h[q].children, ts);
    } else {
      KidsRep(h, q, h[q].children, ts, par);
      ListOnce(h, par, h[par].children, KidsOf(ts, par));
    }
  }

  /** A block gone from the list of its parent, with a new one in its place. */
  lemma {:induction false} Replaced(h: Heap, h': Heap, f: seq<Tree>, o: Ref, n: Ref, name: string)
    requires TOP in h && Rep(h, TOP, h[TOP].children, f) && Distinct(f) && TOP !in Ids(f) && DEAD !in Ids(f)
    requires n in h && n !in Ids(f) && n != TOP && n != DEAD && h[n].name == Some(name) && h[n].children == []
    requires IsBlock(f, o) && o in h && h[o].parent in h && h[o].parent != n
    requires h[o].parent !in Ids(KidsOf(f, o)) && h[o].parent != o
    requires var par := h[o].parent;
             h' == h[n := h[n].(ancestor := Some(o), parent := par)]
             [par := h[par].(children := Swap(h[par].children, o, n))]
    ensures var f' := Subst(f, o, Block(n, name, []));
            && TOP in h' && Rep(h', TOP, h'[TOP].children, f') && Distinct(f') && TOP !in Ids(f') && DEAD !in Ids(f')
            && IsBlock(f', n) && o !in Ids(f') && Ids(KidsOf(f, o)) !! Ids(f') + {TOP, DEAD, n, o}
    ensures o in h' && Rep(h', o, h'[o].children, KidsOf(f, o)) && Distinct(KidsOf(f, o))
  {
    var par, t := h[o].parent, Block(n, name, []);
    BlockIsId(f, o);
    RepSubst(h, h', TOP, h[TOP].children, f, o, par, n, t);
    SubstFacts(f, o, t);
    KidsRep(h, TOP, h[TOP].children, f, o);
    RepFrame(h, h', o, h[o].children, KidsOf(f, o));
  }

  lemma {:induction false} SwapIsUpdate(ids: seq<Ref>, idx: nat, o: Ref, n: Ref)
    requires idx < |ids| && ids[idx] == o && forall i :: 0 <= i < |ids| && i != idx ==> ids[i] != o
    ensures Swap(ids, o, n) == ids[idx := n]
  {
    if idx == 0 {
      assert o !in ids[1..];
      SwapAbsent(ids[1..], o, n);
    } else {
      SwapIsUpdate(ids[1..], idx - 1, o, n);
    }
  }
}

/**
  The atom list of src/kloned/atom.c: nodes linked as the LIST macros of BSD do
  it. A removed node keeps its links, so that removing it once more is defined,
  and rewrites the list.
 */
module AtomList {
  datatype Atom = Atom(id: string, data: string, mtime: int)

  /** `next` is -1 for NULL; `prev` names the node whose `next` field points
      here, or -1 for the head of the list. */
  datatype Node = Node(atom: Atom, next: int, prev: int)

  /** Nodes by address, in the order they were made, and the head. */
  datatype Links = Links(nodes: seq<Node>, head: int)

  /** Nodes enter at the head only, so that every link leads to an older node
      and every back link to a newer one; removed nodes included. */
  predicate Forward(nodes: seq<Node>) {
    forall r :: 0 <= r < |nodes| ==>
      -1 <= nodes[r].next < r && (nodes[r].prev == -1 || r < nodes[r].prev < |nodes|)
  }

  predicate Proper(l: Links) {
    Forward(l.nodes) && -1 <= l.head < |l.nodes|
  }

  /** LIST_FOREACH from node `r`. */
  function Walk(nodes: seq<Node>, r: int): (refs: seq<nat>)
    requires Forward(nodes) && -1 <= r < |nodes|
    ensures forall i :: 0 <= i < |refs| ==> refs[i] <= r
    decreases r + 1
  {
    if r < 0 then [] else [r] + Walk(nodes, nodes[r].next)
  }

  predicate Falling(s: seq<nat>) {
    forall i, j :: 0 <= i < j < |s| ==> s[i] > s[j]
  }

  lemma {:induction false} WalkFalls(nodes: seq<Node>, r: int)
    requires Forward(nodes) && -1 <= r < |nodes|
    ensures Falling(Walk(nodes, r))
    decreases r + 1
  {
    if r >= 0 {
      WalkFalls(nodes, nodes[r].next);
    }
  }

  function Refs(l: Links): seq<nat>
    requires Proper(l)
  {
    Walk(l.nodes, l.head)
  }

  /** The atoms of some nodes. */
  function At(nodes: seq<Node>, refs: seq<nat>): (atoms: seq<Atom>)
    requires forall i :: 0 <= i < |refs| ==> refs[i] < |nodes|
    ensures |atoms| == |refs| && forall i :: 0 <= i < |refs| ==> atoms[i] == nodes[refs[i]].atom
  {
    if refs == [] then [] else [nodes[refs[0]].atom] + At(nodes, refs[1..])
  }

  function Contents(l: Links): seq<Atom>
    requires Proper(l)
  {
    At(l.nodes, Refs(l))
  }

  /** Every listed node points back to the one before it. */
  predicate Linked(l: Links) {
    Proper(l) && Back(l.nodes, Refs(l))
  }

  predicate Back(nodes: seq<Node>, refs: seq<nat>) {
    forall i :: 0 <= i < |refs| ==> refs[i] < |nodes| && nodes[refs[i]].prev == Before(refs, i)
  }

  function Before(refs: seq<nat>, i: nat): int
    requires i < |refs|
  {
    if i == 0 then -1 else refs[i - 1]
  }

  /** LIST_INSERT_HEAD. */
  function Push(l: Links, atom: Atom): Links
    requires Proper(l)
  {
    var r, nodes := |l.nodes|, l.nodes + [Node(atom, l.head, -1)];
    Links(if l.head >= 0 then nodes[l.head := nodes[l.head].(prev := r)] else nodes, r)
  }

  /** LIST_REMOVE of node `r`, whether or not it is listed. */
  function Unlink(l: Links, r: nat): (l': Links)
    requires Proper(l) && r < |l.nodes|
    ensures Proper(l') && |l'.nodes| == |l.nodes|
    ensures l'.head == if l.nodes[r].prev < 0 then l.nodes[r].next else l.head
    ensures forall x :: 0 <= x < |l.nodes| ==>
      l'.nodes[x] == Node(l.nodes[x].atom,
                          if x == l.nodes[r].prev then l.nodes[r].next else l.nodes[x].next,
                          if x == l.nodes[r].next then l.nodes[r].prev else l.nodes[x].prev)
  {
    var n, p := l.nodes[r].next, l.nodes[r].prev;
    var nodes := if n >= 0 then l.nodes[n := l.nodes[n].(prev := p)] else l.nodes;
    if p < 0 then Links(nodes, n) else Links(nodes[p := nodes[p].(next := n)], l.head)
  }

  // ---- walks ----

  /** A walk depends on the links it meets only. */
  lemma {:induction false} WalkSame(a: seq<Node>, b: seq<Node>, x: int)
    requires Forward(a) && Forward(b) && -1 <= x < |a| && x < |b|
    requires forall r :: 0 <= r <= x ==> a[r].next == b[r].next
    ensures Walk(a, x) == Walk(b, x)
    decreases x + 1
  {
    if x >= 0 {
      WalkSame(a, b, a[x].next);
    }
  }

  /** A link of a node that is not met may change. */
  lemma {:induction false} WalkPast(a: seq<Node>, b: seq<Node>, x: int, p: nat)
    requires Forward(a) && Forward(b) && -1 <= x < |a| == |b|
    requires p !in Walk(a, x) && forall r :: 0 <= r <= x && r != p ==> a[r].next == b[r].next
    ensures Walk(a, x) == Walk(b, x)
    decreases x + 1
  {
    if x >= 0 {
      assert x in Walk(a, x);
      assert forall y :: y in Walk(a, a[x].next) ==> y in Walk(a, x);
      WalkPast(a, b, a[x].next, p);
    }
  }

  /** Node `p` made to point at `n`, an older node: what came down to `p` is
      still met, and behind it everything from `n` on. */
  lemma {:induction false} WalkVia(a: seq<Node>, b: seq<Node>, x: int, p: nat)
    requires Forward(a) && Forward(b) && -1 <= x < |a| == |b| && p in Walk(a, x)
    requires forall r :: 0 <= r <= x && r != p ==> a[r].next == b[r].next
    ensures forall r :: r in Walk(a, x) && r >= p ==> r in Walk(b, x)
    ensures forall r :: r in Walk(a, b[p].next) ==> r in Walk(b, x)
    decreases x + 1
  {
    var rest := Walk(a, a[x].next);
    if x == p {
      WalkSame(a, b, b[p].next);
      assert forall r :: r in rest ==> r < p;
    } else {
      assert p in rest;
      WalkVia(a, b, a[x].next, p);
    }
  }

  /** Node `q` made to skip its successor: every walk loses at most that one. */
  lemma {:induction false} WalkSkip(a: seq<Node>, b: seq<Node>, x: int, q: nat)
    requires Forward(a) && Forward(b) && -1 <= x < |a| == |b| && q < |a| && a[q].next >= 0
    requires b[q].next == a[a[q].next].next && forall r :: 0 <= r < |a| && r != q ==> a[r].next == b[r].next
    ensures forall r :: r in Walk(a, x) && r != a[q].next ==> r in Walk(b, x)
    decreases x + 1
  {
    if x >= 0 {
      if x == q {
        var e := a[q].next;
        WalkSame(a, b, a[e].next);
        assert Walk(a, e) == [e] + Walk(a, a[e].next);
      } else {
        WalkSkip(a, b, a[x].next, q);
      }
    }
  }

  /** From a listed node on, the walk is the rest of the list. */
  lemma {:induction false} WalkFrom(nodes: seq<Node>, r: int, i: nat)
    requires Forward(nodes) && -1 <= r < |nodes| && i < |Walk(nodes, r)|
    ensures Walk(nodes, Walk(nodes, r)[i]) == Walk(nodes, r)[i..]
    decreases i
  {
    var refs := Walk(nodes, r);
    if i > 0 {
      WalkFrom(nodes, nodes[r].next, i - 1);
      assert refs[1..] == Walk(nodes, nodes[r].next) && refs[i..] == refs[1..][i - 1..];
    } else {
      assert refs[0..] == refs;
    }
  }

  lemma {:induction false} NextOf(nodes: seq<Node>, r: int, i: nat)
    requires Forward(nodes) && -1 <= r < |nodes| && i < |Walk(nodes, r)|
    ensures var refs := Walk(nodes, r);
            && Walk(nodes, nodes[refs[i]].next) == refs[i + 1..]
            && nodes[refs[i]].next == if i + 1 < |refs| then refs[i + 1] else -1
  {
    var refs := Walk(nodes, r);
    WalkFrom(nodes, r, i);
    assert refs[i..][1..] == refs[i + 1..];
    assert i + 1 < |refs| ==> refs[i + 1..][0] == refs[i + 1];
  }

  // ---- the list operations on a sound list ----

  lemma {:induction false} PushWalk(l: Links, atom: Atom, x: int)
    requires Proper(l) && -1 <= x < |l.nodes|
    ensures Proper(Push(l, atom)) && Walk(Push(l, atom).nodes, x) == Walk(l.nodes, x)
  {
    assert Forward(Push(l, atom).nodes);
    WalkSame(l.nodes, Push(l, atom).nodes, x);
  }

  lemma {:induction false} PushLinked(l: Links, atom: Atom)
    requires Linked(l)
    ensures Linked(Push(l, atom)) && Refs(Push(l, atom)) == [|l.nodes|] + Refs(l)
    ensures Contents(Push(l, atom)) == [atom] + Contents(l)
  {
    PushWalk(l, atom, l.head);
    var l', r := Push(l, atom), Refs(l);
    assert Refs(l') == [|l.nodes|] + r && Refs(l')[1..] == r;
    AtSame(l.nodes, l'.nodes, r);
    WalkFalls(l.nodes, l.head);
    forall i | 0 <= i < |Refs(l')| ensures l'.nodes[Refs(l')[i]].prev == Before(Refs(l'), i) {
      if i > 0 {
        assert Refs(l')[i] == r[i - 1] <= l.head && l.nodes[r[i - 1]].prev == Before(r, i - 1)
               && (i > 1 ==> r[0] > r[i - 1]);
      }
    }
  }

  function Without<T>(s: seq<T>, k: nat): seq<T>
    requires k < |s|
  {
    s[..k] + s[k + 1..]
  }

  /** The walk behind position `i` of a list whose node there has been unlinked. */
  lemma {:induction false} UnlinkWalk(l: Links, i: nat)
    requires Linked(l) && i < |Refs(l)|
    ensures Refs(Unlink(l, Refs(l)[i])) == Without(Refs(l), i)
  {
    var refs := Refs(l);
    var e, l' := refs[i], Unlink(l, refs[i]);
    NextOf(l.nodes, l.head, i);
    assert l.nodes[e].prev == Before(refs, i);
    if i == 0 {
      WalkSame(l.nodes, l'.nodes, l.nodes[e].next);
    } else {
      UnlinkFrom(l, l', l.head, i);
    }
  }

  lemma {:induction false} UnlinkFrom(l: Links, l': Links, x: int, i: nat)
    requires Proper(l) && Proper(l') && |l.nodes| == |l'.nodes| && -1 <= x < |l.nodes| && 0 < i < |Walk(l.nodes, x)|
    requires var w := Walk(l.nodes, x);
             && l'.nodes[w[i - 1]].next == l.nodes[w[i]].next
             && forall r :: 0 <= r < |l.nodes| && r != w[i - 1] ==> l.nodes[r].next == l'.nodes[r].next
    ensures Walk(l'.nodes, x) == Without(Walk(l.nodes, x), i)
    decreases i
  {
    var w, n := Walk(l.nodes, x), l.nodes[x].next;
    var rest := Walk(l.nodes, n);
    assert w == [x] + rest;
    if i == 1 {
      NextOf(l.nodes, x, 1);
      WalkSame(l.nodes, l'.nodes, l.nodes[w[1]].next);
      assert Walk(l'.nodes, x) == [x] + w[2..];
      assert w[..1] == [x];
    } else {
      assert w[i] == rest[i - 1] && w[i - 1] == rest[i - 2] <= n;
      UnlinkFrom(l, l', n, i - 1);
      assert Walk(l'.nodes, x) == [x] + Without(rest, i - 1);
      WithoutLater([x], rest, i - 1);
    }
  }

  lemma {:induction false} WithoutLater<T>(a: seq<T>, b: seq<T>, i: nat)
    requires i < |b|
    ensures Without(a + b, |a| + i) == a + Without(b, i)
  {
    assert (a + b)[..|a| + i] == a + b[..i] && (a + b)[|a| + i + 1..] == b[i + 1..];
  }

  lemma {:induction false} UnlinkLinked(l: Links, i: nat)
    requires Linked(l) && i < |Refs(l)|
    ensures Linked(Unlink(l, Refs(l)[i])) && Refs(Unlink(l, Refs(l)[i])) == Without(Refs(l), i)
    ensures Contents(Unlink(l, Refs(l)[i])) == Without(Contents(l), i)
  {
    var refs := Refs(l);
    var l' := Unlink(l, refs[i]);
    UnlinkWalk(l, i);
    NextOf(l.nodes, l.head, i);
    WalkFalls(l.nodes, l.head);
    BackWithout(l.nodes, l'.nodes, refs, i);
    AtWithout(l.nodes, l'.nodes, refs, i);
  }

  lemma {:induction false} BackWithout(a: seq<Node>, b: seq<Node>, refs: seq<nat>, i: nat)
    requires Falling(refs) && Back(a, refs) && |a| == |b| && i < |refs|
    requires forall x :: 0 <= x < |a| ==>
               b[x].prev == if i + 1 < |refs| && x == refs[i + 1] then a[refs[i]].prev else a[x].prev
    ensures Back(b, Without(refs, i))
  {
    var w := Without(refs, i);
    forall j | 0 <= j < |w| ensures w[j] < |b| && b[w[j]].prev == Before(w, j) {
      if j < i {
        assert w[j] == refs[j] && Before(w, j) == Before(refs, j) && a[refs[j]].prev == Before(refs, j);
      } else {
        assert w[j] == refs[j + 1] && a[refs[j + 1]].prev == refs[j] && a[refs[i]].prev == Before(refs, i);
        assert j == i ==> Before(w, j) == Before(refs, i);
      }
    }
  }

  lemma {:induction false} AtWithout(a: seq<Node>, b: seq<Node>, refs: seq<nat>, i: nat)
    requires i < |refs| && |a| == |b| && forall x :: 0 <= x < |a| ==> b[x].atom == a[x].atom
    requires forall j :: 0 <= j < |refs| ==> refs[j] < |a|
    ensures At(b, Without(refs, i)) == Without(At(a, refs), i)
  {
    var x, y := At(b, Without(refs, i)), Without(At(a, refs), i);
    forall j | 0 <= j < |x| ensures x[j] == y[j] {
      WithoutIndex(refs, i, j);
      WithoutIndex(At(a, refs), i, j);
    }
  }

  lemma {:induction false} WithoutIndex<T>(s: seq<T>, k: nat, j: nat)
    requires k < |s| && j < |s| - 1
    ensures Without(s, k)[j] == s[if j < k then j else j + 1]
  {
  }

  lemma {:induction false} AtSame(a: seq<Node>, b: seq<Node>, refs: seq<nat>)
    requires |a| <= |b| && forall x :: 0 <= x < |a| ==> b[x].atom == a[x].atom
    requires forall j :: 0 <= j < |refs| ==> refs[j] < |a|
    ensures At(a, refs) == At(b, refs)
  {
    if refs != [] {
      AtSame(a, b, refs[1..]);
    }
  }

  // ---- removing a node twice ----

  /** Node `d` has been removed while others may have been since: nothing listed
      lies between it and the node its back link names, and every older node that
      is still listed can be reached from it. */
  predicate Gone(l: Links, d: nat) {
    && Linked(l) && d < |l.nodes| && d !in Refs(l)
    && (forall r :: r in Refs(l) ==> r < d || 0 <= l.nodes[d].prev <= r)
    && (forall r :: r in Refs(l) && r < d ==> r in Walk(l.nodes, l.nodes[d].next))
  }

  lemma {:induction false} GoneNow(l: Links, i: nat)
    requires Linked(l) && i < |Refs(l)|
    ensures Gone(Unlink(l, Refs(l)[i]), Refs(l)[i])
  {
    var refs := Refs(l);
    var d := refs[i];
    var l' := Unlink(l, d);
    UnlinkLinked(l, i);
    NextOf(l.nodes, l.head, i);
    WalkFalls(l.nodes, l.head);
    WalkSame(l.nodes, l'.nodes, l.nodes[d].next);
    RestOf(refs, i);
  }

  lemma {:induction false} RestOf(refs: seq<nat>, i: nat)
    requires Falling(refs) && i < |refs|
    ensures forall r :: r in Without(refs, i) ==> r != refs[i] && (r < refs[i] || (i > 0 && refs[i - 1] <= r))
    ensures forall r :: r in Without(refs, i) && r < refs[i] ==> r in refs[i + 1..]
  {
    forall r | r in Without(refs, i)
      ensures r != refs[i] && (r < refs[i] || (i > 0 && refs[i - 1] <= r)) && (r < refs[i] ==> r in refs[i + 1..])
    {
      if r in refs[..i] {
        var j :| 0 <= j < i && refs[j] == r;
      } else {
        var j :| 0 <= j < |refs[i + 1..]| && refs[i + 1..][j] == r;
      }
    }
  }

  lemma {:induction false} GoneStill(l: Links, d: nat, i: nat)
    requires Gone(l, d) && i < |Refs(l)|
    ensures Gone(Unlink(l, Refs(l)[i]), d)
  {
    UnlinkLinked(l, i);
    UnlinkOther(l, i, d);
    ReachStill(l, i, l.nodes[d].next);
    WalkFalls(l.nodes, l.head);
    RestOf(Refs(l), i);
    SubsetOf(Refs(l), i);
  }

  lemma {:induction false} UnlinkOther(l: Links, i: nat, d: nat)
    requires Linked(l) && i < |Refs(l)| && d < |l.nodes| && d !in Refs(l)
    ensures Unlink(l, Refs(l)[i]).nodes[d] == l.nodes[d]
  {
    var refs := Refs(l);
    NextOf(l.nodes, l.head, i);
    assert l.nodes[refs[i]].prev == Before(refs, i);
    assert (i > 0 ==> refs[i - 1] in refs) && (i + 1 < |refs| ==> refs[i + 1] in refs);
  }

  lemma {:induction false} SubsetOf(refs: seq<nat>, i: nat)
    requires i < |refs|
    ensures forall r :: r in Without(refs, i) ==> r in refs
  {
  }

  /** Unlinking a listed node takes nothing but that node out of any walk. */
  lemma {:induction false} ReachStill(l: Links, i: nat, x: int)
    requires Linked(l) && i < |Refs(l)| && -1 <= x < |l.nodes|
    ensures forall r :: r in Walk(l.nodes, x) && r != Refs(l)[i] ==> r in Walk(Unlink(l, Refs(l)[i]).nodes, x)
  {
    var refs := Refs(l);
    var l' := Unlink(l, refs[i]);
    assert l.nodes[refs[i]].prev == Before(refs, i);
    if i == 0 {
      WalkSame(l.nodes, l'.nodes, x);
    } else {
      NextOf(l.nodes, l.head, i - 1);
      WalkSkip(l.nodes, l'.nodes, x, refs[i - 1]);
    }
  }

  /** Of two falling sequences with the same bound the smaller set is shorter. */
  lemma {:induction false} FallingLength(a: seq<nat>, b: seq<nat>)
    requires Falling(a) && Falling(b)
    requires forall x :: x in a ==> x in b
    ensures |a| < |b| || a == b
    decreases |b|
  {
    if a != [] {
      assert a[0] in b;
      if a[0] == b[0] {
        forall x | x in a[1..] ensures x in b[1..] {
          assert x in b && x < a[0];
        }
        FallingLength(a[1..], b[1..]);
        assert a == [a[0]] + a[1..] && b == [b[0]] + b[1..];
      } else {
        forall x | x in a ensures x in b[1..] {
          assert x in b && x <= a[0] < b[0];
        }
        FallingLength(a, b[1..]);
      }
    }
  }

  /** A node inserted and then the gone node unlinked once more: either the new
      node is lost and the list is what it was, or there is more on it than
      before. */
  lemma {:induction false} UnlinkedTwice(l: Links, d: nat, atom: Atom)
    requires Gone(l, d)
    ensures Proper(Push(l, atom)) && |Push(l, atom).nodes| == |l.nodes| + 1
    ensures var l' := Unlink(Push(l, atom), d);
            |Refs(l')| > |Refs(l)| || Contents(l') == Contents(l)
  {
    var l1 := Push(l, atom);
    PushFields(l, atom, d);
    UnlinkedRefs(l, l1, d);
    var l' := Unlink(l1, d);
    if Refs(l') == Refs(l) {
      AtSame(l.nodes, l'.nodes, Refs(l));
    }
  }

  lemma {:induction false} PushFields(l: Links, atom: Atom, d: nat)
    requires Linked(l) && d < |l.nodes| && d !in Refs(l)
    ensures var l1 := Push(l, atom);
            && Proper(l1) && |l1.nodes| == |l.nodes| + 1 == l1.head + 1 && l1.nodes[l1.head].next == l.head
            && l1.nodes[d] == l.nodes[d]
            && forall x :: 0 <= x < |l.nodes| ==> l1.nodes[x].next == l.nodes[x].next
                                                  && l1.nodes[x].atom == l.nodes[x].atom
  {
    PushWalk(l, atom, -1);
    assert l.head >= 0 ==> l.head in Refs(l);
  }

  lemma {:induction false} UnlinkedRefs(l: Links, l1: Links, d: nat)
    requires Gone(l, d) && Proper(l1) && |l1.nodes| == |l.nodes| + 1 == l1.head + 1
    requires l1.nodes[d] == l.nodes[d] && l1.nodes[l1.head].next == l.head
    requires forall x :: 0 <= x < |l.nodes| ==> l1.nodes[x].next == l.nodes[x].next
    ensures |Refs(Unlink(l1, d))| > |Refs(l)| || Refs(Unlink(l1, d)) == Refs(l)
  {
    var l' := Unlink(l1, d);
    WalkFalls(l'.nodes, l'.head);
    if l.nodes[d].prev < 0 {
      HeadLost(l, l1, d);
      WalkFalls(l.nodes, l.head);
      FallingLength(Refs(l), Refs(l'));
    } else {
      NothingLost(l, l1, d);
      WalkFalls(l1.nodes, l1.head);
      FallingLength(Refs(l1), Refs(l'));
      WalkSame(l.nodes, l1.nodes, l.head);
      assert Refs(l1) == [l1.head] + Refs(l);
    }
  }

  /** A gone node that was the head: the second time the new head is lost. */
  lemma {:induction false} HeadLost(l: Links, l1: Links, d: nat)
    requires Gone(l, d) && l.nodes[d].prev < 0 && Proper(l1) && |l1.nodes| == |l.nodes| + 1
    requires l1.nodes[d] == l.nodes[d] && forall x :: 0 <= x < |l.nodes| ==> l1.nodes[x].next == l.nodes[x].next
    ensures forall r :: r in Refs(l) ==> r in Refs(Unlink(l1, d))
  {
    var n, l' := l.nodes[d].next, Unlink(l1, d);
    WalkSame(l.nodes, l'.nodes, n);
  }

  /** A gone node that was not the head: the second time nothing is lost. */
  lemma {:induction false} NothingLost(l: Links, l1: Links, d: nat)
    requires Gone(l, d) && l.nodes[d].prev >= 0 && Proper(l1) && |l1.nodes| == |l.nodes| + 1 == l1.head + 1
    requires l1.nodes[d] == l.nodes[d] && l1.nodes[l1.head].next == l.head
    requires forall x :: 0 <= x < |l.nodes| ==> l1.nodes[x].next == l.nodes[x].next
    ensures forall r :: r in Refs(l1) ==> r in Refs(Unlink(l1, d))
  {
    var n, p, top := l.nodes[d].next, l.nodes[d].prev, l1.head;
    var l' := Unlink(l1, d);
    WalkSame(l.nodes, l1.nodes, l.head);
    WalkSame(l.nodes, l1.nodes, n);
    assert Refs(l1) == [top] + Refs(l);
    if p in Refs(l1) {
      WalkVia(l1.nodes, l'.nodes, top, p);
    } else {
      WalkPast(l1.nodes, l'.nodes, top, p);
    }
  }
}

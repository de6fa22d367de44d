/**
  The in-memory session store of the parent process (src/libpage/ses_mem.c) on
  the linked list of src/kloned/atom.c.
 */
module SessionStore {
  import opened AtomList
  import opened Eviction

  /** What has become of a list `l0` while atoms were evicted from it, and of its
      node `d`: still listed, or gone. */
  predicate Shrunk(l0: Links, l: Links, d: int) {
    && Proper(l0) && Linked(l) && |l.nodes| == |l0.nodes|
    && (forall x :: 0 <= x < |l.nodes| ==> l.nodes[x].atom == l0.nodes[x].atom)
    && (forall r :: r in Refs(l) ==> r in Refs(l0))
    && (d >= 0 ==> d in Refs(l) || Gone(l, d))
  }

  lemma {:induction false} ShrunkMore(l0: Links, l: Links, d: int, i: nat)
    requires Shrunk(l0, l, d) && i < |Refs(l)|
    ensures Shrunk(l0, Unlink(l, Refs(l)[i]), d)
  {
    var refs := Refs(l);
    UnlinkLinked(l, i);
    SubsetOf(refs, i);
    if d >= 0 {
      if d in refs {
        StillThere(refs, i, d);
        GoneNow(l, i);
      } else {
        GoneStill(l, d, i);
      }
    }
  }

  lemma {:induction false} StillThere(refs: seq<nat>, i: nat, d: nat)
    requires i < |refs| && d in refs
    ensures d == refs[i] || d in Without(refs, i)
  {
    Around(refs, i);
  }

  /** The listed node of an id is the one it was. */
  lemma {:induction false} SameNode(l0: Links, l: Links, d: nat, i: nat)
    requires Linked(l0) && UniqueIds(Contents(l0)) && Shrunk(l0, l, d) && d in Refs(l0)
    requires i < |Refs(l)| && Contents(l)[i].id == l0.nodes[d].atom.id
    ensures Refs(l)[i] == d
  {
    var r := Refs(l)[i];
    assert r in Refs(l);
    var j :| 0 <= j < |Refs(l0)| && Refs(l0)[j] == r;
    var k :| 0 <= k < |Refs(l0)| && Refs(l0)[k] == d;
    UniqueIndex(Contents(l0), j);
    UniqueIndex(Contents(l0), k);
  }

  /** The end of so_atom_add: the new node in front, and the node of the same id
      (if there was one, `r`) unlinked. */
  ghost function Placed(l: Links, a: Atom, r: int): Links
    requires Proper(l) && Proper(Push(l, a)) && r < |Push(l, a).nodes|
  {
    if r < 0 then Push(l, a) else Unlink(Push(l, a), r)
  }

  lemma {:induction false} PlacedAt(l: Links, a: Atom, k: nat)
    requires Linked(l) && k < |Refs(l)|
    ensures Linked(Push(l, a)) && Refs(l)[k] < |l.nodes| && Linked(Unlink(Push(l, a), Refs(l)[k]))
    ensures Contents(Unlink(Push(l, a), Refs(l)[k])) == [a] + Without(Contents(l), k)
  {
    PushLinked(l, a);
    Behind(Push(l, a), |l.nodes|, Refs(l), a, Contents(l), k);
  }

  lemma {:induction false} Behind(l: Links, x: nat, refs: seq<nat>, a: Atom, atoms: seq<Atom>, k: nat)
    requires Linked(l) && Refs(l) == [x] + refs && Contents(l) == [a] + atoms && k < |refs| == |atoms|
    ensures refs[k] < |l.nodes| && Linked(Unlink(l, refs[k])) && Contents(Unlink(l, refs[k])) == [a] + Without(atoms, k)
  {
    var r := refs[k];
    assert Refs(l)[k + 1] == r;
    UnlinkLinked(l, k + 1);
    WithoutNext(a, atoms, k);
  }

  lemma {:induction false} WithoutNext(a: Atom, s: seq<Atom>, k: nat)
    requires k < |s|
    ensures Without([a] + s, k + 1) == [a] + Without(s, k)
  {
    assert ([a] + s)[..k + 1] == [a] + s[..k] && ([a] + s)[k + 2..] == s[k + 1..];
  }

  lemma {:induction false} PlacedOver(l: Links, a: Atom, r: nat)
    requires Linked(l) && Has(Contents(l), a.id) && Refs(l)[IndexOf(Contents(l), a.id)] == r
    ensures Linked(Push(l, a)) && r < |l.nodes| && Linked(Placed(l, a, r))
    ensures Contents(Placed(l, a, r)) == [a] + Others(Contents(l), a.id)
  {
    PlacedAt(l, a, IndexOf(Contents(l), a.id));
  }

  /** What the list is in the end, given `l0` before and `l` after the evictions:
      as it should be, or, if the node had been evicted, with the new atom lost
      or more atoms than before. */
  lemma {:induction false} SavedNode(l0: Links, l: Links, a: Atom, r: int, lim: Limits)
    requires Linked(l0) && Consistent(Contents(l0), lim) && Shrunk(l0, l, r) && !TooLarge(a, lim)
    requires Contents(l) == Room(Contents(l0), a, lim) && (r >= 0) == Has(Contents(l0), a.id)
    requires r >= 0 ==> r in Refs(l0) && l0.nodes[r].atom == Contents(l0)[IndexOf(Contents(l0), a.id)]
    ensures Proper(Push(l, a)) && r < |l.nodes| && Proper(Placed(l, a, r))
    ensures Fits(Contents(l0), a, lim) ==>
              Linked(Placed(l, a, r)) && Contents(Placed(l, a, r)) == Saved(Contents(l0), a, lim)
    ensures Fits(Contents(l0), a, lim) && r >= 0 ==>
              Has(Contents(l), a.id) && l.nodes[r].atom == Contents(l)[IndexOf(Contents(l), a.id)]
    ensures r < 0 ==> !Has(Contents(l), a.id)
    ensures !Fits(Contents(l0), a, lim) ==>
              && r >= 0 && |a.data| > |l.nodes[r].atom.data|
              && (Contents(Placed(l, a, r)) == Contents(l) || |Refs(Placed(l, a, r))| > |Refs(l)|)
  {
    var before, left := Contents(l0), Contents(l);
    PushLinked(l, a);
    if r < 0 {
      RoomPart(before, a, lim);
      NotIn(before, left, a.id);
    } else {
      FitsExactly(before, a, lim);
      if Fits(before, a, lim) {
        SameNode(l0, l, r, IndexOf(left, a.id));
        PlacedOver(l, a, r);
      } else {
        if r in Refs(l) {
          NodeListed(l, r);
        }
        UnlinkedTwice(l, r, a);
      }
    }
  }

  lemma {:induction false} NodeListed(l: Links, r: nat)
    requires Linked(l) && r in Refs(l)
    ensures r < |l.nodes| && Has(Contents(l), l.nodes[r].atom.id)
  {
    var i :| 0 <= i < |Refs(l)| && Refs(l)[i] == r;
    assert Contents(l)[i] == l.nodes[r].atom;
    HasAny(Contents(l), l.nodes[r].atom.id);
  }

  /** The number and the size of what a save that fits leaves. */
  lemma {:induction false} SavedCounts(atoms: seq<Atom>, a: Atom, lim: Limits)
    requires Consistent(atoms, lim) && !TooLarge(a, lim)
    ensures var left := Room(atoms, a, lim);
            && |Saved(atoms, a, lim)| == |left| + (if Has(left, a.id) then 0 else 1)
            && Total(Saved(atoms, a, lim)) == Total(left) + |a.data| - OldSize(left, a.id)
  {
    var left := Room(atoms, a, lim);
    RoomPart(atoms, a, lim);
    OthersFacts(left, a.id);
    InsertTotal(a, Others(left, a.id));
  }

  lemma {:induction false} NodeAt(l: Links, i: nat)
    requires Linked(l) && i < |Contents(l)|
    ensures i < |Refs(l)| && Refs(l)[i] < |l.nodes| && Refs(l)[i] in Refs(l)
    ensures l.nodes[Refs(l)[i]].atom == Contents(l)[i]
    ensures l.nodes[Refs(l)[i]].next == if i + 1 < |Contents(l)| then Refs(l)[i + 1] else -1
    ensures Refs(l)[0] == l.head
  {
    NextOf(l.nodes, l.head, i);
  }

  /** The nodes of a list, its addresses and its atoms. */
  ghost predicate Lays(nodes: seq<Node>, refs: seq<nat>, atoms: seq<Atom>) {
    && |refs| == |atoms|
    && forall j :: 0 <= j < |refs| ==>
         && refs[j] < |nodes| && nodes[refs[j]].atom == atoms[j]
         && nodes[refs[j]].next == After1(refs, j)
  }

  ghost function After1(refs: seq<nat>, j: nat): int {
    if j + 1 < |refs| then refs[j + 1] else -1
  }

  lemma {:induction false} LaysOut(l: Links)
    requires Linked(l)
    ensures Lays(l.nodes, Refs(l), Contents(l)) && l.head == if Refs(l) == [] then -1 else Refs(l)[0]
  {
    forall j | 0 <= j < |Refs(l)| ensures l.nodes[Refs(l)[j]].next == After1(Refs(l), j) {
      NextOf(l.nodes, l.head, j);
    }
  }

  /** The walk of atoms_get. */
  method SearchId(nodes: seq<Node>, head: int, id: string, ghost refs: seq<nat>, ghost atoms: seq<Atom>)
    returns (r: int)
    requires Lays(nodes, refs, atoms) && head == if refs == [] then -1 else refs[0]
    ensures (r >= 0) == Has(atoms, id) && (r >= 0 ==> refs[IndexOf(atoms, id)] == r)
  {
    r := head;
    ghost var k := 0;
    assert atoms[0..] == atoms;
    while r >= 0
      invariant k <= |refs| && r == if k < |refs| then refs[k] else -1
      invariant IndexOf(atoms, id) == if Has(atoms[k..], id) then k + IndexOf(atoms[k..], id) else -1
      decreases |refs| - k
    {
      assert atoms[k..][0] == atoms[k] && atoms[k..][1..] == atoms[k + 1..];
      if nodes[r].atom.id == id {
        return;
      }
      r := nodes[r].next;
      k := k + 1;
    }
  }

  /** The walk of so_atom_delete_oldest. */
  method SearchOldest(nodes: seq<Node>, head: int, count: nat, ghost refs: seq<nat>, ghost atoms: seq<Atom>)
      returns (r: nat)
    requires Lays(nodes, refs, atoms) && 0 < count == |refs| && head == refs[0]
    ensures refs[OldestOf(atoms)] == r
  {
    r := head;
    ghost var k := 0;
    var i, x := 1, nodes[r].next;
    assert atoms[..1] == [atoms[0]];
    while i < count
      invariant 1 <= i <= count && x == if i < count then refs[i] else -1
      invariant k == OldestOf(atoms[..i]) < i && refs[k] == r
    {
      OldestNext(atoms, i);
      if nodes[x].atom.mtime <= nodes[r].atom.mtime {
        r, k := x, i;
      }
      x := nodes[x].next;
      i := i + 1;
    }
    assert atoms[..i] == atoms;
  }

  class Store {
    const lim: Limits
    var links: Links
    var count: int
    var size: int

    /** What LIST_FOREACH finds. */
    ghost function Atoms(): seq<Atom>
      requires Proper(links)
      reads this
    {
      Contents(links)
    }

    /** The counters agree with the list. */
    ghost predicate Booked()
      reads this
    {
      Linked(links) && count == |Atoms()| && size == Total(Atoms())
    }

    /** What every message keeps. */
    ghost predicate Valid()
      reads this
    {
      Booked() && Consistent(Atoms(), lim)
    }

    constructor (lim: Limits)
      ensures Valid() && Atoms() == [] && this.lim == lim
    {
      this.lim, links, count, size := lim, Links([], -1), 0, 0;
    }

    /** atoms_get: the node of that id, or -1. */
    method Find(id: string) returns (r: int)
      requires Linked(links)
      ensures (r >= 0) == Has(Atoms(), id)
      ensures r >= 0 ==> IndexOf(Atoms(), id) < |Refs(links)| && Refs(links)[IndexOf(Atoms(), id)] == r
      ensures forall j :: 0 <= j < (if r < 0 then |Atoms()| else IndexOf(Atoms(), id)) ==> Atoms()[j].id != id
    {
      LaysOut(links);
      IndexOfIs(Atoms(), id);
      r := SearchId(links.nodes, links.head, id, Refs(links), Atoms());
    }

    /** atoms_add. */
    method Insert(atom: Atom)
      requires Booked()
      modifies this`links, this`count, this`size
      ensures Booked() && links == Push(old(links), atom) && Atoms() == [atom] + old(Atoms())
      ensures count == old(count) + 1 && size == old(size) + |atom.data|
    {
      PushLinked(links, atom);
      InsertTotal(atom, Atoms());
      links := Push(links, atom);
      count := count + 1;
      size := size + |atom.data|;
    }

    /** atoms_remove, of a node that may have been removed before. */
    method RemoveNode(r: nat)
      requires Proper(links) && r < |links.nodes|
      modifies this`links, this`count, this`size
      ensures links == Unlink(old(links), r)
      ensures count == old(count) - 1 && size == old(size) - |old(links).nodes[r].atom.data|
    {
      count := count - 1;
      size := size - |links.nodes[r].atom.data|;
      links := Unlink(links, r);
    }

    /** atoms_remove, of a listed node. */
    method RemoveListed(r: nat, ghost k: nat)
      requires Booked() && k < |Refs(links)| && Refs(links)[k] == r
      modifies this`links, this`count, this`size
      ensures Booked() && Atoms() == Without(old(Atoms()), k) && links == Unlink(old(links), r)
      ensures count == old(count) - 1 && size == old(size) - |old(links).nodes[r].atom.data|
    {
      UnlinkLinked(links, k);
      TotalWithout(Atoms(), k);
      RemoveNode(r);
    }

    /** The search of so_atom_delete_oldest. */
    method FindOldest() returns (r: nat)
      requires Booked() && count > 0
      ensures OldestOf(Atoms()) < |Refs(links)| && Refs(links)[OldestOf(Atoms())] == r
    {
      LaysOut(links);
      r := SearchOldest(links.nodes, links.head, count, Refs(links), Atoms());
    }

    /** so_atom_delete_oldest: an error only on an empty store. The node is
        unlinked but not freed; what is known of node `d` of `l0` is kept. */
    method DeleteOldest(ghost l0: Links, ghost d: int) returns (ok: bool)
      requires Booked() && Shrunk(l0, links, d)
      modifies this`links, this`count, this`size
      ensures Booked() && Shrunk(l0, links, d) && ok == (old(Atoms()) != [])
      ensures Atoms() == if ok then Evicted(old(Atoms())) else []
      ensures ok ==> exists k: nat :: IsOldest(old(Atoms()), k) && Atoms() == Without(old(Atoms()), k)
    {
      if count == 0 {
        return false;
      }
      ghost var k := OldestOf(Atoms());
      OldestIsOldest(Atoms());
      var r := FindOldest();
      ShrunkMore(l0, links, d, k);
      RemoveListed(r, k);
      ok := true;
    }

    /** so_atom_remove: an unknown id is no error. */
    method RemoveId(id: string)
      requires Booked()
      modifies this`links, this`count, this`size
      ensures Booked() && Atoms() == Others(old(Atoms()), id)
      ensures old(UniqueIds(Atoms())) ==> forall x :: x in Atoms() <==> x in old(Atoms()) && x.id != id
    {
      if UniqueIds(Atoms()) {
        OthersAre(Atoms(), id);
      }
      var r := Find(id);
      if r >= 0 {
        RemoveListed(r, IndexOf(Atoms(), id));
      }
    }

    /** The loop of so_atom_add over the memory limit. */
    method EvictForSize(extra: int, ghost l0: Links, ghost d: int)
      requires Booked() && Shrunk(l0, links, d)
      modifies this`links, this`count, this`size
      ensures Booked() && Shrunk(l0, links, d) && Atoms() == EvictUntil(old(Atoms()), extra, lim.memLimit)
    {
      while count > 0 && (size + extra > lim.memLimit || size + extra < 0)
        invariant Booked() && Shrunk(l0, links, d)
        invariant EvictUntil(Atoms(), extra, lim.memLimit) == EvictUntil(old(Atoms()), extra, lim.memLimit)
        decreases count
      {
        EvictOne(extra, l0, d);
      }
      EvictDone(Atoms(), count, size, extra, lim.memLimit);
    }

    method EvictOne(extra: int, ghost l0: Links, ghost d: int)
      requires Booked() && Shrunk(l0, links, d)
      requires count > 0 && (size + extra > lim.memLimit || size + extra < 0)
      modifies this`links, this`count, this`size
      ensures Booked() && Shrunk(l0, links, d) && count == old(count) - 1
      ensures EvictUntil(Atoms(), extra, lim.memLimit) == EvictUntil(old(Atoms()), extra, lim.memLimit)
    {
      EvictStep(Atoms(), extra, lim.memLimit);
      var ok := DeleteOldest(l0, d);
    }

    /** Node `r` is the one of that id, if there is one. */
    ghost predicate IsNode(id: string, r: int)
      reads this
      requires Linked(links)
    {
      && (r >= 0) == Has(Atoms(), id)
      && (r >= 0 ==> IndexOf(Atoms(), id) < |Refs(links)| && Refs(links)[IndexOf(Atoms(), id)] == r)
    }

    /** The first eviction of so_atom_add. */
    method EvictForCount(a: Atom, r: int)
      requires Valid() && IsNode(a.id, r)
      modifies this`links, this`count, this`size
      ensures Booked() && Shrunk(old(links), links, r) && Atoms() == Counted(old(Atoms()), a, lim)
    {
      assert r >= 0 ==> r in Refs(links);
      var found := if r >= 0 then 1 else 0;
      if lim.maxCount > 0 && count - found >= lim.maxCount {
        var done := DeleteOldest(links, r);
      }
    }

    /** Both kinds of eviction before a save. */
    method MakeRoom(a: Atom, r: int) returns (ok: bool)
      requires Valid() && IsNode(a.id, r)
      modifies this`links, this`count, this`size
      ensures Booked() && Shrunk(old(links), links, r) && ok == !TooLarge(a, lim)
      ensures Atoms() == Room(old(Atoms()), a, lim)
    {
      ghost var l0, before := links, Atoms();
      var oldSize := SizeOf(a.id, r);
      EvictForCount(a, r);
      ok := !(lim.memLimit > 0 && |a.data| > lim.memLimit);
      if lim.memLimit > 0 && ok {
        var extra := |a.data| - oldSize;
        assert extra == Extra(before, a);
        EvictForSize(extra, l0, r);
      }
    }

    method SizeOf(id: string, r: int) returns (n: nat)
      requires Linked(links) && IsNode(id, r)
      ensures n == OldSize(Atoms(), id)
    {
      if r >= 0 {
        NodeAt(links, IndexOf(Atoms(), id));
      }
      n := if r >= 0 then |links.nodes[r].atom.data| else 0;
    }

    /** The new atom in front, and the old one of its id unlinked. */
    method Place(a: Atom, r: int)
      requires Booked() && r < |links.nodes|
      modifies this`links, this`count, this`size
      ensures Proper(Push(old(links), a)) && r < |old(links).nodes| && links == Placed(old(links), a, r)
      ensures count == |old(Atoms())| + (if r >= 0 then 0 else 1)
      ensures size == Total(old(Atoms())) + |a.data| - (if r >= 0 then |old(links).nodes[r].atom.data| else 0)
    {
      PushLinked(links, a);
      InsertTotal(a, Atoms());
      Insert(a);
      if r >= 0 {
        RemoveNode(r);
      }
    }

    /** so_atom_add. A save that fits does what it should; one that does not
        unlinks the evicted node again, after which the counters are wrong: the
        new atom is lost, or there are more atoms than counted. */
    method Add(a: Atom) returns (ok: bool)
      requires Valid()
      modifies this`links, this`count, this`size
      ensures ok == (lim.memLimit == 0 || |a.data| <= lim.memLimit) && Proper(links)
      ensures Valid() <==> Fits(old(Atoms()), a, lim)
      ensures Fits(old(Atoms()), a, lim) ==> Atoms() == Saved(old(Atoms()), a, lim)
      ensures !Fits(old(Atoms()), a, lim) ==>
                var left := Room(old(Atoms()), a, lim);
                count == |left| && (Atoms() == left || |Atoms()| > count)
    {
      ghost var before, l0 := Atoms(), links;
      var r := Find(a.id);
      if r >= 0 {
        NodeAt(links, IndexOf(before, a.id));
      }
      ok := MakeRoom(a, r);
      if ok {
        SavedNode(l0, links, a, r, lim);
        FinishSave(a, r, before);
      } else {
        SavedConsistent(before, a, lim);
      }
    }

    /** The end of so_atom_add, from `before` and the evictions. */
    method FinishSave(a: Atom, r: int, ghost before: seq<Atom>)
      requires Booked() && r < |links.nodes| && Consistent(before, lim) && !TooLarge(a, lim)
      requires Atoms() == Room(before, a, lim) && Proper(Push(links, a)) && Proper(Placed(links, a, r))
      requires r < 0 ==> !Has(Atoms(), a.id)
      requires Fits(before, a, lim) ==>
                 Linked(Placed(links, a, r)) && Contents(Placed(links, a, r)) == Saved(before, a, lim)
      requires Fits(before, a, lim) && r >= 0 ==>
                 Has(Atoms(), a.id) && |links.nodes[r].atom.data| == OldSize(Atoms(), a.id)
      requires !Fits(before, a, lim) ==>
                 && r >= 0 && |a.data| > |links.nodes[r].atom.data|
                 && (Contents(Placed(links, a, r)) == Atoms() || |Refs(Placed(links, a, r))| > |Refs(links)|)
      modifies this`links, this`count, this`size
      ensures Proper(links) && (Valid() <==> Fits(before, a, lim))
      ensures Fits(before, a, lim) ==> Atoms() == Saved(before, a, lim)
      ensures !Fits(before, a, lim) ==> count == |old(Atoms())| && (Atoms() == old(Atoms()) || |Atoms()| > count)
    {
      if Fits(before, a, lim) {
        SavedConsistent(before, a, lim);
        SavedCounts(before, a, lim);
      }
      Place(a, r);
    }

    /** Saves of distinct ids, in the order of their times and none larger than
        the memory limit: the store is exactly the longest recent part of the
        history within both limits. */
    method SaveDistinct(saves: seq<Atom>)
      requires Valid() && Atoms() == [] && UniqueIds(saves) && InTime(saves)
      requires forall a :: a in saves ==> !TooLarge(a, lim)
      modifies this`links, this`count, this`size
      ensures Valid() && LongestFit(History(saves), |Atoms()|, lim)
      ensures Atoms() == History(saves)[..|Atoms()|]
    {
      for i := 0 to |saves|
        invariant Valid() && LongestFit(History(saves[..i]), |Atoms()|, lim)
        invariant Atoms() == History(saves[..i])[..|Atoms()|]
      {
        HistoryNext(saves, i);
        HistoryOrdered(saves, i);
        FreshId(saves, i, |Atoms()|);
        assert saves[i] in saves;
        SaveOne(saves[i], History(saves[..i]));
      }
      assert saves[..|saves|] == saves;
    }

    /** One more save of a new id. */
    method SaveOne(a: Atom, ghost hist: seq<Atom>)
      requires Valid() && LongestFit(hist, |Atoms()|, lim) && Atoms() == hist[..|Atoms()|]
      requires Ordered(hist) && !Has(Atoms(), a.id) && !TooLarge(a, lim)
      modifies this`links, this`count, this`size
      ensures Valid() && LongestFit([a] + hist, |Atoms()|, lim)
      ensures Atoms() == ([a] + hist)[..|Atoms()|]
    {
      ghost var n := |Atoms()|;
      OrderedPrefix(hist, n);
      SavedLongest(Atoms(), a, lim);
      LongestOverall(hist, n, a, |Saved(Atoms(), a, lim)|, lim);
      var ok := Add(a);
    }

    /** Any saves in the order of their times, ids repeated at will, without a
        memory limit: the store is the most recently saved distinct ids, as many
        as allowed, each with its latest data. */
    method SaveRepeated(saves: seq<Atom>)
      requires Valid() && Atoms() == [] && lim.memLimit == 0 && InTime(saves)
      modifies this`links, this`count, this`size
      ensures Valid()
      ensures Atoms() == Latest(History(saves))[..Capped(|Latest(History(saves))|, lim.maxCount)]
    {
      for i := 0 to |saves|
        invariant Valid()
        invariant Atoms() == Latest(History(saves[..i]))[..Capped(|Latest(History(saves[..i]))|, lim.maxCount)]
      {
        HistoryNext(saves, i);
        HistoryOrdered(saves, i);
        RepeatedStep(History(saves[..i]), saves[i], Atoms(), lim);
        var ok := Add(saves[i]);
      }
      assert saves[..|saves|] == saves;
    }

    /** session_cmd_save, session_cmd_remove and session_cmd_delold. */
    method Handle(msg: Message)
      requires Valid()
      modifies this`links, this`count, this`size
      ensures Valid() <==> (msg.Save? ==> Fits(old(Atoms()), msg.atom, lim))
      ensures Valid() ==> Atoms() == After(old(Atoms()), msg, lim)
    {
      if msg.Save? {
        var ok := Add(msg.atom);
        return;
      }
      AfterConsistent(Atoms(), msg, lim);
      if msg.Remove? {
        RemoveId(msg.id);
      } else {
        var ok := DeleteOldest(links, -1);
      }
    }

    /** The parent serving any interleaving of messages from its children. As
        long as every save fits the store is as it should be; the first that does
        not breaks it. */
    method Serve(msgs: seq<Message>)
      requires Valid() && (msgs != [] ==> Orderly(Atoms(), msgs[..|msgs| - 1], lim))
      modifies this`links, this`count, this`size
      ensures Valid() <==> Orderly(old(Atoms()), msgs, lim)
      ensures Valid() ==> Atoms() == AfterAll(old(Atoms()), msgs, lim)
    {
      ghost var start := Atoms();
      for i := 0 to |msgs|
        invariant Valid() <==> Orderly(start, msgs[..i], lim)
        invariant Valid() ==> Atoms() == AfterAll(start, msgs[..i], lim)
      {
        OrderlyPrefix(start, msgs, i, |msgs| - 1, lim);
        OrderlyNext(start, msgs, i, lim);
        Handle(msgs[i]);
      }
      assert msgs[..|msgs|] == msgs;
    }
  }

  /** A save of a new id that needs no eviction. */
  lemma {:induction false} SavedPlain(atoms: seq<Atom>, a: Atom, limit: nat)
    requires !Has(atoms, a.id) && Total(atoms) + |a.data| <= limit
    ensures Saved(atoms, a, Limits(0, limit)) == [a] + atoms && Fits(atoms, a, Limits(0, limit))
  {
    var extra := Extra(atoms, a);
    assert extra == |a.data| && Counted(atoms, a, Limits(0, limit)) == atoms;
    assert EvictUntil(atoms, extra, limit) == atoms;
  }

  lemma {:induction false} ListOfTwo(x: Atom, y: Atom)
    requires x.id != y.id
    ensures IndexOf([x, y], x.id) == 0 && IndexOf([x, y], y.id) == 1
    ensures Outliving([x, y], 0) == if y.mtime > x.mtime then |y.data| else 0
    ensures Outliving([x, y], 1) == if x.mtime >= y.mtime then |x.data| else 0
  {
    var l := [x, y];
    assert l[1..] == [y] && [y][1..] == [] && l[..1] == [x] && [x][1..] == [];
    assert l[..0] == [] && l[2..] == [] && l[0] == x && l[1] == y;
    assert IndexOf([y], y.id) == 0;
    assert Above([y], x.mtime) == (if y.mtime > x.mtime then |y.data| else 0) + Above([], x.mtime);
    assert AtLeast([x], y.mtime) == (if x.mtime >= y.mtime then |x.data| else 0) + AtLeast([], y.mtime);
  }

  /** A store with two sessions of ten bytes in all. */
  method TwoSaves(x: Atom, y: Atom) returns (s: Store)
    requires x.id != y.id && |x.data| + |y.data| == 10
    ensures fresh(s) && s.Valid() && s.Atoms() == [y, x] && s.lim == Limits(0, 10)
  {
    s := new Store(Limits(0, 10));
    SavedPlain([], x, 10);
    var ok := s.Add(x);
    assert [x] + [] == [x] && [x][1..] == [];
    TotalOne(x);
    SavedPlain([x], y, 10);
    ok := s.Add(y);
    assert [y] + [x] == [y, x];
  }

  /** Under a limit of ten bytes, with six saved under "a" and then four under
      "b", saving eight under "a" again breaks the store. */
  method ResaveBreaks() returns (s: Store)
    ensures !s.Valid()
  {
    var a, b := Atom("a", "666666", 1), Atom("b", "4444", 2);
    s := TwoSaves(a, b);
    ListOfTwo(b, a);
    var ok := s.Add(Atom("a", "88888888", 3));
  }

  /** And so it does when the messages arrived out of the order of their times,
      so that "a" is at the head of the list when it is evicted. */
  method ResaveBreaksOutOfOrder() returns (s: Store)
    ensures !s.Valid()
  {
    var a, b := Atom("a", "666666", 1), Atom("b", "4444", 2);
    s := TwoSaves(b, a);
    ListOfTwo(a, b);
    var ok := s.Add(Atom("a", "88888888", 3));
  }
}

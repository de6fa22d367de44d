/**
  What the save, remove and eviction rules of src/libpage/ses_mem.c do to the
  list of sessions, newest save first, and what they are for.
 */
module Eviction {
  import opened AtomList

  /** Configured limits; 0 means no limit. */
  datatype Limits = Limits(maxCount: nat, memLimit: nat)

  /** Messages the children send to the parent. */
  datatype Message = Save(atom: Atom) | Remove(id: string) | DelOld

  function Total(atoms: seq<Atom>): nat {
    if atoms == [] then 0 else |atoms[0].data| + Total(atoms[1..])
  }

  /** Index of the atom of that id, or -1. */
  function IndexOf(atoms: seq<Atom>, id: string): (k: int)
    ensures -1 <= k < |atoms|
    ensures k >= 0 ==> atoms[k].id == id
  {
    if atoms == [] then -1
    else if atoms[0].id == id then 0
    else
      var k := IndexOf(atoms[1..], id);
      if k < 0 then -1 else k + 1
  }

  predicate Has(atoms: seq<Atom>, id: string) {
    IndexOf(atoms, id) >= 0
  }

  predicate UniqueIds(atoms: seq<Atom>) {
    atoms == [] || (!Has(atoms[1..], atoms[0].id) && UniqueIds(atoms[1..]))
  }

  function Others(atoms: seq<Atom>, id: string): seq<Atom> {
    if Has(atoms, id) then Without(atoms, IndexOf(atoms, id)) else atoms
  }

  /** Least mtime, and on a tie the atom furthest down the list. */
  predicate IsOldest(atoms: seq<Atom>, k: nat) {
    && k < |atoms|
    && (forall j :: 0 <= j < |atoms| ==> atoms[k].mtime <= atoms[j].mtime)
    && (forall j :: k < j < |atoms| ==> atoms[k].mtime < atoms[j].mtime)
  }

  function OldestOf(atoms: seq<Atom>): (k: nat)
    requires atoms != []
    ensures k < |atoms|
  {
    var n := |atoms| - 1;
    if n == 0 then 0
    else
      var k := OldestOf(atoms[..n]);
      if atoms[n].mtime <= atoms[k].mtime then n else k
  }

  /** The search finds the one oldest atom. */
  lemma {:induction false} OldestIsOldest(atoms: seq<Atom>)
    requires atoms != []
    ensures IsOldest(atoms, OldestOf(atoms))
  {
    var n := |atoms| - 1;
    if n > 0 {
      OldestIsOldest(atoms[..n]);
    }
  }

  lemma {:induction false} OldestNext(atoms: seq<Atom>, i: nat)
    requires 0 < i < |atoms|
    ensures OldestOf(atoms[..i + 1]) ==
            if atoms[i].mtime <= atoms[OldestOf(atoms[..i])].mtime then i else OldestOf(atoms[..i])
  {
    assert atoms[..i + 1][..i] == atoms[..i];
  }

  /** so_atom_delete_oldest on a store that is not empty. */
  function Evicted(atoms: seq<Atom>): seq<Atom>
    requires atoms != []
  {
    Without(atoms, OldestOf(atoms))
  }

  /** An unsigned sum that is over the limit, wrapped below zero included. */
  predicate Over(total: int, limit: nat) {
    total > limit || total < 0
  }

  function EvictUntil(atoms: seq<Atom>, extra: int, limit: nat): seq<Atom>
    decreases |atoms|
  {
    if atoms != [] && Over(Total(atoms) + extra, limit) then EvictUntil(Evicted(atoms), extra, limit) else atoms
  }

  lemma {:induction false} EvictStep(atoms: seq<Atom>, extra: int, limit: nat)
    requires atoms != [] && Over(Total(atoms) + extra, limit)
    ensures EvictUntil(atoms, extra, limit) == EvictUntil(Evicted(atoms), extra, limit)
  {
  }

  lemma {:induction false} EvictDone(atoms: seq<Atom>, count: int, size: int, extra: int, limit: nat)
    requires count == |atoms| && size == Total(atoms)
    requires !(count > 0 && (size + extra > limit || size + extra < 0))
    ensures EvictUntil(atoms, extra, limit) == atoms
  {
  }

  predicate TooLarge(a: Atom, lim: Limits) {
    0 < lim.memLimit < |a.data|
  }

  function OldSize(atoms: seq<Atom>, id: string): nat {
    if Has(atoms, id) then |atoms[IndexOf(atoms, id)].data| else 0
  }

  /** How much a save would add. */
  function Extra(atoms: seq<Atom>, a: Atom): int {
    |a.data| - OldSize(atoms, a.id)
  }

  predicate EvictsFirst(atoms: seq<Atom>, a: Atom, lim: Limits) {
    lim.maxCount > 0 && |atoms| - (if Has(atoms, a.id) then 1 else 0) >= lim.maxCount
  }

  /** The first eviction of so_atom_add, by count. */
  function Counted(atoms: seq<Atom>, a: Atom, lim: Limits): seq<Atom> {
    if EvictsFirst(atoms, a, lim) then Evicted(atoms) else atoms
  }

  /** What the evictions of so_atom_add leave. */
  function Room(atoms: seq<Atom>, a: Atom, lim: Limits): seq<Atom> {
    if lim.memLimit == 0 || TooLarge(a, lim) then Counted(atoms, a, lim)
    else EvictUntil(Counted(atoms, a, lim), Extra(atoms, a), lim.memLimit)
  }

  /** so_atom_add, as long as the replaced atom is still listed when it is to be
      removed. */
  function Saved(atoms: seq<Atom>, a: Atom, lim: Limits): seq<Atom> {
    if TooLarge(a, lim) then Room(atoms, a, lim) else [a] + Others(Room(atoms, a, lim), a.id)
  }

  function AtLeast(atoms: seq<Atom>, m: int): nat {
    if atoms == [] then 0 else (if atoms[0].mtime >= m then |atoms[0].data| else 0) + AtLeast(atoms[1..], m)
  }

  function Above(atoms: seq<Atom>, m: int): nat {
    if atoms == [] then 0 else (if atoms[0].mtime > m then |atoms[0].data| else 0) + Above(atoms[1..], m)
  }

  /** Total size of the atoms that are evicted later than atom `k`: those of a
      later time, and those of the same time nearer to the head. */
  function Outliving(atoms: seq<Atom>, k: nat): nat
    requires k < |atoms|
  {
    AtLeast(atoms[..k], atoms[k].mtime) + Above(atoms[k + 1..], atoms[k].mtime)
  }

  /** The condition for a save to keep the store sound: the new data fits beside
      the atoms that would be evicted later than the one it replaces. */
  predicate Fits(atoms: seq<Atom>, a: Atom, lim: Limits) {
    lim.memLimit > 0 && !TooLarge(a, lim) && Has(atoms, a.id) ==>
      Outliving(atoms, IndexOf(atoms, a.id)) + |a.data| <= lim.memLimit
  }

  predicate Within(atoms: seq<Atom>, lim: Limits) {
    && (lim.maxCount > 0 ==> |atoms| <= lim.maxCount)
    && (lim.memLimit > 0 ==> Total(atoms) <= lim.memLimit)
  }

  predicate Consistent(atoms: seq<Atom>, lim: Limits) {
    UniqueIds(atoms) && Within(atoms, lim)
  }

  function After(atoms: seq<Atom>, msg: Message, lim: Limits): seq<Atom> {
    match msg
    case Save(a) => Saved(atoms, a, lim)
    case Remove(id) => Others(atoms, id)
    case DelOld => if atoms == [] then [] else Evicted(atoms)
  }

  /** Every save of a run fits when its turn comes. */
  predicate Orderly(atoms: seq<Atom>, msgs: seq<Message>, lim: Limits)
    decreases |msgs|
  {
    msgs == [] ||
    ((msgs[0].Save? ==> Fits(atoms, msgs[0].atom, lim)) && Orderly(After(atoms, msgs[0], lim), msgs[1..], lim))
  }

  function AfterAll(atoms: seq<Atom>, msgs: seq<Message>, lim: Limits): seq<Atom>
    decreases |msgs|
  {
    if msgs == [] then atoms else AfterAll(After(atoms, msgs[0], lim), msgs[1..], lim)
  }

  // ---- lists ----

  lemma {:induction false} TotalAppend(a: seq<Atom>, b: seq<Atom>)
    ensures Total(a + b) == Total(a) + Total(b)
  {
    if a == [] {
      assert a + b == b;
    } else {
      assert (a + b)[1..] == a[1..] + b;
      TotalAppend(a[1..], b);
    }
  }

  lemma {:induction false} AtLeastAppend(a: seq<Atom>, b: seq<Atom>, m: int)
    ensures AtLeast(a + b, m) == AtLeast(a, m) + AtLeast(b, m)
  {
    if a == [] {
      assert a + b == b;
    } else {
      assert (a + b)[1..] == a[1..] + b;
      AtLeastAppend(a[1..], b, m);
    }
  }

  lemma {:induction false} AboveAppend(a: seq<Atom>, b: seq<Atom>, m: int)
    ensures Above(a + b, m) == Above(a, m) + Above(b, m)
  {
    if a == [] {
      assert a + b == b;
    } else {
      assert (a + b)[1..] == a[1..] + b;
      AboveAppend(a[1..], b, m);
    }
  }

  /** Three parts of a list around position `k`. */
  lemma {:induction false} Around<T>(s: seq<T>, k: nat)
    requires k < |s|
    ensures s == s[..k] + ([s[k]] + s[k + 1..])
  {
  }

  lemma {:induction false} TotalOne(a: Atom)
    ensures Total([a]) == |a.data|
  {
    assert [a][1..] == [];
  }

  lemma {:induction false} TotalWithout(atoms: seq<Atom>, k: nat)
    requires k < |atoms|
    ensures Total(Without(atoms, k)) == Total(atoms) - |atoms[k].data|
  {
    var x, y := atoms[..k], atoms[k + 1..];
    Around(atoms, k);
    TotalAppend(x, [atoms[k]] + y);
    TotalAppend([atoms[k]], y);
    TotalOne(atoms[k]);
    TotalAppend(x, y);
  }

  lemma {:induction false} InsertTotal(a: Atom, rest: seq<Atom>)
    ensures Total([a] + rest) == |a.data| + Total(rest)
  {
    TotalAppend([a], rest);
    TotalOne(a);
  }

  lemma {:induction false} WithoutUnique(atoms: seq<Atom>, k: nat)
    requires UniqueIds(atoms) && k < |atoms|
    ensures UniqueIds(Without(atoms, k)) && !Has(Without(atoms, k), atoms[k].id)
    ensures forall a :: a in Without(atoms, k) ==> a in atoms
  {
    var w, tail := Without(atoms, k), atoms[1..];
    if k == 0 {
      assert w == tail;
    } else {
      WithoutUnique(tail, k - 1);
      assert atoms == [atoms[0]] + tail;
      WithoutLater([atoms[0]], tail, k - 1);
      assert w[1..] == Without(tail, k - 1);
      NotIn(tail, w[1..], atoms[0].id);
      UniqueIndex(atoms, k);
    }
  }

  lemma {:induction false} UniqueIndex(atoms: seq<Atom>, k: nat)
    requires UniqueIds(atoms) && k < |atoms|
    ensures IndexOf(atoms, atoms[k].id) == k
  {
    if k > 0 {
      UniqueIndex(atoms[1..], k - 1);
      HasAny(atoms[1..], atoms[0].id);
      assert atoms[1..][k - 1] == atoms[k];
    }
  }

  lemma {:induction false} HasAny(atoms: seq<Atom>, id: string)
    ensures Has(atoms, id) <==> exists a :: a in atoms && a.id == id
  {
    if atoms != [] {
      HasAny(atoms[1..], id);
      assert atoms == [atoms[0]] + atoms[1..];
    }
  }

  lemma {:induction false} OthersFacts(atoms: seq<Atom>, id: string)
    requires UniqueIds(atoms)
    ensures UniqueIds(Others(atoms, id)) && !Has(Others(atoms, id), id)
    ensures forall a :: a in Others(atoms, id) ==> a in atoms
    ensures |Others(atoms, id)| == |atoms| - if Has(atoms, id) then 1 else 0
    ensures Total(Others(atoms, id)) == Total(atoms) - OldSize(atoms, id)
  {
    if Has(atoms, id) {
      WithoutUnique(atoms, IndexOf(atoms, id));
      TotalWithout(atoms, IndexOf(atoms, id));
    }
  }

  /** The first atom of that id, or there is none. */
  lemma {:induction false} IndexOfIs(atoms: seq<Atom>, id: string)
    ensures var k := IndexOf(atoms, id);
            forall j :: 0 <= j < (if k < 0 then |atoms| else k) ==> atoms[j].id != id
  {
    if atoms != [] && atoms[0].id != id {
      IndexOfIs(atoms[1..], id);
      assert forall j :: 1 <= j < |atoms| ==> atoms[j] == atoms[1..][j - 1];
    }
  }

  /** Exactly the atoms of other ids. */
  lemma {:induction false} OthersAre(atoms: seq<Atom>, id: string)
    requires UniqueIds(atoms)
    ensures forall x :: x in Others(atoms, id) <==> x in atoms && x.id != id
  {
    OthersFacts(atoms, id);
    HasAny(Others(atoms, id), id);
    HasAny(atoms, id);
    if Has(atoms, id) {
      var k := IndexOf(atoms, id);
      forall x | x in atoms && x.id != id ensures x in Others(atoms, id) {
        var j :| 0 <= j < |atoms| && atoms[j] == x;
        assert Others(atoms, id)[if j < k then j else j - 1] == x;
      }
    }
  }

  /** An atom in front of others with other ids. */
  lemma {:induction false} InsertUnique(a: Atom, rest: seq<Atom>)
    requires UniqueIds(rest) && !Has(rest, a.id)
    ensures UniqueIds([a] + rest)
  {
    assert ([a] + rest)[1..] == rest;
  }

  // ---- evictions ----

  /** `b` is left of `a`: some of its atoms, no new one. */
  predicate PartOf(b: seq<Atom>, a: seq<Atom>) {
    |b| <= |a| && Total(b) <= Total(a) && forall x :: x in b ==> x in a
  }

  lemma {:induction false} PartOfPart(c: seq<Atom>, b: seq<Atom>, a: seq<Atom>)
    requires PartOf(c, b) && PartOf(b, a)
    ensures PartOf(c, a)
  {
  }

  lemma {:induction false} EvictedPart(atoms: seq<Atom>)
    requires atoms != []
    ensures PartOf(Evicted(atoms), atoms) && |Evicted(atoms)| == |atoms| - 1
    ensures UniqueIds(atoms) ==> UniqueIds(Evicted(atoms))
  {
    var k := OldestOf(atoms);
    TotalWithout(atoms, k);
    if UniqueIds(atoms) {
      WithoutUnique(atoms, k);
    }
  }

  lemma {:induction false} EvictUntilPart(atoms: seq<Atom>, extra: int, limit: nat)
    ensures PartOf(EvictUntil(atoms, extra, limit), atoms)
    decreases |atoms|
  {
    if atoms != [] && Over(Total(atoms) + extra, limit) {
      var e := Evicted(atoms);
      EvictedPart(atoms);
      EvictUntilPart(e, extra, limit);
      PartOfPart(EvictUntil(e, extra, limit), e, atoms);
    }
  }

  lemma {:induction false} EvictUntilEnds(atoms: seq<Atom>, extra: int, limit: nat)
    ensures var b := EvictUntil(atoms, extra, limit);
            (b == [] || !Over(Total(b) + extra, limit)) && (UniqueIds(atoms) ==> UniqueIds(b))
    decreases |atoms|
  {
    if atoms != [] && Over(Total(atoms) + extra, limit) {
      EvictedPart(atoms);
      EvictUntilEnds(Evicted(atoms), extra, limit);
    }
  }

  lemma {:induction false} CountedPart(atoms: seq<Atom>, a: Atom, lim: Limits)
    requires UniqueIds(atoms) && Within(atoms, lim)
    ensures PartOf(Counted(atoms, a, lim), atoms) && UniqueIds(Counted(atoms, a, lim))
    ensures lim.maxCount > 0 && !Has(atoms, a.id) ==> |Counted(atoms, a, lim)| < lim.maxCount
  {
    if EvictsFirst(atoms, a, lim) {
      EvictedPart(atoms);
    }
  }

  lemma {:induction false} RoomPart(atoms: seq<Atom>, a: Atom, lim: Limits)
    requires Consistent(atoms, lim)
    ensures PartOf(Room(atoms, a, lim), atoms) && UniqueIds(Room(atoms, a, lim))
    ensures lim.maxCount > 0 && !Has(atoms, a.id) ==> |Room(atoms, a, lim)| < lim.maxCount
    ensures lim.memLimit > 0 && !TooLarge(a, lim) ==>
              var b := Room(atoms, a, lim);
              b == [] || !Over(Total(b) + Extra(atoms, a), lim.memLimit)
  {
    CountedPart(atoms, a, lim);
    var some, extra := Counted(atoms, a, lim), Extra(atoms, a);
    if lim.memLimit > 0 && !TooLarge(a, lim) {
      EvictUntilPart(some, extra, lim.memLimit);
      EvictUntilEnds(some, extra, lim.memLimit);
      PartOfPart(Room(atoms, a, lim), some, atoms);
    }
  }

  // ---- the atom that is replaced ----

  /** Evicting an older atom takes nothing from those that outlive atom `k`. */
  lemma {:induction false} OutlivingEvicted(atoms: seq<Atom>, o: nat, k: nat)
    requires o < |atoms| && k < |atoms| && o != k && IsOldest(atoms, o)
    ensures var k' := if o < k then k - 1 else k;
            Without(atoms, o)[k'] == atoms[k] && Outliving(Without(atoms, o), k') == Outliving(atoms, k)
  {
    var m := atoms[k].mtime;
    if o < k {
      WithoutBefore(atoms, o, k);
      assert atoms[..k][o] == atoms[o] && atoms[o].mtime < m;
      AtLeastWithout(atoms[..k], o, m);
    } else {
      WithoutBehind(atoms, o, k);
      assert atoms[k + 1..][o - k - 1] == atoms[o] && atoms[o].mtime <= m;
      AboveWithout(atoms[k + 1..], o - k - 1, m);
    }
  }

  lemma {:induction false} AtLeastWithout(s: seq<Atom>, o: nat, m: int)
    requires o < |s| && s[o].mtime < m
    ensures AtLeast(Without(s, o), m) == AtLeast(s, m)
  {
    var x, e, y := s[..o], [s[o]], s[o + 1..];
    Around(s, o);
    assert e[1..] == [];
    AtLeastAppend(x, e + y, m);
    AtLeastAppend(e, y, m);
    AtLeastAppend(x, y, m);
  }

  lemma {:induction false} AboveWithout(s: seq<Atom>, o: nat, m: int)
    requires o < |s| && s[o].mtime <= m
    ensures Above(Without(s, o), m) == Above(s, m)
  {
    var x, e, y := s[..o], [s[o]], s[o + 1..];
    Around(s, o);
    assert e[1..] == [];
    AboveAppend(x, e + y, m);
    AboveAppend(e, y, m);
    AboveAppend(x, y, m);
  }

  lemma {:induction false} WithoutBefore<T>(s: seq<T>, o: nat, k: nat)
    requires o < k < |s|
    ensures var w := Without(s, o);
            w[k - 1] == s[k] && w[..k - 1] == Without(s[..k], o) && w[k..] == s[k + 1..]
  {
  }

  lemma {:induction false} WithoutBehind<T>(s: seq<T>, o: nat, k: nat)
    requires k < o < |s|
    ensures var w := Without(s, o);
            w[k] == s[k] && w[..k] == s[..k] && w[k + 1..] == Without(s[k + 1..], o - k - 1)
  {
  }

  lemma {:induction false} AtLeastAll(atoms: seq<Atom>, m: int)
    ensures AtLeast(atoms, m) <= Total(atoms)
    ensures (forall j :: 0 <= j < |atoms| ==> atoms[j].mtime >= m) ==> AtLeast(atoms, m) == Total(atoms)
  {
    if atoms != [] {
      AtLeastAll(atoms[1..], m);
    }
  }

  lemma {:induction false} AboveAll(atoms: seq<Atom>, m: int)
    ensures Above(atoms, m) <= Total(atoms)
    ensures (forall j :: 0 <= j < |atoms| ==> atoms[j].mtime > m) ==> Above(atoms, m) == Total(atoms)
  {
    if atoms != [] {
      AboveAll(atoms[1..], m);
    }
  }

  lemma {:induction false} OutlivingBound(atoms: seq<Atom>, k: nat)
    requires k < |atoms|
    ensures Outliving(atoms, k) + |atoms[k].data| <= Total(atoms)
    ensures IsOldest(atoms, k) ==> Outliving(atoms, k) + |atoms[k].data| == Total(atoms)
  {
    TotalWithout(atoms, k);
    TotalAppend(atoms[..k], atoms[k + 1..]);
    AtLeastAll(atoms[..k], atoms[k].mtime);
    AboveAll(atoms[k + 1..], atoms[k].mtime);
    if IsOldest(atoms, k) {
      AllLater(atoms, k, atoms[..k], atoms[k + 1..]);
    }
  }

  lemma {:induction false} AllLater(atoms: seq<Atom>, k: nat, x: seq<Atom>, y: seq<Atom>)
    requires IsOldest(atoms, k) && x == atoms[..k] && y == atoms[k + 1..]
    ensures forall j :: 0 <= j < |x| ==> x[j].mtime >= atoms[k].mtime
    ensures forall j :: 0 <= j < |y| ==> y[j].mtime > atoms[k].mtime
  {
  }

  /** Atom `k` survives the evictions exactly when the new data fits beside the
      atoms that outlive it. */
  lemma {:induction false} Survives(atoms: seq<Atom>, k: nat, extra: int, limit: nat)
    requires UniqueIds(atoms) && k < |atoms| && |atoms[k].data| + extra >= 0
    ensures Has(EvictUntil(atoms, extra, limit), atoms[k].id)
            <==> Outliving(atoms, k) + |atoms[k].data| + extra <= limit
    decreases |atoms|
  {
    if !Over(Total(atoms) + extra, limit) {
      SurvivesAll(atoms, k, extra, limit);
    } else if OldestOf(atoms) == k {
      DiesNow(atoms, k, extra, limit);
    } else {
      var e, k' := LaterEvicted(atoms, k, extra, limit);
      Survives(e, k', extra, limit);
    }
  }

  /** No eviction at all. */
  lemma {:induction false} SurvivesAll(atoms: seq<Atom>, k: nat, extra: int, limit: nat)
    requires UniqueIds(atoms) && k < |atoms| && !Over(Total(atoms) + extra, limit)
    ensures Has(EvictUntil(atoms, extra, limit), atoms[k].id) && Outliving(atoms, k) + |atoms[k].data| + extra <= limit
  {
    OutlivingBound(atoms, k);
    UniqueIndex(atoms, k);
  }

  /** The eviction of atom `k` itself. */
  lemma {:induction false} DiesNow(atoms: seq<Atom>, k: nat, extra: int, limit: nat)
    requires UniqueIds(atoms) && k < |atoms| && |atoms[k].data| + extra >= 0
    requires Over(Total(atoms) + extra, limit) && OldestOf(atoms) == k
    ensures !Has(EvictUntil(atoms, extra, limit), atoms[k].id) && Outliving(atoms, k) + |atoms[k].data| + extra > limit
  {
    OldestIsOldest(atoms);
    OutlivingBound(atoms, k);
    assert EvictUntil(atoms, extra, limit) == EvictUntil(Evicted(atoms), extra, limit);
    DiesFirst(atoms, extra, limit);
  }

  /** After the eviction of another, atom `k` sits at the position returned and
      is outlived by as much. */
  lemma {:induction false} LaterEvicted(atoms: seq<Atom>, k: nat, extra: int, limit: nat)
    returns (e: seq<Atom>, k': nat)
    requires UniqueIds(atoms) && k < |atoms| && OldestOf(atoms) != k && Over(Total(atoms) + extra, limit)
    ensures k' < |e| < |atoms| && UniqueIds(e) && e[k'] == atoms[k] && Outliving(e, k') == Outliving(atoms, k)
    ensures EvictUntil(atoms, extra, limit) == EvictUntil(e, extra, limit)
  {
    var o := OldestOf(atoms);
    e := Evicted(atoms);
    OldestIsOldest(atoms);
    WithoutUnique(atoms, o);
    OutlivingEvicted(atoms, o, k);
    k' := if o < k then k - 1 else k;
  }

  lemma {:induction false} DiesFirst(atoms: seq<Atom>, extra: int, limit: nat)
    requires UniqueIds(atoms) && atoms != []
    ensures !Has(EvictUntil(Evicted(atoms), extra, limit), atoms[OldestOf(atoms)].id)
  {
    WithoutUnique(atoms, OldestOf(atoms));
    EvictUntilPart(Evicted(atoms), extra, limit);
    NotIn(Evicted(atoms), EvictUntil(Evicted(atoms), extra, limit), atoms[OldestOf(atoms)].id);
  }

  lemma {:induction false} NotIn(a: seq<Atom>, b: seq<Atom>, id: string)
    requires !Has(a, id) && forall x :: x in b ==> x in a
    ensures !Has(b, id)
  {
    HasAny(a, id);
    HasAny(b, id);
  }

  /** So a save keeps the replaced atom until its turn exactly when it fits. */
  lemma {:induction false} FitsExactly(atoms: seq<Atom>, a: Atom, lim: Limits)
    requires Consistent(atoms, lim) && Has(atoms, a.id) && !TooLarge(a, lim)
    ensures Has(Room(atoms, a, lim), a.id) <==> Fits(atoms, a, lim)
    ensures lim.memLimit == 0 ==> Room(atoms, a, lim) == atoms
    ensures !Fits(atoms, a, lim) ==> |a.data| > OldSize(atoms, a.id)
  {
    var k := IndexOf(atoms, a.id);
    assert Counted(atoms, a, lim) == atoms;
    if lim.memLimit > 0 {
      OutlivingBound(atoms, k);
      Survives(atoms, k, Extra(atoms, a), lim.memLimit);
    }
  }

  lemma {:induction false} SameSize(atoms: seq<Atom>, b: seq<Atom>, id: string)
    requires UniqueIds(atoms) && PartOf(b, atoms) && Has(b, id)
    ensures Has(atoms, id) && OldSize(b, id) == OldSize(atoms, id)
  {
    var x := b[IndexOf(b, id)];
    assert x in b && x in atoms;
    var k :| 0 <= k < |atoms| && atoms[k] == x;
    UniqueIndex(atoms, k);
  }

  /** A save that fits keeps ids unique and both limits. */
  lemma {:induction false} SavedConsistent(atoms: seq<Atom>, a: Atom, lim: Limits)
    requires Consistent(atoms, lim) && Fits(atoms, a, lim)
    ensures Consistent(Saved(atoms, a, lim), lim)
  {
    var b := Room(atoms, a, lim);
    RoomPart(atoms, a, lim);
    if !TooLarge(a, lim) {
      OthersFacts(b, a.id);
      InsertUnique(a, Others(b, a.id));
      InsertTotal(a, Others(b, a.id));
      SavedSize(atoms, a, lim);
    }
  }

  /** Another atom in place of the old one, or one more where there is room. */
  lemma {:induction false} SavedSize(atoms: seq<Atom>, a: Atom, lim: Limits)
    requires Consistent(atoms, lim) && Fits(atoms, a, lim) && !TooLarge(a, lim)
    ensures var b := Room(atoms, a, lim);
            && (lim.maxCount > 0 ==> 1 + |b| - (if Has(b, a.id) then 1 else 0) <= lim.maxCount)
            && (lim.memLimit > 0 ==> |a.data| + Total(b) - OldSize(b, a.id) <= lim.memLimit)
  {
    var b := Room(atoms, a, lim);
    RoomPart(atoms, a, lim);
    if Has(atoms, a.id) {
      FitsExactly(atoms, a, lim);
      SameSize(atoms, b, a.id);
    } else {
      NotIn(atoms, b, a.id);
    }
  }

  /** Which atoms a save leaves, whatever the order of the list: when it replaces
      atom `o`, exactly those that the new data fits beside, together with all
      that outlive them. */
  lemma {:induction false} ResaveKeeps(atoms: seq<Atom>, a: Atom, lim: Limits, o: nat, k: nat)
    requires Consistent(atoms, lim) && 0 < lim.memLimit && |a.data| <= lim.memLimit
    requires o < |atoms| && k < |atoms| && o != k && atoms[o].id == a.id
    ensures Has(Saved(atoms, a, lim), atoms[k].id)
            <==> Outliving(atoms, k) + |atoms[k].data| + |a.data| - |atoms[o].data| <= lim.memLimit
  {
    ResaveRoom(atoms, a, lim, o, atoms[k].id);
    OtherId(atoms, o, k);
    KeepsAfter(atoms, |a.data| - |atoms[o].data|, lim.memLimit, o, k);
  }

  lemma {:induction false} OtherId(atoms: seq<Atom>, o: nat, k: nat)
    requires UniqueIds(atoms) && o < |atoms| && k < |atoms| && o != k
    ensures atoms[o].id != atoms[k].id
  {
    UniqueIndex(atoms, o);
    UniqueIndex(atoms, k);
  }

  lemma {:induction false} ResaveRoom(atoms: seq<Atom>, a: Atom, lim: Limits, o: nat, id: string)
    requires Consistent(atoms, lim) && 0 < lim.memLimit && |a.data| <= lim.memLimit
    requires o < |atoms| && atoms[o].id == a.id
    ensures id != a.id ==> (Has(Saved(atoms, a, lim), id) <==>
                            Has(EvictUntil(atoms, |a.data| - |atoms[o].data|, lim.memLimit), id))
  {
    UniqueIndex(atoms, o);
    assert Room(atoms, a, lim) == EvictUntil(atoms, |a.data| - |atoms[o].data|, lim.memLimit);
    RoomPart(atoms, a, lim);
    if id != a.id {
      SavedHas(Room(atoms, a, lim), a, id);
    }
  }

  /** And when it is a new one. */
  lemma {:induction false} SaveKeeps(atoms: seq<Atom>, a: Atom, lim: Limits, k: nat)
    requires Consistent(atoms, lim) && 0 < lim.memLimit && |a.data| <= lim.memLimit
    requires !Has(atoms, a.id) && (lim.maxCount > 0 ==> |atoms| < lim.maxCount) && k < |atoms|
    ensures Has(Saved(atoms, a, lim), atoms[k].id)
            <==> Outliving(atoms, k) + |atoms[k].data| + |a.data| <= lim.memLimit
  {
    SaveRoom(atoms, a, lim, atoms[k].id);
    UniqueIndex(atoms, k);
    Survives(atoms, k, |a.data|, lim.memLimit);
  }

  lemma {:induction false} SaveRoom(atoms: seq<Atom>, a: Atom, lim: Limits, id: string)
    requires Consistent(atoms, lim) && 0 < lim.memLimit && |a.data| <= lim.memLimit
    requires !Has(atoms, a.id) && (lim.maxCount > 0 ==> |atoms| < lim.maxCount)
    ensures id != a.id ==> (Has(Saved(atoms, a, lim), id) <==> Has(EvictUntil(atoms, |a.data|, lim.memLimit), id))
  {
    assert Room(atoms, a, lim) == EvictUntil(atoms, |a.data|, lim.memLimit);
    RoomPart(atoms, a, lim);
    if id != a.id {
      SavedHas(Room(atoms, a, lim), a, id);
    }
  }

  lemma {:induction false} SavedHas(b: seq<Atom>, a: Atom, id: string)
    requires UniqueIds(b) && a.id != id
    ensures Has([a] + Others(b, a.id), id) <==> Has(b, id)
  {
    OthersAre(b, a.id);
    HasAny(b, id);
    HasAny(Others(b, a.id), id);
    assert ([a] + Others(b, a.id))[1..] == Others(b, a.id);
  }

  lemma {:induction false} KeepsAfter(atoms: seq<Atom>, extra: int, limit: nat, o: nat, k: nat)
    requires UniqueIds(atoms) && Total(atoms) <= limit && o < |atoms| && k < |atoms| && |atoms[o].data| + extra >= 0
    ensures Has(EvictUntil(atoms, extra, limit), atoms[k].id)
            <==> Outliving(atoms, k) + |atoms[k].data| + extra <= limit
  {
    if extra >= 0 {
      Survives(atoms, k, extra, limit);
    } else {
      OutlivingBound(atoms, o);
      OutlivingBound(atoms, k);
      UniqueIndex(atoms, k);
    }
  }

  /** Every message that fits keeps the store consistent. */
  lemma {:induction false} AfterConsistent(atoms: seq<Atom>, msg: Message, lim: Limits)
    requires Consistent(atoms, lim) && (msg.Save? ==> Fits(atoms, msg.atom, lim))
    ensures Consistent(After(atoms, msg, lim), lim)
  {
    match msg
    case Save(a) => SavedConsistent(atoms, a, lim);
    case Remove(id) => OthersFacts(atoms, id);
    case DelOld =>
      if atoms != [] {
        EvictedPart(atoms);
      }
  }

  // ---- runs ----

  lemma {:induction false} RunAppend(atoms: seq<Atom>, a: seq<Message>, b: seq<Message>, lim: Limits)
    ensures AfterAll(atoms, a + b, lim) == AfterAll(AfterAll(atoms, a, lim), b, lim)
    ensures Orderly(atoms, a + b, lim) <==> Orderly(atoms, a, lim) && Orderly(AfterAll(atoms, a, lim), b, lim)
    decreases |a|
  {
    if a == [] {
      assert a + b == b;
    } else {
      assert (a + b)[1..] == a[1..] + b;
      RunAppend(After(atoms, a[0], lim), a[1..], b, lim);
    }
  }

  lemma {:induction false} OrderlyPrefix(atoms: seq<Atom>, msgs: seq<Message>, i: nat, n: nat, lim: Limits)
    requires i <= n <= |msgs| && Orderly(atoms, msgs[..n], lim)
    ensures Orderly(atoms, msgs[..i], lim)
  {
    assert msgs[..n] == msgs[..i] + msgs[i..n];
    RunAppend(atoms, msgs[..i], msgs[i..n], lim);
  }

  lemma {:induction false} OrderlyNext(atoms: seq<Atom>, msgs: seq<Message>, i: nat, lim: Limits)
    requires i < |msgs|
    ensures var now := AfterAll(atoms, msgs[..i], lim);
            && AfterAll(atoms, msgs[..i + 1], lim) == After(now, msgs[i], lim)
            && (Orderly(atoms, msgs[..i + 1], lim) <==>
                Orderly(atoms, msgs[..i], lim) && (msgs[i].Save? ==> Fits(now, msgs[i].atom, lim)))
  {
    assert msgs[..i + 1] == msgs[..i] + [msgs[i]];
    RunAppend(atoms, msgs[..i], [msgs[i]], lim);
    assert [msgs[i]][1..] == [];
  }

  // ---- runs that always fit ----

  /** Every saved id is new to the store and to the messages before it. */
  predicate SavesFresh(msgs: seq<Message>, atoms: seq<Atom>) {
    forall i :: 0 <= i < |msgs| && msgs[i].Save? ==>
                  && !Has(atoms, msgs[i].atom.id)
                  && (forall j :: 0 <= j < i && msgs[j].Save? ==> msgs[j].atom.id != msgs[i].atom.id)
  }

  lemma {:induction false} AfterIds(atoms: seq<Atom>, msg: Message, lim: Limits, id: string)
    requires Consistent(atoms, lim) && !Has(atoms, id) && (msg.Save? ==> msg.atom.id != id)
    ensures !Has(After(atoms, msg, lim), id)
  {
    match msg
    case Save(a) =>
      RoomPart(atoms, a, lim);
      var b := Room(atoms, a, lim);
      NotIn(atoms, b, id);
      if !TooLarge(a, lim) {
        OthersFacts(b, a.id);
        NotIn(b, Others(b, a.id), id);
        assert forall i :: 0 <= i < |Others(b, a.id)| ==> ([a] + Others(b, a.id))[i + 1] == Others(b, a.id)[i];
        NotInFront(a, Others(b, a.id), id);
      }
    case Remove(x) =>
      OthersFacts(atoms, x);
      NotIn(atoms, Others(atoms, x), id);
    case DelOld =>
      if atoms != [] {
        EvictedPart(atoms);
        NotIn(atoms, Evicted(atoms), id);
      }
  }

  lemma {:induction false} NotInFront(a: Atom, rest: seq<Atom>, id: string)
    requires a.id != id && !Has(rest, id)
    ensures !Has([a] + rest, id)
  {
    assert ([a] + rest)[1..] == rest;
  }

  /** Saves of ids that are new each time always fit, and so does every save
      when there is no memory limit. */
  lemma {:induction false} FreshIsOrderly(atoms: seq<Atom>, msgs: seq<Message>, lim: Limits)
    requires Consistent(atoms, lim) && (lim.memLimit == 0 || SavesFresh(msgs, atoms))
    ensures Orderly(atoms, msgs, lim)
    decreases |msgs|
  {
    if msgs != [] {
      var next := After(atoms, msgs[0], lim);
      assert msgs[0].Save? ==> Fits(atoms, msgs[0].atom, lim);
      AfterConsistent(atoms, msgs[0], lim);
      if lim.memLimit > 0 {
        forall i | 0 <= i < |msgs[1..]| && msgs[1..][i].Save? ensures !Has(next, msgs[1..][i].atom.id) {
          assert msgs[1..][i] == msgs[i + 1];
          AfterIds(atoms, msgs[0], lim, msgs[i + 1].atom.id);
        }
        assert SavesFresh(msgs[1..], next);
      }
      FreshIsOrderly(next, msgs[1..], lim);
    }
  }

  // ---- saves in the order of their times ----

  /** Newest first. */
  predicate Ordered(atoms: seq<Atom>) {
    forall i, j :: 0 <= i < j < |atoms| ==> atoms[i].mtime >= atoms[j].mtime
  }

  /** `n` is the length of the longest beginning of `hist` within the limits. */
  predicate LongestFit(hist: seq<Atom>, n: nat, lim: Limits) {
    && n <= |hist|
    && Within(hist[..n], lim)
    && (forall m :: n < m <= |hist| ==> !Within(hist[..m], lim))
  }

  /** In an ordered list the oldest atom is the last. */
  lemma {:induction false} OldestIsLast(atoms: seq<Atom>)
    requires atoms != [] && Ordered(atoms)
    ensures Evicted(atoms) == atoms[..|atoms| - 1]
  {
    var k, last := OldestOf(atoms), |atoms| - 1;
    OldestIsOldest(atoms);
    assert atoms[k].mtime <= atoms[last].mtime;
  }

  /** In an ordered list the atoms that outlive one are those before it. */
  lemma {:induction false} OutlivingOrdered(atoms: seq<Atom>, k: nat)
    requires Ordered(atoms) && k < |atoms|
    ensures Outliving(atoms, k) == Total(atoms[..k])
  {
    var m := atoms[k].mtime;
    AtLeastAll(atoms[..k], m);
    NoneAbove(atoms[k + 1..], m);
  }

  lemma {:induction false} NoneAbove(atoms: seq<Atom>, m: int)
    requires forall j :: 0 <= j < |atoms| ==> atoms[j].mtime <= m
    ensures Above(atoms, m) == 0
  {
    if atoms != [] {
      NoneAbove(atoms[1..], m);
    }
  }

  /** Evictions from an ordered list cut it from the end, no further than they
      have to. */
  lemma {:induction false} EvictUntilOrdered(atoms: seq<Atom>, n: nat, extra: nat, limit: nat)
    requires Ordered(atoms) && n <= |atoms|
    ensures var b := EvictUntil(atoms[..n], extra, limit);
            && |b| <= n && b == atoms[..|b|]
            && forall m :: |b| < m <= n ==> Total(atoms[..m]) + extra > limit
    decreases n
  {
    var a := atoms[..n];
    if n > 0 && Over(Total(a) + extra, limit) {
      OrderedPrefix(atoms, n);
      OldestIsLast(a);
      assert Evicted(a) == a[..n - 1] == atoms[..n - 1];
      assert EvictUntil(a, extra, limit) == EvictUntil(atoms[..n - 1], extra, limit);
      EvictUntilOrdered(atoms, n - 1, extra, limit);
    }
  }

  lemma {:induction false} Front<T>(x: T, s: seq<T>, n: nat)
    requires n <= |s|
    ensures ([x] + s)[..n + 1] == [x] + s[..n]
  {
  }

  /** A new id in an ordered store: what stays is the longest fit. */
  lemma {:induction false} SavedLongest(atoms: seq<Atom>, a: Atom, lim: Limits)
    requires Consistent(atoms, lim) && Ordered(atoms) && !Has(atoms, a.id) && !TooLarge(a, lim)
    ensures var b := Saved(atoms, a, lim);
            b != [] && LongestFit([a] + atoms, |b|, lim) && b == ([a] + atoms)[..|b|]
  {
    var b := Room(atoms, a, lim);
    RoomOrdered(atoms, a, lim);
    RoomPart(atoms, a, lim);
    NotIn(atoms, b, a.id);
    Front(a, atoms, |b|);
    SavedConsistent(atoms, a, lim);
    InsertLongest(atoms, a, |b|, lim);
  }

  /** No longer beginning of the list has room beside the new atom. */
  predicate AllNeeded(atoms: seq<Atom>, a: Atom, n: nat, lim: Limits) {
    forall m :: n < m <= |atoms| ==>
      || (lim.maxCount > 0 && m >= lim.maxCount)
      || (lim.memLimit > 0 && Total(atoms[..m]) + |a.data| > lim.memLimit)
  }

  lemma {:induction false} InsertLongest(atoms: seq<Atom>, a: Atom, n: nat, lim: Limits)
    requires n <= |atoms| && Within([a] + atoms[..n], lim) && AllNeeded(atoms, a, n, lim)
    ensures LongestFit([a] + atoms, n + 1, lim)
  {
    var hist := [a] + atoms;
    Front(a, atoms, n);
    forall m | n + 1 < m <= |hist| ensures !Within(hist[..m], lim) {
      Front(a, atoms, m - 1);
      InsertTotal(a, atoms[..m - 1]);
    }
  }

  lemma {:induction false} RoomOrdered(atoms: seq<Atom>, a: Atom, lim: Limits)
    requires Consistent(atoms, lim) && Ordered(atoms) && !Has(atoms, a.id) && !TooLarge(a, lim)
    ensures var b := Room(atoms, a, lim);
            |b| <= |atoms| && b == atoms[..|b|] && AllNeeded(atoms, a, |b|, lim)
  {
    var n := if EvictsFirst(atoms, a, lim) then |atoms| - 1 else |atoms|;
    if EvictsFirst(atoms, a, lim) {
      OldestIsLast(atoms);
    }
    assert atoms[..|atoms|] == atoms;
    assert Counted(atoms, a, lim) == atoms[..n];
    var extra := |a.data|;
    assert Extra(atoms, a) == extra;
    if lim.memLimit > 0 {
      EvictUntilOrdered(atoms, n, extra, lim.memLimit);
    }
  }

  /** A longest fit over what was kept is one over the whole history. */
  lemma {:induction false} LongestOverall(hist: seq<Atom>, n: nat, a: Atom, n': nat, lim: Limits)
    requires LongestFit(hist, n, lim) && 0 < n' && LongestFit([a] + hist[..n], n', lim)
    ensures LongestFit([a] + hist, n', lim) && ([a] + hist)[..n'] == ([a] + hist[..n])[..n']
  {
    var h, h' := [a] + hist, [a] + hist[..n];
    FrontOf(a, hist, n, n' - 1);
    forall m | n' < m <= |h| ensures !Within(h[..m], lim) {
      Front(a, hist, m - 1);
      if m <= n + 1 {
        FrontOf(a, hist, n, m - 1);
      } else {
        InsertTotal(a, hist[..m - 1]);
        assert !Within(hist[..m - 1], lim);
      }
    }
  }

  lemma {:induction false} FrontOf<T>(x: T, s: seq<T>, n: nat, m: nat)
    requires m <= n <= |s|
    ensures ([x] + s[..n])[..m + 1] == ([x] + s)[..m + 1]
  {
    Front(x, s, m);
    Front(x, s[..n], m);
    assert s[..n][..m] == s[..m];
  }

  /** A run of saves, newest first. */
  function History(saves: seq<Atom>): (hist: seq<Atom>)
    ensures |hist| == |saves| && forall i :: 0 <= i < |hist| ==> hist[i] == saves[|saves| - 1 - i]
  {
    if saves == [] then [] else [saves[|saves| - 1]] + History(saves[..|saves| - 1])
  }

  lemma {:induction false} HistoryNext(saves: seq<Atom>, i: nat)
    requires i < |saves|
    ensures History(saves[..i + 1]) == [saves[i]] + History(saves[..i])
  {
    assert saves[..i + 1][..i] == saves[..i];
  }

  /** Saves in the order of their times. */
  predicate InTime(saves: seq<Atom>) {
    forall i, j :: 0 <= i < j < |saves| ==> saves[i].mtime <= saves[j].mtime
  }

  lemma {:induction false} HistoryOrdered(saves: seq<Atom>, i: nat)
    requires InTime(saves) && i <= |saves|
    ensures Ordered(History(saves[..i]))
  {
    var h := History(saves[..i]);
    forall p, q | 0 <= p < q < |h| ensures h[p].mtime >= h[q].mtime {
      assert h[p] == saves[i - 1 - p] && h[q] == saves[i - 1 - q];
    }
  }

  lemma {:induction false} OrderedPrefix(hist: seq<Atom>, n: nat)
    requires Ordered(hist) && n <= |hist|
    ensures Ordered(hist[..n])
  {
  }

  lemma {:induction false} FreshId(saves: seq<Atom>, i: nat, n: nat)
    requires UniqueIds(saves) && i < |saves| && n <= i
    ensures !Has(History(saves[..i])[..n], saves[i].id)
  {
    var h := History(saves[..i])[..n];
    var k := IndexOf(h, saves[i].id);
    if k >= 0 {
      assert h[k] == saves[i - 1 - k];
      UniqueIndex(saves, i);
      UniqueIndex(saves, i - 1 - k);
    }
  }

  // ---- the latest save of every id ----

  function Latest(hist: seq<Atom>): seq<Atom> {
    if hist == [] then [] else [hist[0]] + Others(Latest(hist[1..]), hist[0].id)
  }

  lemma {:induction false} LatestFacts(hist: seq<Atom>)
    ensures UniqueIds(Latest(hist)) && forall a :: a in Latest(hist) ==> a in hist
  {
    if hist != [] {
      var rest, h, tail := Latest(hist[1..]), hist[0], hist[1..];
      LatestFacts(tail);
      OthersFacts(rest, h.id);
      InsertUnique(h, Others(rest, h.id));
      assert hist == [h] + tail;
    }
  }

  /** Of every id, its first atom in the history, which is its latest save. */
  lemma {:induction false} LatestAre(hist: seq<Atom>, a: Atom)
    ensures a in Latest(hist) <==> Has(hist, a.id) && hist[IndexOf(hist, a.id)] == a
  {
    if hist != [] {
      var rest, h := Latest(hist[1..]), hist[0];
      LatestAre(hist[1..], a);
      LatestFacts(hist[1..]);
      OthersAre(rest, h.id);
    }
  }

  lemma {:induction false} LatestInOrder(hist: seq<Atom>)
    requires Ordered(hist)
    ensures Ordered(Latest(hist))
  {
    if hist != [] {
      var rest, h, tail := Latest(hist[1..]), hist[0], hist[1..];
      assert hist == [h] + tail;
      TailOrdered(h, tail);
      LatestInOrder(tail);
      LatestFacts(tail);
      LatestOrdered(h, tail, Others(rest, h.id), rest);
    }
  }

  lemma {:induction false} TailOrdered(h: Atom, tail: seq<Atom>)
    requires Ordered([h] + tail)
    ensures Ordered(tail)
  {
    var s := [h] + tail;
    forall i, j | 0 <= i < j < |tail| ensures tail[i].mtime >= tail[j].mtime {
      assert s[i + 1] == tail[i] && s[j + 1] == tail[j];
    }
  }

  lemma {:induction false} LatestOrdered(h: Atom, tail: seq<Atom>, others: seq<Atom>, rest: seq<Atom>)
    requires Ordered([h] + tail) && Ordered(rest) && UniqueIds(rest) && others == Others(rest, h.id)
    requires forall a :: a in rest ==> a in tail
    ensures Ordered([h] + others)
  {
    if Has(rest, h.id) {
      WithoutOrdered(rest, IndexOf(rest, h.id));
    }
    OthersFacts(rest, h.id);
    forall i | 0 <= i < |others| ensures h.mtime >= others[i].mtime {
      assert others[i] in tail;
      var j :| 0 <= j < |tail| && tail[j] == others[i];
      assert ([h] + tail)[0] == h && ([h] + tail)[j + 1] == tail[j];
    }
  }

  lemma {:induction false} WithoutOrdered(atoms: seq<Atom>, k: nat)
    requires Ordered(atoms) && k < |atoms|
    ensures Ordered(Without(atoms, k))
  {
    var w := Without(atoms, k);
    forall i, j | 0 <= i < j < |w| ensures w[i].mtime >= w[j].mtime {
      WithoutIndex(atoms, k, i);
      WithoutIndex(atoms, k, j);
    }
  }

  function Capped(n: nat, maxCount: nat): nat {
    if maxCount > 0 && maxCount < n then maxCount else n
  }

  lemma {:induction false} IndexPrefix(l: seq<Atom>, n: nat, id: string)
    requires n <= |l|
    ensures IndexOf(l[..n], id) == if IndexOf(l, id) < n then IndexOf(l, id) else -1
  {
    if n > 0 {
      IndexPrefix(l[1..], n - 1, id);
      assert l[..n][1..] == l[1..][..n - 1];
    }
  }

  /** One save without a memory limit, seen on the latest saves: an id that is
      still stored, one that was evicted, and one never seen. */
  lemma {:induction false} LatestStep(l: seq<Atom>, a: Atom, maxCount: nat)
    requires UniqueIds(l)
    ensures var n, o := Capped(|l|, maxCount), Others(l, a.id);
            (if Has(l[..n], a.id) then [a] + Others(l[..n], a.id) else ([a] + l[..n])[..Capped(1 + n, maxCount)])
            == ([a] + o)[..Capped(1 + |o|, maxCount)]
  {
    var n, k, o := Capped(|l|, maxCount), IndexOf(l, a.id), Others(l, a.id);
    IndexPrefix(l, n, a.id);
    if 0 <= k < n {
      CutWithout(l, n, k);
      Front(a, o, n - 1);
    } else if k >= n {
      CutBefore(l, n - 1, k);
      FrontOf(a, l, n, n - 1);
      Front(a, o, n - 1);
      Front(a, l, n - 1);
      assert |o| == |l| - 1 && n == maxCount;
    } else {
      FrontOf(a, l, n, Capped(1 + n, maxCount) - 1);
      assert o == l && Capped(1 + n, maxCount) == Capped(1 + |l|, maxCount);
    }
  }

  lemma {:induction false} CutWithout<T>(l: seq<T>, n: nat, k: nat)
    requires k < n <= |l|
    ensures Without(l, k)[..n - 1] == Without(l[..n], k)
  {
  }

  lemma {:induction false} CutBefore<T>(l: seq<T>, n: nat, k: nat)
    requires n <= k < |l|
    ensures Without(l, k)[..n] == l[..n]
  {
  }

  lemma {:induction false} CappedIsLongest(hist: seq<Atom>, n: nat, lim: Limits)
    requires LongestFit(hist, n, lim) && lim.memLimit == 0
    ensures n == Capped(|hist|, lim.maxCount)
  {
    if n < |hist| {
      assert !Within(hist[..n + 1], lim);
    }
  }

  /** A save carries "the latest saves, as many as allowed" on. */
  lemma {:induction false} RepeatedStep(hist: seq<Atom>, a: Atom, kept: seq<Atom>, lim: Limits)
    requires lim.memLimit == 0 && Ordered(hist) && Consistent(kept, lim)
    requires kept == Latest(hist)[..Capped(|Latest(hist)|, lim.maxCount)]
    ensures var l := Latest([a] + hist);
            Saved(kept, a, lim) == l[..Capped(|l|, lim.maxCount)]
  {
    LatestFacts(hist);
    var l := Latest(hist);
    assert ([a] + hist)[1..] == hist;
    assert Latest([a] + hist) == [a] + Others(l, a.id);
    LatestStep(l, a, lim.maxCount);
    if Has(kept, a.id) {
      FitsExactly(kept, a, lim);
    } else {
      LatestInOrder(hist);
      OrderedPrefix(l, |kept|);
      SavedLongest(kept, a, lim);
      CappedIsLongest([a] + kept, |Saved(kept, a, lim)|, lim);
    }
  }
}

/**
  The alarm manager of src/libutils/timer.c in one process: a sorted list of
  alarms multiplexed on the single alarm of the operating system, with
  callbacks that may call the manager again.
 */
module AlarmManager {

  /** A listed alarm; `born` counts insertions, to tell ties apart. */
  datatype Alarm = Alarm(id: nat, expire: int, born: nat)

  /** What a callback may do: delete an alarm, set a new one, set an old one
      again (its own included), take its time. */
  datatype Action = Delete(id: nat) | Set(secs: int) | Reset(id: nat, secs: int) | Spend(time: nat)

  /** What the process may do between signals. */
  datatype Step = AddAlarm(secs: int) | DelAlarm(id: nat) | ResetAlarm(id: nat, secs: int) | Elapse(time: nat)

  /** What the callback of every single firing does. Insertions differ in their
      stamps, so that an alarm set again may do something else each time. */
  type Script = Alarm -> seq<Action>

  /** Callbacks set alarms at least one second ahead. */
  ghost predicate Lawful(script: Script) {
    forall al {:trigger script(al)} :: AheadOnly(script(al))
  }

  predicate AheadOnly(acts: seq<Action>) {
    forall i :: 0 <= i < |acts| && (acts[i].Set? || acts[i].Reset?) ==> acts[i].secs >= 1
  }

  predicate Before(a: Alarm, b: Alarm) {
    a.expire < b.expire || (a.expire == b.expire && a.born < b.born)
  }

  /** By expiry, ties in the order of insertion. */
  predicate Sorted(l: seq<Alarm>) {
    forall i, j :: 0 <= i < j < |l| ==> Before(l[i], l[j])
  }

  predicate UniqueIds(l: seq<Alarm>) {
    forall i, j :: 0 <= i < j < |l| ==> l[i].id != l[j].id
  }

  predicate Ahead(a: Alarm, l: seq<Alarm>) {
    l == [] || (Before(a, l[0]) && a.id != l[0].id && Ahead(a, l[1..]))
  }

  /** Both, one alarm at a time. */
  predicate Tidy(l: seq<Alarm>) {
    l == [] || (Ahead(l[0], l[1..]) && Tidy(l[1..]))
  }

  lemma {:induction false} AheadIs(a: Alarm, l: seq<Alarm>)
    ensures Ahead(a, l) <==> forall j :: 0 <= j < |l| ==> Before(a, l[j]) && a.id != l[j].id
  {
    if l != [] {
      AheadIs(a, l[1..]);
      assert forall j :: 0 <= j < |l[1..]| ==> l[1..][j] == l[j + 1];
      assert forall j :: 1 <= j < |l| ==> l[j] == l[1..][j - 1];
    }
  }

  lemma {:induction false} TidyIs(l: seq<Alarm>)
    ensures Tidy(l) <==> Sorted(l) && UniqueIds(l)
  {
    if l != [] {
      TidyIs(l[1..]);
      AheadIs(l[0], l[1..]);
      assert forall j :: 0 <= j < |l[1..]| ==> l[1..][j] == l[j + 1];
      assert forall j :: 1 <= j < |l| ==> l[j] == l[1..][j - 1];
    }
  }

  predicate Pending(l: seq<Alarm>, id: nat) {
    exists i :: 0 <= i < |l| && l[i].id == id
  }

  function Drop(l: seq<Alarm>, ids: set<nat>): seq<Alarm> {
    if l == [] then [] else (if l[0].id in ids then [] else [l[0]]) + Drop(l[1..], ids)
  }

  /** How many alarms at the front are due at `t`. */
  function DueCount(l: seq<Alarm>, t: int): (n: nat)
    ensures n <= |l|
  {
    if l == [] || l[0].expire > t then 0 else 1 + DueCount(l[1..], t)
  }

  function Due(l: seq<Alarm>, t: int): seq<Alarm> {
    l[..DueCount(l, t)]
  }

  /** The alarms that fire when `due` is worked off in order: each one whose
      turn comes before anybody has deleted it. */
  function Fires(due: seq<Alarm>, script: Script): seq<Alarm>
    decreases |due|
  {
    if due == [] then []
    else
      DropShrinks(due[1..], Deleted(script(due[0])));
      [due[0]] + Fires(Drop(due[1..], Deleted(script(due[0]))), script)
  }

  // ---- lists ----

  lemma {:induction false} DropShrinks(l: seq<Alarm>, ids: set<nat>)
    ensures |Drop(l, ids)| <= |l|
    ensures forall a :: a in Drop(l, ids) <==> a in l && a.id !in ids
  {
    if l != [] {
      DropShrinks(l[1..], ids);
      assert l == [l[0]] + l[1..];
    }
  }

  lemma {:induction false} DropKeeps(l: seq<Alarm>, ids: set<nat>)
    requires Sorted(l) && UniqueIds(l)
    ensures Sorted(Drop(l, ids)) && UniqueIds(Drop(l, ids))
  {
    TidyIs(l);
    DropTidy(l, ids);
    TidyIs(Drop(l, ids));
  }

  lemma {:induction false} DropTidy(l: seq<Alarm>, ids: set<nat>)
    requires Tidy(l)
    ensures Tidy(Drop(l, ids))
  {
    if l != [] {
      DropTidy(l[1..], ids);
      AheadDrop(l[0], l[1..], ids);
      AheadTidy(l[0], Drop(l[1..], ids));
      assert [] + Drop(l[1..], ids) == Drop(l[1..], ids);
    }
  }

  lemma {:induction false} AheadTidy(a: Alarm, l: seq<Alarm>)
    requires Ahead(a, l)
    ensures Tidy(l) ==> Tidy([a] + l)
  {
    assert ([a] + l)[1..] == l;
  }

  lemma {:induction false} AheadDrop(a: Alarm, l: seq<Alarm>, ids: set<nat>)
    requires Ahead(a, l)
    ensures Ahead(a, Drop(l, ids))
  {
    if l != [] {
      AheadDrop(a, l[1..], ids);
      assert ([l[0]] + Drop(l[1..], ids))[1..] == Drop(l[1..], ids);
      assert [] + Drop(l[1..], ids) == Drop(l[1..], ids);
    }
  }

  lemma {:induction false} AheadFires(a: Alarm, due: seq<Alarm>, script: Script)
    requires Ahead(a, due)
    ensures Ahead(a, Fires(due, script))
    decreases |due|
  {
    if due != [] {
      var ds := Deleted(script(due[0]));
      var rest := Drop(due[1..], ds);
      DropShrinks(due[1..], ds);
      AheadDrop(a, due[1..], ds);
      AheadFires(a, rest, script);
      assert ([due[0]] + Fires(rest, script))[1..] == Fires(rest, script);
    }
  }

  lemma {:induction false} FiresTidy(due: seq<Alarm>, script: Script)
    requires Tidy(due)
    ensures Tidy(Fires(due, script))
    decreases |due|
  {
    if due != [] {
      var h, ds := due[0], Deleted(script(due[0]));
      var rest := Drop(due[1..], ds);
      DropShrinks(due[1..], ds);
      DropTidy(due[1..], ds);
      FiresTidy(rest, script);
      AheadDrop(h, due[1..], ds);
      AheadFires(h, rest, script);
      AheadTidy(h, Fires(rest, script));
    }
  }

  lemma {:induction false} FiresIn(due: seq<Alarm>, script: Script)
    ensures forall a :: a in Fires(due, script) ==> a in due
    decreases |due|
  {
    if due != [] {
      var ds := Deleted(script(due[0]));
      DropShrinks(due[1..], ds);
      FiresIn(Drop(due[1..], ds), script);
      assert due == [due[0]] + due[1..];
    }
  }

  lemma {:induction false} DropAppend(a: seq<Alarm>, b: seq<Alarm>, ids: set<nat>)
    ensures Drop(a + b, ids) == Drop(a, ids) + Drop(b, ids)
  {
    if a == [] {
      assert a + b == b;
    } else {
      assert (a + b)[1..] == a[1..] + b;
      DropAppend(a[1..], b, ids);
    }
  }

  lemma {:induction false} DropTwice(l: seq<Alarm>, x: set<nat>, y: set<nat>)
    ensures Drop(Drop(l, x), y) == Drop(l, x + y)
  {
    if l != [] {
      DropTwice(l[1..], x, y);
      if l[0].id !in x {
        assert ([l[0]] + Drop(l[1..], x))[1..] == Drop(l[1..], x);
      } else {
        assert Drop(l, x) == Drop(l[1..], x);
      }
    }
  }

  /** An alarm fires exactly when it is due and no alarm fired before it has
      deleted it. */
  lemma {:induction false} FiresExactly(due: seq<Alarm>, script: Script, a: Alarm)
    requires Sorted(due) && UniqueIds(due)
    ensures a in Fires(due, script) <==>
            a in due && forall b :: b in Fires(due, script) && Before(b, a) ==> a.id !in Deleted(script(b))
    decreases |due|
  {
    if due != [] {
      var h, ds := due[0], Deleted(script(due[0]));
      var rest := Drop(due[1..], ds);
      DropShrinks(due[1..], ds);
      DropKeeps(due[1..], ds);
      FiresExactly(rest, script, a);
      FiresInOrder(rest, script);
      assert due == [h] + due[1..];
      forall b | b in due[1..] ensures Before(h, b) && !Before(b, h) && h.id != b.id {
      }
    }
  }

  /** Nothing fires twice, and firing follows the order of the list. */
  lemma {:induction false} FiresInOrder(due: seq<Alarm>, script: Script)
    requires Sorted(due) && UniqueIds(due)
    ensures Sorted(Fires(due, script)) && UniqueIds(Fires(due, script))
    ensures forall a :: a in Fires(due, script) ==> a in due
  {
    TidyIs(due);
    FiresTidy(due, script);
    TidyIs(Fires(due, script));
    FiresIn(due, script);
  }

  /** Everything in front of the cut is due, nothing behind it. */
  lemma {:induction false} DueSplit(l: seq<Alarm>, d: seq<Alarm>, r: seq<Alarm>, t: int)
    requires l == d + r && (forall a :: a in d ==> a.expire <= t) && (forall a :: a in r ==> a.expire > t)
    ensures Due(l, t) == d && DueCount(l, t) == |d|
  {
    if d == [] {
      assert l == r;
    } else {
      assert l[0] in d && l[1..] == d[1..] + r;
      DueSplit(l[1..], d[1..], r, t);
    }
  }

  lemma {:induction false} DueIsSplit(l: seq<Alarm>, t: int)
    requires Sorted(l)
    ensures forall a :: a in Due(l, t) ==> a.expire <= t
    ensures forall a :: a in l[DueCount(l, t)..] ==> a.expire > t
  {
    if l != [] {
      if l[0].expire <= t {
        DueIsSplit(l[1..], t);
        assert Due(l, t) == [l[0]] + Due(l[1..], t);
        assert l[DueCount(l, t)..] == l[1..][DueCount(l[1..], t)..];
      } else {
        assert forall j :: 0 <= j < |l| ==> l[j] == l[0] || Before(l[0], l[j]);
      }
    }
  }

  /** Where an alarm for `expire` goes: behind everything not later. */
  predicate Place(l: seq<Alarm>, i: nat, expire: int) {
    && i <= |l|
    && (forall j :: 0 <= j < i ==> l[j].expire <= expire)
    && (i < |l| ==> expire < l[i].expire)
  }

  function Insert(l: seq<Alarm>, i: nat, al: Alarm): seq<Alarm>
    requires i <= |l|
  {
    l[..i] + [al] + l[i..]
  }

  lemma {:induction false} InsertKeeps(l: seq<Alarm>, i: nat, al: Alarm, stamp: nat)
    requires Sorted(l) && UniqueIds(l) && !Pending(l, al.id) && Place(l, i, al.expire)
    requires al.born == stamp && forall a :: a in l ==> a.born < stamp
    ensures Sorted(Insert(l, i, al)) && UniqueIds(Insert(l, i, al))
    ensures forall a :: a in Insert(l, i, al) ==> a in l || a == al
  {
    var m := Insert(l, i, al);
    forall p, q | 0 <= p < q < |m| ensures Before(m[p], m[q]) && m[p].id != m[q].id {
      if p < i {
        assert m[p] == l[p] && l[p] in l;
      } else if p > i {
        assert m[p] == l[p - 1];
      }
      if q < i {
        assert m[q] == l[q];
      } else if q > i {
        assert m[q] == l[q - 1];
        assert i < q - 1 ==> Before(l[i], l[q - 1]);
      }
    }
  }

  lemma {:induction false} DueFirst(l: seq<Alarm>, t: int)
    requires l != [] && l[0].expire <= t
    ensures Due(l, t) == [l[0]] + Due(l[1..], t)
  {
    var n := DueCount(l[1..], t);
    assert l[..n + 1] == [l[0]] + l[1..][..n];
  }

  /** Setting a later alarm does not touch what is due. */
  lemma {:induction false} DueInsert(l: seq<Alarm>, i: nat, al: Alarm, t: int)
    requires Place(l, i, al.expire) && al.expire > t
    ensures Due(Insert(l, i, al), t) == Due(l, t)
  {
    var m := Insert(l, i, al);
    if i > 0 {
      assert m[0] == l[0] && m[1..] == Insert(l[1..], i - 1, al);
      if l[0].expire <= t {
        DueInsert(l[1..], i - 1, al, t);
        DueFirst(m, t);
        DueFirst(l, t);
      }
    } else {
      assert m[0] == al;
    }
  }

  lemma {:induction false} DueDrop(l: seq<Alarm>, ids: set<nat>, t: int)
    requires Sorted(l)
    ensures Due(Drop(l, ids), t) == Drop(Due(l, t), ids)
  {
    var n := DueCount(l, t);
    DueIsSplit(l, t);
    assert l == l[..n] + l[n..];
    DropAppend(l[..n], l[n..], ids);
    DropShrinks(l[..n], ids);
    DropShrinks(l[n..], ids);
    DueSplit(Drop(l, ids), Drop(l[..n], ids), Drop(l[n..], ids), t);
  }

  // ---- what the calls mean, without list and clock ----

  /** The alarms that are set, every insertion so far (told by its number), the
      time, the alarms that exist and those that were deleted. */
  datatype World = World(listed: set<Alarm>, made: seq<Alarm>, now: int, lastId: nat, freed: set<nat>)

  predicate Exists(w: World, id: nat) {
    0 < id <= w.lastId && id !in w.freed
  }

  function Make(w: World, id: nat, secs: int): World {
    var al := Alarm(id, w.now + secs, |w.made|);
    w.(listed := w.listed + {al}, made := w.made + [al])
  }

  function Act(w: World, a: Action): World {
    match a
    case Delete(id) =>
      w.(listed := (set al | al in w.listed && al.id != id),
         freed := w.freed + if Exists(w, id) then {id} else {})
    case Set(secs) => Make(w.(lastId := w.lastId + 1), w.lastId + 1, secs)
    case Reset(id, secs) =>
      if Exists(w, id) && (forall al :: al in w.listed ==> al.id != id) then Make(w, id, secs) else w
    case Spend(time) => w.(now := w.now + time)
  }

  function Acts(w: World, acts: seq<Action>): World {
    if acts == [] then w else Act(Acts(w, acts[..|acts| - 1]), acts[|acts| - 1])
  }

  /** An alarm fires: it is not set any more, and then its callback acts. */
  function Fire(w: World, al: Alarm, script: Script): World {
    Acts(w.(listed := w.listed - {al}), script(al))
  }

  function Handled(w: World, fired: seq<Alarm>, script: Script): World {
    if fired == [] then w else Fire(Handled(w, fired[..|fired| - 1], script), fired[|fired| - 1], script)
  }

  predicate Sound(w: World) {
    && (forall al :: al in w.listed ==> Exists(w, al.id) && al.born < |w.made| && w.made[al.born] == al)
    && (forall id :: id in w.freed ==> id <= w.lastId)
  }

  /** From world `v` to `w`, with `fired` in between: an insertion is listed if
      and only if it has neither fired nor been deleted. */
  ghost predicate Ledger(v: World, w: World, fired: seq<Alarm>) {
    && |v.made| <= |w.made|
    && (forall al :: al in fired ==> al.born < |w.made|)
    && forall al :: al in w.listed <==>
         && (al in v.listed || (|v.made| <= al.born < |w.made| && w.made[al.born] == al))
         && al !in fired && al.id !in w.freed
  }

  lemma {:induction false} SoundMake(w: World, id: nat, secs: int)
    requires Sound(w) && Exists(w, id)
    ensures Sound(Make(w, id, secs))
  {
  }

  lemma {:induction false} SoundDelete(w: World, id: nat)
    requires Sound(w)
    ensures Sound(Act(w, Delete(id)))
  {
  }

  lemma {:induction false} NextId(w: World)
    requires Sound(w)
    ensures Sound(w.(lastId := w.lastId + 1)) && Exists(w.(lastId := w.lastId + 1), w.lastId + 1)
    ensures forall al :: al in w.listed ==> al.id < w.lastId + 1
  {
  }

  lemma {:induction false} LedgerMake(v: World, w: World, fired: seq<Alarm>, id: nat, secs: int)
    requires Sound(v) && Sound(w) && Ledger(v, w, fired) && Exists(w, id)
    ensures Sound(Make(w, id, secs)) && Ledger(v, Make(w, id, secs), fired)
  {
  }

  lemma {:induction false} LedgerAct(v: World, w: World, fired: seq<Alarm>, a: Action)
    requires Sound(v) && Sound(w) && Ledger(v, w, fired)
    ensures Sound(Act(w, a)) && Ledger(v, Act(w, a), fired)
  {
    match a
    case Delete(id) =>
    case Set(secs) => LedgerMake(v, w.(lastId := w.lastId + 1), fired, w.lastId + 1, secs);
    case Reset(id, secs) =>
      if Exists(w, id) {
        LedgerMake(v, w, fired, id, secs);
      }
    case Spend(_) =>
  }

  lemma {:induction false} LedgerActs(v: World, w: World, fired: seq<Alarm>, acts: seq<Action>)
    requires Sound(v) && Sound(w) && Ledger(v, w, fired)
    ensures Sound(Acts(w, acts)) && Ledger(v, Acts(w, acts), fired)
  {
    if acts != [] {
      LedgerActs(v, w, fired, acts[..|acts| - 1]);
      LedgerAct(v, Acts(w, acts[..|acts| - 1]), fired, acts[|acts| - 1]);
    }
  }

  lemma {:induction false} LedgerFire(v: World, w: World, fired: seq<Alarm>, al: Alarm, script: Script)
    requires Sound(v) && Sound(w) && Ledger(v, w, fired) && al.born < |w.made|
    ensures Sound(Fire(w, al, script)) && Ledger(v, Fire(w, al, script), fired + [al])
  {
    LedgerActs(v, w.(listed := w.listed - {al}), fired + [al], script(al));
  }

  /** A run of firings keeps the ledger. */
  lemma {:induction false} LedgerHandled(v: World, w: World, before: seq<Alarm>, fired: seq<Alarm>, script: Script)
    requires Sound(v) && Sound(w) && Ledger(v, w, before) && forall al :: al in fired ==> al.born < |w.made|
    ensures Sound(Handled(w, fired, script)) && Ledger(v, Handled(w, fired, script), before + fired)
    ensures |w.made| <= |Handled(w, fired, script).made|
    decreases |fired|
  {
    if fired == [] {
      assert before + fired == before;
    } else {
      var n := |fired| - 1;
      LedgerHandled(v, w, before, fired[..n], script);
      var m := Handled(w, fired[..n], script);
      assert fired[n] in fired;
      LedgerFire(v, m, before + fired[..n], fired[n], script);
      assert before + fired == (before + fired[..n]) + [fired[n]];
      ActsGrow(m.(listed := m.listed - {fired[n]}), script(fired[n]));
    }
  }

  /** Insertions are never forgotten. */
  lemma {:induction false} ActsGrow(w: World, acts: seq<Action>)
    ensures w.made <= Acts(w, acts).made
  {
    if acts != [] {
      ActsGrow(w, acts[..|acts| - 1]);
    }
  }

  /** An alarm that a callback sets, and that nothing deletes afterwards, stays
      set for the time asked for. */
  lemma {:induction false} SetStays(w: World, pre: seq<Action>, secs: int, post: seq<Action>)
    requires Sound(w) && Acts(w, pre).lastId + 1 !in Deleted(post)
    ensures var v := Acts(w, pre);
            Alarm(v.lastId + 1, v.now + secs, |v.made|) in Acts(w, pre + [Set(secs)] + post).listed
  {
    var v := Acts(w, pre);
    var al := Alarm(v.lastId + 1, v.now + secs, |v.made|);
    var acts := pre + [Set(secs)] + post;
    if post == [] {
      assert acts[..|acts| - 1] == pre && acts[|acts| - 1] == Set(secs);
    } else {
      var n := |post| - 1;
      assert acts[..|acts| - 1] == pre + [Set(secs)] + post[..n] && acts[|acts| - 1] == post[n];
      assert post[n] in post && forall a :: a in post[..n] ==> a in post;
      SetStays(w, pre, secs, post[..n]);
    }
  }

  lemma {:induction false} DeletedNext(acts: seq<Action>, k: nat)
    requires k < |acts|
    ensures Deleted(acts[..k + 1]) == Deleted(acts[..k]) + Deleted([acts[k]])
  {
    assert acts[..k + 1] == acts[..k] + [acts[k]];
  }

  lemma {:induction false} ActsNext(w: World, acts: seq<Action>, k: nat)
    requires k < |acts|
    ensures Acts(w, acts[..k + 1]) == Act(Acts(w, acts[..k]), acts[k])
  {
    assert acts[..k + 1][..k] == acts[..k];
  }

  lemma {:induction false} HandledNext(w: World, fired: seq<Alarm>, al: Alarm, script: Script)
    ensures Handled(w, fired + [al], script) == Fire(Handled(w, fired, script), al, script)
  {
    assert (fired + [al])[..|fired|] == fired;
  }

  lemma {:induction false} DeletedOne(a: Action)
    ensures Deleted([a]) == if a.Delete? then {a.id} else {}
  {
    assert a in [a];
  }

  /** Setting an alarm later than `t`. */
  lemma {:induction false} Inserted(l: seq<Alarm>, i: nat, al: Alarm, t: int)
    requires Place(l, i, al.expire) && al.expire > t
    ensures Due(Insert(l, i, al), t) == Drop(Due(l, t), {})
  {
    DueInsert(l, i, al, t);
    DropNone(Due(l, t), {});
  }

  function Members(l: seq<Alarm>): set<Alarm> {
    set al | al in l
  }

  lemma {:induction false} InsertTidy(w: World, l: seq<Alarm>, i: nat, al: Alarm)
    requires Tidy(l) && Sound(w) && w.listed == Members(l) && al.born == |w.made|
    requires !Pending(l, al.id) && Place(l, i, al.expire)
    ensures Tidy(Insert(l, i, al))
  {
    TidyIs(l);
    TidyIs(Insert(l, i, al));
    assert forall a :: a in l ==> a in Members(l);
    InsertKeeps(l, i, al, al.born);
  }

  lemma {:induction false} InsertMembers(l: seq<Alarm>, i: nat, al: Alarm)
    requires i <= |l|
    ensures Members(Insert(l, i, al)) == Members(l) + {al}
  {
    assert l == l[..i] + l[i..];
  }

  lemma {:induction false} DropMembers(l: seq<Alarm>, id: nat)
    ensures Members(Drop(l, {id})) == set al | al in Members(l) && al.id != id
  {
    DropShrinks(l, {id});
  }

  /** The ids a list of actions deletes. */
  function Deleted(acts: seq<Action>): set<nat> {
    set a | a in acts && a.Delete? :: a.id
  }

  function Max(a: int, b: int): (m: int)
    ensures m >= a && m >= b && (m == a || m == b)
  {
    if a >= b then a else b
  }

  /** When the signal comes, once armed for the first alarm of `l`: at its time,
      but not before the next second, unless it comes earlier anyway. */
  function Arm(next: int, l: seq<Alarm>, now: int): int {
    if l == [] then next
    else
      var due := Max(l[0].expire, now + 1);
      if next == 0 || due < next then due else next
  }

  /** A callback that only takes its time. */
  predicate Quiet(acts: seq<Action>) {
    forall i :: 0 <= i < |acts| ==> acts[i].Spend?
  }

  /** timerm_alarm_pending: the place of that alarm, or the length of the list. */
  method IndexOf(l: seq<Alarm>, id: nat) returns (k: nat)
    ensures k <= |l| && (k < |l| ==> l[k].id == id) && forall j :: 0 <= j < k ==> l[j].id != id
  {
    k := 0;
    while k < |l| && l[k].id != id
      invariant 0 <= k <= |l| && forall j :: 0 <= j < k ==> l[j].id != id
    {
      k := k + 1;
    }
  }

  lemma {:induction false} Removed(l: seq<Alarm>, id: nat, k: nat)
    requires Tidy(l) && k <= |l| && (k < |l| ==> l[k].id == id) && forall j :: 0 <= j < k ==> l[j].id != id
    ensures Drop(l, {id}) == if k < |l| then l[..k] + l[k + 1..] else l
    ensures Tidy(Drop(l, {id}))
  {
    TidyIs(l);
    TidyIs(Drop(l, {id}));
    DropKeeps(l, {id});
    if k < |l| {
      DropAt(l, k);
    } else {
      DropNone(l, {id});
    }
  }

  /** LIST_REMOVE of that alarm, if it is listed. */
  method Without(l: seq<Alarm>, id: nat) returns (m: seq<Alarm>)
    requires Tidy(l)
    ensures m == Drop(l, {id}) && Tidy(m)
  {
    var k := IndexOf(l, id);
    Removed(l, id, k);
    m := if k < |l| then l[..k] + l[k + 1..] else l;
  }

  /** The search of timerm_reschedule. */
  method FindPlace(l: seq<Alarm>, al: Alarm, ghost w: World) returns (k: nat)
    requires Tidy(l) && Sound(w) && w.listed == Members(l) && al.born == |w.made| && !Pending(l, al.id)
    ensures Place(l, k, al.expire) && Tidy(Insert(l, k, al))
  {
    k := 0;
    while k < |l| && !(al.expire < l[k].expire)
      invariant 0 <= k <= |l| && forall j :: 0 <= j < k ==> l[j].expire <= al.expire
    {
      k := k + 1;
    }
    InsertTidy(w, l, k, al);
  }

  class Timer {
    var alist: seq<Alarm>
    var next: int        // 0 when no alarm is wanted
    var osAlarm: int     // when the system will send SIGALRM, 0 for never
    var now: int         // the clock
    var stamp: nat
    var lastId: nat
    var freed: set<nat>

    ghost var made: seq<Alarm>  // every insertion

    ghost function Seen(): World
      reads this
    {
      World(Members(alist), made, now, lastId, freed)
    }

    ghost predicate ListOk()
      reads this
    {
      now > 0 && Tidy(alist) && stamp == |made| && Sound(Seen())
    }

    /** A listed alarm always has a system alarm in time for it. */
    ghost predicate Armed()
      reads this
    {
      && osAlarm == next
      && (alist != [] ==> next != 0 && next <= Max(alist[0].expire, now + 1))
    }

    ghost predicate Valid()
      reads this
    {
      ListOk() && Armed()
    }

    /** The signal has come by the time an alarm is due. */
    ghost predicate Prompt()
      reads this
    {
      (osAlarm != 0 && osAlarm <= now) || alist == [] || alist[0].expire > now
    }

    constructor (now: int)
      requires now > 0
      ensures Valid() && alist == [] && this.now == now
    {
      alist, next, osAlarm, stamp, lastId, freed, made := [], 0, 0, 0, 0, {}, [];
      this.now := now;
    }

    /** The clock moves on. */
    method Spend(secs: nat)
      modifies this`now
      ensures now == old(now) + secs && Seen() == Act(old(Seen()), Action.Spend(secs))
      ensures old(Valid()) ==> Valid() && (secs >= 1 ==> Prompt())
      ensures old(ListOk()) ==> ListOk()
    {
      now := now + secs;
    }

    /** timerm_set_alarm. */
    method SetAlarm(timeout: int)
      requires now > 0 && timeout >= 0 && osAlarm == next
      modifies this`next, this`osAlarm
      ensures osAlarm == next
      ensures next == if timeout > 0 && (old(next) == 0 || now + timeout < old(next)) then now + timeout else old(next)
    {
      var n := now + timeout;
      if timeout > 0 && (next == 0 || n < next) {
        next := n;
        osAlarm := n;
      }
    }

    /** timerm_set_next: whatever the state was, it arms for the first alarm. */
    method SetNext()
      requires now > 0 && osAlarm == next
      modifies this`next, this`osAlarm
      ensures Armed() && Seen() == old(Seen()) && (old(ListOk()) ==> ListOk())
      ensures next == Arm(old(next), alist, now)
    {
      if alist != [] {
        SetAlarm(Max(1, alist[0].expire - now));
      }
    }

    /** timerm_reschedule of an alarm that is not listed. */
    method Reschedule(id: nat, secs: int) returns (ghost i: nat)
      requires ListOk() && osAlarm == next && !Pending(alist, id) && Exists(Seen(), id)
      modifies this`alist, this`stamp, this`next, this`osAlarm, this`made
      ensures Valid() && Seen() == Make(old(Seen()), id, secs) && next == Arm(old(next), alist, now)
      ensures Place(old(alist), i, now + secs)
      ensures alist == Insert(old(alist), i, Alarm(id, now + secs, old(stamp)))
    {
      i := Enroll(id, secs);
      SetNext();
    }

    method Enroll(id: nat, secs: int) returns (ghost i: nat)
      requires ListOk() && !Pending(alist, id) && Exists(Seen(), id)
      modifies this`alist, this`stamp, this`made
      ensures ListOk() && Seen() == Make(old(Seen()), id, secs)
      ensures Place(old(alist), i, now + secs)
      ensures alist == Insert(old(alist), i, Alarm(id, now + secs, old(stamp)))
    {
      var al := Alarm(id, now + secs, stamp);
      var k := FindPlace(alist, al, Seen());
      i := k;
      Enlist(k, al);
    }

    method Enlist(k: nat, al: Alarm)
      requires ListOk() && k <= |alist| && Tidy(Insert(alist, k, al))
      requires al.born == stamp && Exists(Seen(), al.id)
      modifies this`alist, this`stamp, this`made
      ensures ListOk() && Seen() == Make(old(Seen()), al.id, al.expire - now)
      ensures alist == Insert(old(alist), k, al)
    {
      InsertMembers(alist, k, al);
      SoundMake(Seen(), al.id, al.expire - now);
      alist := Insert(alist, k, al);
      stamp := stamp + 1;
      made := made + [al];
    }

    /** timerm_add. */
    method Add(secs: int) returns (id: nat, ghost i: nat)
      requires ListOk() && osAlarm == next
      modifies this`alist, this`stamp, this`next, this`osAlarm, this`lastId, this`made
      ensures Valid() && id == lastId && Seen() == Act(old(Seen()), Set(secs)) && next == Arm(old(next), alist, now)
      ensures Place(old(alist), i, now + secs)
      ensures alist == Insert(old(alist), i, Alarm(id, now + secs, old(stamp)))
    {
      NotPending(alist, lastId + 1);
      NextId(Seen());
      lastId := lastId + 1;
      id := lastId;
      i := Reschedule(id, secs);
    }

    /** timerm_reschedule, as callers may use it: for an alarm that exists and is
        not listed. */
    method Again(id: nat, secs: int) returns (ghost i: nat)
      requires ListOk() && osAlarm == next
      modifies this`alist, this`stamp, this`next, this`osAlarm, this`made
      ensures ListOk() && osAlarm == next && Seen() == Act(old(Seen()), Reset(id, secs))
      ensures if old(Pending(alist, id) || !Exists(Seen(), id)) then alist == old(alist) && next == old(next)
              else
                && Valid() && stamp == old(stamp) + 1 && Place(old(alist), i, now + secs)
                && next == Arm(old(next), alist, now)
                && alist == Insert(old(alist), i, Alarm(id, now + secs, old(stamp)))
    {
      i := 0;
      PendingMember(alist, id);
      if !Pending(alist, id) && 0 < id <= lastId && id !in freed {
        i := Reschedule(id, secs);
      }
    }

    /** timerm_del: an alarm that is not listed any more is only freed. */
    method Delete(id: nat)
      requires ListOk() && osAlarm == next
      modifies this`alist, this`next, this`osAlarm, this`freed
      ensures Valid() && alist == Drop(old(alist), {id}) && Seen() == Act(old(Seen()), Action.Delete(id))
      ensures next == Arm(old(next), alist, now)
    {
      Unlist(id);
      SetNext();
    }

    method Unlist(id: nat)
      requires ListOk()
      modifies this`alist, this`freed
      ensures ListOk() && alist == Drop(old(alist), {id}) && Seen() == Act(old(Seen()), Action.Delete(id))
    {
      DropMembers(alist, id);
      SoundDelete(Seen(), id);
      alist := Without(alist, id);
      if 0 < id <= lastId {
        freed := freed + {id};
      }
    }

    /** What a callback sees and must leave: everything but the arming of
        alarms that are due already. `t` is when the handler began. */
    ghost predicate Inside(t: int)
      reads this
    {
      ListOk() && osAlarm == next && now >= t && (next == 0 || next > t)
    }

    /** One action of a callback. */
    method Do(a: Action, t: int)
      requires Inside(t) && (a.Set? || a.Reset? ==> a.secs >= 1)
      modifies this
      ensures Inside(t) && Seen() == Act(old(Seen()), a) && (a.Spend? ==> next == old(next))
      ensures Due(alist, t) == Drop(Due(old(alist), t), Deleted([a]))
    {
      ghost var l, s := alist, stamp;
      DeletedOne(a);
      match a
      case Delete(x) =>
        TidyIs(l);
        DueDrop(l, {x}, t);
        Delete(x);
      case Set(secs) =>
        var newId, i := Add(secs);
        Inserted(l, i, Alarm(newId, now + secs, s), t);
      case Reset(x, secs) =>
        DropNone(Due(l, t), {});
        var i := Again(x, secs);
        if stamp != s {
          Inserted(l, i, Alarm(x, now + secs, s), t);
        }
      case Spend(secs) =>
        DropNone(Due(l, t), {});
        Spend(secs);
    }

    /** The callback of an alarm, already off the list. */
    method Call(acts: seq<Action>, t: int)
      requires Inside(t) && AheadOnly(acts)
      modifies this
      ensures Inside(t) && Seen() == Acts(old(Seen()), acts) && (Quiet(acts) ==> next == old(next))
      ensures Due(alist, t) == Drop(Due(old(alist), t), Deleted(acts))
    {
      ghost var due0, w := Due(alist, t), Seen();
      DropNone(due0, {});
      assert Deleted(acts[..0]) == {};
      for k := 0 to |acts|
        invariant Inside(t) && Seen() == Acts(w, acts[..k]) && (Quiet(acts) ==> next == old(next))
        invariant Due(alist, t) == Drop(due0, Deleted(acts[..k]))
      {
        ActsNext(w, acts, k);
        Do(acts[k], t);
        DeletedNext(acts, k);
        DropTwice(due0, Deleted(acts[..k]), Deleted([acts[k]]));
      }
      assert acts[..|acts|] == acts;
    }

    /** The first alarm leaves the list. */
    method TakeFirst() returns (al: Alarm)
      requires ListOk() && alist != []
      modifies this`alist
      ensures ListOk() && al == old(alist[0]) && alist == old(alist[1..])
      ensures Seen() == old(Seen()).(listed := old(Seen()).listed - {al}) && al.born < |made|
    {
      al := alist[0];
      FirstOnce(alist);
      alist := alist[1..];
    }

    /** One round of timerm_sigalrm. */
    method FireFirst(script: Script, t: int) returns (al: Alarm)
      requires Inside(t) && Lawful(script) && alist != [] && alist[0].expire <= t
      modifies this
      ensures Inside(t) && al == old(alist[0]) && al.born < old(stamp) <= stamp
      ensures Seen() == Fire(old(Seen()), al, script) && (Quiet(script(al)) ==> next == old(next))
      ensures Fires(Due(old(alist), t), script) == [al] + Fires(Due(alist, t), script)
      ensures |Due(alist, t)| < |Due(old(alist), t)|
    {
      ghost var due, w := Due(alist, t), Seen();
      DueFirst(alist, t);
      al := TakeFirst();
      DropShrinks(due[1..], Deleted(script(al)));
      LedgerFire(w, w, [], al, script);
      Call(script(al), t);
    }

    /** The loop of timerm_sigalrm. */
    method FireDue(script: Script, t: int) returns (fired: seq<Alarm>)
      requires Inside(t) && Lawful(script)
      modifies this
      ensures Inside(t) && (alist != [] ==> alist[0].expire > t)
      ensures fired == Fires(Due(old(alist), t), script) && Seen() == Handled(old(Seen()), fired, script)
      ensures (forall al :: al in fired ==> Quiet(script(al))) ==> next == old(next)
    {
      fired := [];
      ghost var all, w := Fires(Due(alist, t), script), Seen();
      while alist != [] && alist[0].expire <= t
        invariant Inside(t) && Seen() == Handled(w, fired, script)
        invariant fired + Fires(Due(alist, t), script) == all
        invariant (forall al :: al in fired ==> Quiet(script(al))) ==> next == old(next)
        decreases |Due(alist, t)|
      {
        var al := FireFirst(script, t);
        HandledNext(w, fired, al, script);
        Onward(fired, al, Fires(Due(alist, t), script));
        fired := fired + [al];
      }
      NothingDue(alist, t);
      assert fired + [] == fired;
    }

    /** The system alarm has gone off. */
    method Disarm()
      modifies this`next, this`osAlarm
      ensures osAlarm == next == 0 && Seen() == old(Seen()) && (old(ListOk()) ==> ListOk())
    {
      next := 0;
      osAlarm := 0;
    }

    /** timerm_sigalrm: fires, in order of expiry, exactly the alarms due when
        it starts that no earlier callback has deleted. What is set afterwards is
        what the callbacks leave set when they act one after another. */
    method Sigalrm(script: Script) returns (fired: seq<Alarm>)
      requires Valid() && Lawful(script)
      modifies this
      ensures Valid() && now >= old(now)
      ensures fired == Fires(Due(old(alist), old(now)), script)
      ensures forall a :: a in alist ==> a.expire > old(now)
      ensures Seen() == Handled(old(Seen()), fired, script) && Ledger(old(Seen()), Seen(), fired)
      // the next signal comes later than this one, and if the callbacks call
      // nothing of this, exactly when the first alarm is due
      ensures next == 0 || next > old(now)
      ensures (forall al :: al in fired ==> Quiet(script(al))) ==>
                next == if alist == [] then 0 else Max(alist[0].expire, now + 1)
    {
      var t := now;
      LedgerSignal(Seen(), alist, t, script);
      Disarm();
      fired := FireDue(script, t);
      NothingDue(alist, t);
      if alist != [] {
        SetNext();
      }
    }

    /** One step of a process, with the signal if it is due by then. */
    method Perform(step: Step, script: Script) returns (fired: seq<Alarm>)
      requires Valid() && Lawful(script)
      modifies this
      ensures Valid() && now >= old(now)
      ensures Seen() == After(old(Seen()), step, fired, script) && (!step.Elapse? ==> fired == [])
      ensures FiredFrom(fired, old(Seen()), now)
      // a clock that moves on always brings the signal in time
      ensures step.Elapse? && step.time >= 1 ==> InTime(old(alist), old(now) + step.time, alist, fired, script)
    {
      fired := [];
      match step
      case AddAlarm(secs) =>
        var newId, i := Add(secs);
      case ResetAlarm(id, secs) =>
        var i := Again(id, secs);
      case DelAlarm(id) =>
        Delete(id);
      case Elapse(secs) =>
        fired := Wait(secs, script);
    }

    /** Time passes. */
    method Wait(secs: nat, script: Script) returns (fired: seq<Alarm>)
      requires Valid() && Lawful(script)
      modifies this
      ensures Valid() && now >= old(now)
      ensures Seen() == Handled(Act(old(Seen()), Action.Spend(secs)), fired, script)
      ensures FiredFrom(fired, old(Seen()), now)
      ensures secs >= 1 ==> InTime(old(alist), old(now) + secs, alist, fired, script)
    {
      ghost var w := Seen();
      Spend(secs);
      fired := Signal(script);
      FiredSpent(fired, w, secs, now);
    }

    /** The signal is delivered when its time has come. */
    method Signal(script: Script) returns (fired: seq<Alarm>)
      requires Valid() && Lawful(script)
      modifies this
      ensures Valid() && now >= old(now) && Seen() == Handled(old(Seen()), fired, script)
      ensures FiredFrom(fired, old(Seen()), now)
      ensures old(Prompt()) ==> InTime(old(alist), old(now), alist, fired, script)
    {
      ghost var v, l, t := Seen(), alist, now;
      WaitFacts(v, l, t, script);
      fired := [];
      if osAlarm != 0 && osAlarm <= now {
        fired := Sigalrm(script);
        AllTaken(l, t, alist, fired, script);
      } else if l == [] || l[0].expire > t {
        NoneMissed(l, t, script);
      }
      FiredLater(fired, v, t, now);
    }

    /** Any run in one process: after every step each listed alarm has a system
        alarm in time for it; no alarm fires early or twice; and an insertion is
        listed if and only if it has neither fired nor been deleted. */
    method Run(steps: seq<Step>, script: Script) returns (fired: seq<Alarm>)
      requires Valid() && Lawful(script)
      modifies this
      ensures Valid() && FiredOnce(fired, stamp, now)
      ensures Ledger(old(Seen()), Seen(), fired)
    {
      fired := [];
      ghost var w := Seen();
      for k := 0 to |steps|
        invariant Valid() && FiredOnce(fired, stamp, now) && Ledger(w, Seen(), fired)
      {
        ghost var v, t := Seen(), now;
        var f := Perform(steps[k], script);
        LedgerAfter(w, v, fired, steps[k], f, script);
        FiredMore(fired, f, v, t, stamp, now);
        fired := fired + f;
      }
    }
  }

  /** A step of the process. */
  function After(w: World, step: Step, fired: seq<Alarm>, script: Script): World {
    match step
    case AddAlarm(secs) => Act(w, Set(secs))
    case ResetAlarm(id, secs) => Act(w, Reset(id, secs))
    case DelAlarm(id) => Act(w, Delete(id))
    case Elapse(time) => Handled(Act(w, Spend(time)), fired, script)
  }

  lemma {:induction false} LedgerAfter(
      v: World, w: World, before: seq<Alarm>, step: Step, fired: seq<Alarm>, script: Script)
    requires Sound(v) && Sound(w) && Ledger(v, w, before) && (!step.Elapse? ==> fired == [])
    requires forall al :: al in fired ==> al.born < |w.made|
    ensures Ledger(v, After(w, step, fired, script), before + fired)
    ensures |w.made| <= |After(w, step, fired, script).made|
  {
    assert before + [] == before;
    match step
    case AddAlarm(secs) => LedgerAct(v, w, before, Set(secs));
    case ResetAlarm(id, secs) => LedgerAct(v, w, before, Reset(id, secs));
    case DelAlarm(id) => LedgerAct(v, w, before, Delete(id));
    case Elapse(time) =>
      LedgerAct(v, w, before, Spend(time));
      LedgerHandled(v, Act(w, Spend(time)), before, fired, script);
  }

  lemma {:induction false} Onward(fired: seq<Alarm>, al: Alarm, rest: seq<Alarm>)
    ensures fired + ([al] + rest) == (fired + [al]) + rest
  {
  }

  lemma {:induction false} NotPending(l: seq<Alarm>, id: nat)
    requires forall a :: a in Members(l) ==> a.id < id
    ensures !Pending(l, id)
  {
    assert forall j :: 0 <= j < |l| ==> l[j] in Members(l);
  }

  lemma {:induction false} PendingMember(l: seq<Alarm>, id: nat)
    ensures Pending(l, id) <==> exists a :: a in Members(l) && a.id == id
  {
    assert forall j :: 0 <= j < |l| ==> l[j] in Members(l);
  }

  lemma {:induction false} FirstOnce(l: seq<Alarm>)
    requires l != [] && Tidy(l)
    ensures Members(l[1..]) == Members(l) - {l[0]} && l[0] in Members(l)
  {
    AheadIs(l[0], l[1..]);
    assert l == [l[0]] + l[1..];
  }

  /** Alarms that have fired by `now`, told apart by their insertions. */
  ghost predicate FiredOnce(fired: seq<Alarm>, stamp: nat, now: int) {
    && (forall i, j :: 0 <= i < j < |fired| ==> fired[i] != fired[j])
    && (forall a :: a in fired ==> a.born < stamp && a.expire <= now)
  }

  lemma {:induction false} FiredFacts(l: seq<Alarm>, t: int, script: Script)
    requires Tidy(l)
    ensures var f := Fires(Due(l, t), script);
            Sorted(f) && forall a :: a in f ==> a in l && a.expire <= t
  {
    TidyIs(l);
    DueIsSplit(l, t);
    FiresInOrder(Due(l, t), script);
    assert forall a :: a in Due(l, t) ==> a in l;
  }

  lemma {:induction false} FiredBorn(w: World, l: seq<Alarm>, t: int, script: Script)
    requires Tidy(l) && Sound(w) && w.listed == Members(l)
    ensures forall a :: a in Fires(Due(l, t), script) ==> a.born < |w.made|
  {
    FiredFacts(l, t, script);
    forall a | a in Fires(Due(l, t), script) ensures a.born < |w.made| {
      assert a in Members(l);
    }
  }

  lemma {:induction false} LedgerSignal(w: World, l: seq<Alarm>, t: int, script: Script)
    requires Tidy(l) && Sound(w) && w.listed == Members(l)
    ensures var f := Fires(Due(l, t), script);
            Ledger(w, Handled(w, f, script), f)
  {
    var f := Fires(Due(l, t), script);
    FiredBorn(w, l, t, script);
    LedgerHandled(w, w, [], f, script);
    assert [] + f == f;
  }

  /** Firings in order, of insertions known to `w`, none before its time. */
  ghost predicate FiredFrom(fired: seq<Alarm>, w: World, now: int) {
    Sorted(fired) && forall a :: a in fired ==> a in w.listed && a.born < |w.made| && a.expire <= now
  }

  /** What was due at `t` in list `l` has fired as it should, and none of it is
      left in `m`. */
  ghost predicate InTime(l: seq<Alarm>, t: int, m: seq<Alarm>, fired: seq<Alarm>, script: Script) {
    fired == Fires(Due(l, t), script) && forall a :: a in l && a.expire <= t ==> a !in m
  }

  lemma {:induction false} WaitFacts(w: World, l: seq<Alarm>, t: int, script: Script)
    requires Tidy(l) && Sound(w) && w.listed == Members(l)
    ensures FiredFrom(Fires(Due(l, t), script), w, t)
  {
    FiredFacts(l, t, script);
    FiredBorn(w, l, t, script);
    assert forall a :: a in l ==> a in Members(l);
  }

  lemma {:induction false} FiredLater(fired: seq<Alarm>, w: World, t: int, now: int)
    requires t <= now
    ensures FiredFrom(fired, w, t) ==> FiredFrom(fired, w, now)
    ensures FiredFrom([], w, now)
  {
  }

  lemma {:induction false} FiredSpent(fired: seq<Alarm>, w: World, secs: nat, now: int)
    ensures FiredFrom(fired, Act(w, Spend(secs)), now) ==> FiredFrom(fired, w, now)
  {
  }

  lemma {:induction false} AllTaken(l: seq<Alarm>, t: int, m: seq<Alarm>, fired: seq<Alarm>, script: Script)
    requires fired == Fires(Due(l, t), script) && forall a :: a in m ==> a.expire > t
    ensures InTime(l, t, m, fired, script)
  {
  }

  lemma {:induction false} NoneMissed(l: seq<Alarm>, t: int, script: Script)
    requires Tidy(l) && (l != [] ==> l[0].expire > t)
    ensures InTime(l, t, l, [], script)
  {
    NothingDue(l, t);
  }

  lemma {:induction false} FiredMore(fired: seq<Alarm>, f: seq<Alarm>, v: World, t: int, stamp: nat, now: int)
    requires FiredOnce(fired, |v.made|, t) && |v.made| <= stamp && t <= now && FiredFrom(f, v, now)
    requires forall a :: a in fired ==> a !in v.listed
    ensures FiredOnce(fired + f, stamp, now)
  {
    var g := fired + f;
    forall i, j | 0 <= i < j < |g| ensures g[i] != g[j] {
      if i < |fired| <= j {
        assert g[i] in fired && g[j] in f;
      } else if |fired| <= i {
        assert Before(f[i - |fired|], f[j - |fired|]);
      }
    }
  }

  lemma {:induction false} NothingDue(l: seq<Alarm>, t: int)
    requires Tidy(l) && (l != [] ==> l[0].expire > t)
    ensures Due(l, t) == [] && forall a :: a in l ==> a.expire > t
  {
    TidyIs(l);
    assert forall j :: 0 <= j < |l| ==> l[j] == l[0] || Before(l[0], l[j]);
  }

  lemma {:induction false} DropNone(l: seq<Alarm>, ids: set<nat>)
    requires forall a :: a in l ==> a.id !in ids
    ensures Drop(l, ids) == l
  {
    if l != [] {
      DropNone(l[1..], ids);
    }
  }

  lemma {:induction false} DropAt(l: seq<Alarm>, k: nat)
    requires UniqueIds(l) && k < |l|
    ensures Drop(l, {l[k].id}) == l[..k] + l[k + 1..]
  {
    if k == 0 {
      DropNone(l[1..], {l[0].id});
    } else {
      DropAt(l[1..], k - 1);
      assert l[..k] + l[k + 1..] == [l[0]] + (l[1..][..k - 1] + l[1..][k..]);
    }
  }
}

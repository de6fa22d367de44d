/**
  The parent process of a prefork server: src/kloned/server.c, child.c,
  ppc_fork_child.c and the initial state set by src/libbackend/backend.c.
  Only the parent's side of fork is modelled.
 */
module Supervisor {
  datatype Model = Iterative | Forking | Prefork

  datatype Backend = Backend(model: Model, startChild: nat, maxChild: nat, nchild: nat, forkChild: nat)

  /** A live child process and the position of its backend. */
  datatype Child = Child(pid: nat, be: nat)

  /** What the parent may be asked to do. */
  datatype Event =
    | SpawnPass
    | Request(bid: nat)
    | Serve(bid: nat)
    | Reap(pid: nat)

  function CountOf(cs: seq<Child>, b: nat): nat {
    if cs == [] then 0
    else CountOf(cs[..|cs| - 1], b) + if cs[|cs| - 1].be == b then 1 else 0
  }

  lemma {:induction false} CountAppend(a: seq<Child>, c: seq<Child>, b: nat)
    ensures CountOf(a + c, b) == CountOf(a, b) + CountOf(c, b)
  {
    if c == [] {
      assert a + c == a;
    } else {
      assert (a + c)[..|a + c| - 1] == a + c[..|c| - 1];
      CountAppend(a, c[..|c| - 1], b);
    }
  }

  lemma {:induction false} CountRemove(cs: seq<Child>, k: nat, b: nat)
    requires k < |cs|
    ensures CountOf(cs[..k] + cs[k + 1..], b) == CountOf(cs, b) - if cs[k].be == b then 1 else 0
  {
    assert cs == cs[..k] + ([cs[k]] + cs[k + 1..]);
    CountAppend(cs[..k], [cs[k]] + cs[k + 1..], b);
    CountAppend([cs[k]], cs[k + 1..], b);
    CountAppend(cs[..k], cs[k + 1..], b);
    assert CountOf([cs[k]], b) == if cs[k].be == b then 1 else 0;
  }

  /** Children still to be spawned by backends `k` on. */
  function Pending(bes: seq<Backend>, k: nat): nat
    decreases |bes| - k
  {
    if k >= |bes| then 0
    else (if bes[k].model == Prefork then bes[k].forkChild else 0) + Pending(bes, k + 1)
  }

  lemma {:induction false} PendingFrame(a: seq<Backend>, c: seq<Backend>, k: nat)
    requires |a| == |c| && forall j :: k <= j < |a| ==> a[j] == c[j]
    ensures Pending(a, k) == Pending(c, k)
    decreases |a| - k
  {
    if k < |a| {
      PendingFrame(a, c, k + 1);
    }
  }

  function Halve(n: nat, k: nat): nat {
    if k == 0 then n else Halve(n / 2, k - 1)
  }

  function Pow2(k: nat): nat {
    if k == 0 then 1 else 2 * Pow2(k - 1)
  }

  /** After k halvings nothing is left exactly when 2^k exceeds n: the least
      such k is floor(log2 n) + 1. */
  lemma {:induction false} HalveToZero(n: nat, k: nat)
    ensures Halve(n, k) == 0 <==> n < Pow2(k)
  {
    if k > 0 {
      HalveToZero(n / 2, k - 1);
    }
  }

  lemma {:induction false} HalveStep(n: nat, k: nat)
    ensures Halve(n, k + 1) == Halve(n, k) / 2
  {
    if k > 0 {
      HalveStep(n / 2, k - 1);
    }
  }

  /** The counters of backend `b` against the list of children. */
  predicate Fine(be: Backend, cs: seq<Child>, b: nat) {
    && be.nchild == CountOf(cs, b)
    && be.nchild <= be.maxChild
    && (be.model == Prefork ==> be.nchild + be.forkChild >= be.startChild)
  }

  /** A backend that has lost a child: below its initial number of children it
      is to start exactly the missing ones, otherwise as many as before. */
  function Bereaved(be: Backend): Backend
    requires be.nchild > 0
  {
    var n := be.nchild - 1;
    be.(nchild := n, forkChild := if n < be.startChild then be.startChild - n else be.forkChild)
  }

  /** Children asked for by request messages. */
  function Asked(events: seq<Event>, b: nat): nat {
    if events == [] then 0
    else Asked(events[..|events| - 1], b) + if events[|events| - 1] == Request(b) then 1 else 0
  }

  /** From `a` to `c` only the counters have changed, and a prefork backend has
      at most `k` more children, running or pending. */
  predicate Grown(a: Backend, c: Backend, k: nat) {
    && c == a.(nchild := c.nchild, forkChild := c.forkChild)
    && (a.model == Prefork ==> c.nchild + c.forkChild <= a.nchild + a.forkChild + k)
  }

  /** The counters after child `k` has gone. */
  lemma {:induction false} StillFine(bes: seq<Backend>, cs: seq<Child>, k: nat, bes': seq<Backend>, cs': seq<Child>)
    requires k < |cs| && cs[k].be < |bes| && forall b :: 0 <= b < |bes| ==> Fine(bes[b], cs, b)
    requires bes[cs[k].be].nchild > 0 && bes' == bes[cs[k].be := Bereaved(bes[cs[k].be])]
             && cs' == cs[..k] + cs[k + 1..]
    ensures forall b :: 0 <= b < |bes'| ==> Fine(bes'[b], cs', b)
  {
    forall b | 0 <= b < |bes'| ensures Fine(bes'[b], cs', b) {
      CountRemove(cs, k, b);
    }
  }

  predicate Unused(cs: seq<Child>, pid: nat) {
    pid > 0 && forall c :: c in cs ==> c.pid != pid
  }

  /** Pending spawns of a backend have turned into children; nothing else of it
      has changed. */
  predicate Progress(a: Backend, c: Backend) {
    && c == a.(nchild := c.nchild, forkChild := c.forkChild)
    && a.nchild <= c.nchild && a.nchild + a.forkChild == c.nchild + c.forkChild
  }

  /** A pass leaves half of the pending spawns, rounded down. */
  function AfterPass(be: Backend): nat {
    if be.model == Prefork then be.forkChild / 2 else be.forkChild
  }

  lemma {:induction false} PendingAt(bes: seq<Backend>, b: nat, k: nat)
    requires k <= b < |bes| && bes[b].model == Prefork
    ensures bes[b].forkChild <= Pending(bes, k)
    decreases |bes| - k
  {
    if k < b {
      PendingAt(bes, b, k + 1);
    }
  }

  lemma {:induction false} PendingChange(x: seq<Backend>, y: seq<Backend>, b: nat, k: nat)
    requires k <= b < |x| == |y| && x[b].model == y[b].model == Prefork
    requires forall j :: 0 <= j < |x| && j != b ==> x[j] == y[j]
    ensures Pending(y, k) == Pending(x, k) - x[b].forkChild + y[b].forkChild
    decreases |x| - k
  {
    if k < b {
      PendingChange(x, y, b, k + 1);
    } else {
      PendingFrame(x, y, k + 1);
    }
  }

  class Server {
    const maxChild: nat
    const forkWorks: bool        // the system never refuses a fork
    var children: seq<Child>
    var nchild: nat
    var bes: seq<Backend>

    ghost predicate Valid()
      reads this
    {
      && nchild == |children| <= maxChild
      && (forall i :: 0 <= i < |children| ==> children[i].be < |bes|)
      && (forall i, j :: 0 <= i < j < |children| ==> children[i].pid != children[j].pid)
      && (forall b :: 0 <= b < |bes| ==> Fine(bes[b], children, b))
    }

    /** Room for every pending spawn. */
    ghost predicate Roomy()
      reads this
    {
      && nchild + Pending(bes, 0) <= maxChild
      && forall b :: 0 <= b < |bes| && bes[b].model == Prefork ==> bes[b].nchild + bes[b].forkChild <= bes[b].maxChild
    }

    /** Backends as backend_create leaves them: nothing running, and a prefork
        backend due to start its initial children. */
    constructor (config: seq<Backend>, maxChild: nat, forkWorks: bool)
      requires forall b :: b in config ==>
                 b.nchild == 0 && b.forkChild == if b.model == Prefork then b.startChild else 0
      ensures Valid() && bes == config && children == []
      ensures this.maxChild == maxChild && this.forkWorks == forkWorks
    {
      this.maxChild, this.forkWorks, children, nchild, bes := maxChild, forkWorks, [], 0, config;
    }

    /** server_add_child. */
    method AddChild(pid: nat, b: nat)
      requires Valid() && b < |bes| && nchild < maxChild && bes[b].nchild < bes[b].maxChild
      requires Unused(children, pid)
      modifies this`children, this`nchild, this`bes
      ensures Valid() && children == old(children) + [Child(pid, b)]
      ensures bes == old(bes)[b := old(bes)[b].(nchild := old(bes)[b].nchild + 1)]
    {
      ghost var before := children;
      children := children + [Child(pid, b)];
      nchild := nchild + 1;
      bes := bes[b := bes[b].(nchild := bes[b].nchild + 1)];
      assert children[..|before|] == before;
    }

    /** server_fork_child in the parent: a child's pid, or -1 when a limit is
        reached or the system refuses. */
    method ForkChild(b: nat) returns (rc: int)
      requires Valid() && b < |bes|
      modifies this`children, this`nchild, this`bes
      ensures Valid()
      ensures rc < 0 ==> children == old(children) && bes == old(bes)
      ensures rc >= 0 ==> rc > 0 && children == old(children) + [Child(rc, b)]
      ensures rc >= 0 ==> bes == old(bes)[b := old(bes)[b].(nchild := old(bes)[b].nchild + 1)]
      ensures forkWorks ==> (rc < 0 <==> old(|children| == maxChild || bes[b].nchild == bes[b].maxChild))
    {
      if nchild == maxChild {
        return -1;
      }
      if bes[b].nchild == bes[b].maxChild {
        return -1;
      }
      var refused: bool := *;
      if !forkWorks && refused {
        return -1;
      }
      FreshPid(children);
      var pid: nat :| Unused(children, pid);
      AddChild(pid, b);
      rc := pid;
    }

    /** children_get_by_pid: the position of that child, or the length. */
    method FindChild(pid: nat) returns (k: nat)
      ensures k <= |children| && (k < |children| ==> children[k].pid == pid)
      ensures forall j :: 0 <= j < k ==> children[j].pid != pid
    {
      k := 0;
      while k < |children| && children[k].pid != pid
        invariant 0 <= k <= |children| && forall j :: 0 <= j < k ==> children[j].pid != pid
      {
        k := k + 1;
      }
    }

    /** server_reap_child: an unknown pid is an error and changes nothing. */
    method ReapChild(pid: nat) returns (ok: bool, ghost b: nat)
      requires Valid()
      modifies this`children, this`nchild, this`bes
      ensures Valid() && |bes| == |old(bes)|
      ensures ok == exists c :: c in old(children) && c.pid == pid
      ensures !ok ==> children == old(children) && bes == old(bes)
      ensures ok ==> b < |bes| && Child(pid, b) in old(children) && old(bes)[b].nchild > 0
      ensures ok ==> bes == old(bes)[b := Bereaved(old(bes)[b])]
      // the missing ones up to the initial number, and never more than before
      ensures ok ==> bes[b].nchild == old(bes)[b].nchild - 1 && Grown(old(bes)[b], bes[b], 0)
      ensures ok ==> if bes[b].nchild < bes[b].startChild then bes[b].nchild + bes[b].forkChild == bes[b].startChild
                     else bes[b].forkChild == old(bes)[b].forkChild
      ensures forall c :: c in children <==> c in old(children) && c.pid != pid
    {
      var k := FindChild(pid);
      if k == |children| {
        return false, 0;
      }
      ghost var cs := children;
      var child := children[k];
      b := child.be;
      assert child in cs;
      CountPositive(cs, k);
      children := children[..k] + children[k + 1..];
      nchild := nchild - 1;
      var be := bes[child.be];
      be := be.(nchild := be.nchild - 1);
      if be.nchild < be.startChild {
        be := be.(forkChild := be.startChild - be.nchild);
      }
      StillFine(bes, cs, k, bes[child.be := be], children);
      bes := bes[child.be := be];
      ok := true;
    }

    /** server_spawn_child as the parent sees it. */
    method SpawnChild(b: nat) returns (ok: bool)
      requires Valid() && b < |bes|
      modifies this`children, this`nchild, this`bes
      ensures Valid() && |bes| == |old(bes)|
      ensures !ok ==> children == old(children) && bes == old(bes)
      ensures ok ==> exists pid :: children == old(children) + [Child(pid, b)]
      ensures ok ==> bes == old(bes)[b := old(bes)[b].(nchild := old(bes)[b].nchild + 1)]
      ensures forkWorks ==> (!ok <==> old(|children| == maxChild || bes[b].nchild == bes[b].maxChild))
    {
      var rc := ForkChild(b);
      ok := rc >= 0;
    }

    /** server_ppc_cb_fork_child: a child asks for another one; if it cannot be
        had now it is remembered. An unknown backend is an error. */
    method RequestChild(bid: nat) returns (ok: bool)
      requires Valid()
      modifies this`children, this`nchild, this`bes
      ensures Valid() && ok == (bid < |old(bes)|)
      ensures !ok ==> children == old(children) && bes == old(bes)
      ensures ok ==> |bes| == |old(bes)| && bes == old(bes)[bid := bes[bid]]
      ensures ok ==> Progress(old(bes)[bid].(forkChild := old(bes)[bid].forkChild + 1), bes[bid])
      ensures ok ==> |children| - |old(children)| == bes[bid].nchild - old(bes)[bid].nchild <= 1
      ensures ok && forkWorks ==> (|children| == |old(children)| <==>
                                   old(|children| == maxChild || bes[bid].nchild == bes[bid].maxChild))
    {
      if bid >= |bes| {
        return false;
      }
      var spawned := SpawnChild(bid);
      if !spawned {
        bes := bes[bid := bes[bid].(forkChild := bes[bid].forkChild + 1)];
      }
      ok := true;
    }

    /** The inner loop of server_spawn_children. Its counter goes up while the
        number of pending spawns goes down, so that a pass starts only half of
        them, rounded up. */
    method SpawnBackend(b: nat) returns (ok: bool)
      requires Valid() && b < |bes|
      modifies this`children, this`nchild, this`bes
      ensures Valid() && |bes| == |old(bes)| && forall j :: 0 <= j < |bes| && j != b ==> bes[j] == old(bes)[j]
      ensures Progress(old(bes)[b], bes[b])
      ensures |children| - |old(children)| == bes[b].nchild - old(bes)[b].nchild
      ensures ok ==> bes[b].forkChild == old(bes)[b].forkChild / 2
      ensures (forkWorks && |old(children)| + old(bes)[b].forkChild <= maxChild &&
               old(bes)[b].nchild + old(bes)[b].forkChild <= bes[b].maxChild) ==> ok
    {
      var i := 0;
      ghost var n, m := bes[b].forkChild, bes[b].nchild;
      while i < bes[b].forkChild
        invariant Valid() && |bes| == |old(bes)| && forall j :: 0 <= j < |bes| && j != b ==> bes[j] == old(bes)[j]
        invariant |children| == |old(children)| + i && i <= n && i <= n - i + 1
        invariant bes[b] == old(bes)[b].(nchild := m + i, forkChild := n - i)
        decreases n - i
      {
        ok := SpawnChild(b);
        if !ok {
          return;
        }
        bes := bes[b := bes[b].(forkChild := bes[b].forkChild - 1)];
        i := i + 1;
      }
      ok := true;
    }

    /** server_spawn_children: one pass over all prefork backends. It gives up
        at the first spawn that fails. */
    method SpawnPass() returns (ok: bool)
      requires Valid()
      modifies this`children, this`nchild, this`bes
      ensures Valid() && |bes| == |old(bes)|
      ensures forall b :: 0 <= b < |bes| ==> Progress(old(bes)[b], bes[b])
      ensures ok ==> forall b :: 0 <= b < |bes| ==> bes[b].forkChild == AfterPass(old(bes)[b])
      ensures |children| + Pending(bes, 0) == |old(children)| + Pending(old(bes), 0)
      ensures forkWorks && old(Roomy()) ==> ok && Roomy()
    {
      ghost var sum := |children| + Pending(bes, 0);
      var k := 0;
      ok := true;
      while k < |bes|
        invariant 0 <= k <= |bes| == |old(bes)| && Valid() && ok
        invariant forall b :: k <= b < |bes| ==> bes[b] == old(bes)[b]
        invariant forall b :: 0 <= b < k ==> Progress(old(bes)[b], bes[b]) && bes[b].forkChild == AfterPass(old(bes)[b])
        invariant |children| + Pending(bes, 0) == sum
        invariant old(Roomy()) ==> Roomy()
      {
        if bes[k].model == Prefork && bes[k].forkChild > 0 {
          ghost var before := bes;
          PendingAt(bes, k, 0);
          ok := SpawnBackend(k);
          PendingChange(before, bes, k, 0);
          if !ok {
            return;
          }
        }
        k := k + 1;
      }
    }

    /** Passes in a row, with no deaths: the pending spawns of every backend are
        halved each time, and all of them become children. */
    method Passes(n: nat)
      requires Valid() && forkWorks && Roomy()
      modifies this`children, this`nchild, this`bes
      ensures Valid() && |bes| == |old(bes)|
      ensures forall b :: 0 <= b < |bes| ==> Progress(old(bes)[b], bes[b])
      ensures forall b :: 0 <= b < |bes| && bes[b].model == Prefork ==>
                bes[b].forkChild == Halve(old(bes)[b].forkChild, n)
      ensures forall b :: 0 <= b < |bes| && bes[b].model == Prefork ==>
                (bes[b].forkChild == 0 <==> old(bes)[b].forkChild < Pow2(n))
    {
      for i := 0 to n
        invariant Valid() && |bes| == |old(bes)| && Roomy()
        invariant forall b :: 0 <= b < |bes| ==> Progress(old(bes)[b], bes[b])
        invariant forall b :: 0 <= b < |bes| && bes[b].model == Prefork ==>
                    bes[b].forkChild == Halve(old(bes)[b].forkChild, i)
      {
        var ok := SpawnPass();
        forall b | 0 <= b < |bes| && bes[b].model == Prefork
          ensures bes[b].forkChild == Halve(old(bes)[b].forkChild, i + 1)
        {
          HalveStep(old(bes)[b].forkChild, i);
        }
      }
      forall b | 0 <= b < |bes| && bes[b].model == Prefork
        ensures bes[b].forkChild == 0 <==> old(bes)[b].forkChild < Pow2(n)
      {
        HalveToZero(old(bes)[b].forkChild, n);
      }
    }

    /** One event. */
    method Do(event: Event)
      requires Valid()
      modifies this`children, this`nchild, this`bes
      ensures Valid() && |bes| == |old(bes)|
      ensures forall b :: 0 <= b < |bes| ==> Grown(old(bes)[b], bes[b], if event == Request(b) then 1 else 0)
    {
      match event
      case SpawnPass =>
        var ok := SpawnPass();
      case Request(bid) =>
        var ok := RequestChild(bid);
      case Serve(bid) =>
        if bid < |bes| && bes[bid].model == Forking {
          var rc := ForkChild(bid);
        }
      case Reap(pid) =>
        var ok, _ := ReapChild(pid);
    }

    /** Any run of passes, requests, forks for a connection, and deaths: the
        counters stay right, and a prefork backend never has more children,
        running or pending, than it had and was asked for. */
    method Run(events: seq<Event>)
      requires Valid()
      modifies this`children, this`nchild, this`bes
      ensures Valid() && |bes| == |old(bes)|
      ensures forall b :: 0 <= b < |bes| ==> Grown(old(bes)[b], bes[b], Asked(events, b))
    {
      for i := 0 to |events|
        invariant Valid() && |bes| == |old(bes)|
        invariant forall b :: 0 <= b < |bes| ==> Grown(old(bes)[b], bes[b], Asked(events[..i], b))
      {
        ghost var before := bes;
        Do(events[i]);
        forall b | 0 <= b < |bes| ensures Grown(old(bes)[b], bes[b], Asked(events[..i + 1], b)) {
          AskedNext(events, i, b);
          assert Grown(before[b], bes[b], if events[i] == Request(b) then 1 else 0);
        }
      }
      assert events[..|events|] == events;
    }
  }

  lemma {:induction false} AskedNext(events: seq<Event>, i: nat, b: nat)
    requires i < |events|
    ensures Asked(events[..i + 1], b) == Asked(events[..i], b) + if events[i] == Request(b) then 1 else 0
  {
    assert events[..i + 1][..i] == events[..i];
  }

  /** A server from its start on: after any run a prefork backend has its initial
      number of children, running or pending, and beyond that no more than were
      asked for; exactly the initial number if none was. */
  method RunFromStart(config: seq<Backend>, maxChild: nat, forkWorks: bool, events: seq<Event>) returns (s: Server)
    requires forall b :: b in config ==>
               b.nchild == 0 && b.forkChild == if b.model == Prefork then b.startChild else 0
    ensures fresh(s) && s.Valid() && |s.bes| == |config|
    ensures forall b :: 0 <= b < |config| && config[b].model == Prefork ==>
              var n := s.bes[b].nchild + s.bes[b].forkChild;
              config[b].startChild <= n <= config[b].startChild + Asked(events, b)
  {
    s := new Server(config, maxChild, forkWorks);
    assert forall b :: 0 <= b < |config| ==> config[b] in config;
    s.Run(events);
    assert forall b :: 0 <= b < |config| ==> Fine(s.bes[b], s.children, b);
  }

  lemma {:induction false} CountPositive(cs: seq<Child>, k: nat)
    requires k < |cs|
    ensures CountOf(cs, cs[k].be) > 0
  {
    CountRemove(cs, k, cs[k].be);
  }

  lemma {:induction false} FreshPid(cs: seq<Child>)
    ensures exists pid: nat :: Unused(cs, pid)
  {
    LargestPidBounds(cs);
    assert Unused(cs, LargestPid(cs) + 1);
  }

  function LargestPid(cs: seq<Child>): nat {
    if cs == [] then 0
    else
      var rest := LargestPid(cs[1..]);
      if cs[0].pid > rest then cs[0].pid else rest
  }

  lemma {:induction false} LargestPidBounds(cs: seq<Child>)
    ensures forall c :: c in cs ==> c.pid <= LargestPid(cs)
  {
    if cs != [] {
      LargestPidBounds(cs[1..]);
    }
  }
}

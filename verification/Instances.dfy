/** The io layer over concrete codecs: whole trips from writer to reader. */
module Instances {
  import opened Wrappers
  import opened Codec
  import opened CodecChain
  import Cip = CipherCodec
  import Filt = ResponseFilter
  import Out = OutputIo
  import In = InputIo

  /** A chain of one codec. */
  method OneCodec<S(!new)>(ops: Ops<S>, st: S, ghost m: Meaning<S>) returns (chain: Chain<S>)
    requires Meets(ops, m) && m.reach(st, false, "", "")
    ensures fresh(chain) && chain.Fresh() && chain.ms == [m] && chain.cells != []
  {
    chain := new Chain();
    assert chain.ms == [];
    chain.AddTail(ops, st, m);
  }

  lemma {:induction false} ComposeOne<S>(m: Meaning<S>, x: string)
    ensures Compose([m], 0, x) == m.F(x)
  {
    assert Compose([m], 1, m.F(x)) == m.F(x);
  }

  /** What a codec, with nothing else on the io, makes of any run of writes. */
  method WriteAll<S(!new)>(ops: Ops<S>, st: S, ghost m: Meaning<S>, calls: seq<Out.Call>)
    returns (ok: bool, sink: string)
    requires Meets(ops, m) && m.reach(st, false, "", "")
    ensures ok ==> sink == if Out.AnyWrite(calls) then m.F(Out.AllWritten(calls)) else ""
    ensures !m.mayFail ==> ok
  {
    var chain := OneCodec(ops, st, m);
    ComposeOne(m, Out.AllWritten(calls));
    var io := new Out.Io(chain, true);
    ok := io.Run(calls);
    sink := io.sink;
  }

  /** What readers get through a codec, whatever they ask for. */
  method ReadAll<S(!new)>(ops: Ops<S>, st: S, ghost m: Meaning<S>, stored: string, calls: seq<In.Call>)
      returns (ok: bool, answers: seq<In.Reply>)
    requires Meets(ops, m) && m.reach(st, false, "", "") && !m.lastOnly
    ensures ok ==> answers == In.Answers(m.F(stored), calls)
    ensures !m.mayFail ==> ok
  {
    var chain := OneCodec(ops, st, m);
    ComposeOne(m, stored);
    var io := new In.Io(chain, stored, true);
    ok, answers := io.Run(calls);
  }

  /** Everything written to an io with an encrypting codec, and then read from
      one with the decrypting codec, comes back as if it had been read directly. */
  method CipherRoundTrip(enc: Cip.Evp, dec: Cip.Evp, mayFail: bool, writes: seq<Out.Call>, asks: seq<In.Call>)
      returns (ok: bool, answers: seq<In.Reply>)
    requires Cip.EvpOk(enc) && Cip.EvpOk(dec) && Cip.Reliable(enc, mayFail) && Cip.Reliable(dec, mayFail)
    requires forall x :: dec.stream(enc.stream(x) + enc.tail(x)) + dec.tail(enc.stream(x) + enc.tail(x)) == x
    requires Out.AnyWrite(writes)
    ensures ok ==> answers == In.Answers(Out.AllWritten(writes), asks)
    ensures !mayFail ==> ok
  {
    ghost var m, n := Cip.CipherMeaning(enc, mayFail), Cip.CipherMeaning(dec, mayFail);
    BackAgain(enc, dec, mayFail, Out.AllWritten(writes));
    Cip.CipherKeeps(enc, mayFail);
    Cip.CipherKeeps(dec, mayFail);
    ok, answers := WriteAndRead(Cip.CipherOps(enc), Cip.INITIAL, m, writes, Cip.CipherOps(dec), Cip.INITIAL, n, asks);
  }

  lemma {:induction false} BackAgain(enc: Cip.Evp, dec: Cip.Evp, mayFail: bool, x: string)
    requires dec.stream(enc.stream(x) + enc.tail(x)) + dec.tail(enc.stream(x) + enc.tail(x)) == x
    ensures Cip.CipherMeaning(dec, mayFail).F(Cip.CipherMeaning(enc, mayFail).F(x)) == x
  {
    Cip.CipherWhole(enc, mayFail, x);
    Cip.CipherWhole(dec, mayFail, enc.stream(x) + enc.tail(x));
  }

  /** Any run of writes through one codec, and any reads through another that
      undoes it there. */
  method WriteAndRead<S(!new)>(a: Ops<S>, s: S, ghost m: Meaning<S>, writes: seq<Out.Call>,
                               b: Ops<S>, t: S, ghost n: Meaning<S>, asks: seq<In.Call>)
      returns (ok: bool, answers: seq<In.Reply>)
    requires Meets(a, m) && m.reach(s, false, "", "") && Meets(b, n) && n.reach(t, false, "", "") && !n.lastOnly
    requires Out.AnyWrite(writes) && n.F(m.F(Out.AllWritten(writes))) == Out.AllWritten(writes)
    ensures ok ==> answers == In.Answers(Out.AllWritten(writes), asks)
    ensures !m.mayFail && !n.mayFail ==> ok
  {
    var stored;
    answers := [];
    ok, stored := WriteAll(a, s, m, writes);
    if ok {
      ok, answers := ReadAll(b, t, n, stored, asks);
    }
  }

  /** A page written to an io behind the response filter: one header and then
      the whole body, however it is cut up, and nothing at all if nothing was
      ever written. */
  method PageThroughFilter(h: string, head: bool, calls: seq<Out.Call>) returns (ok: bool, sent: string)
    ensures ok && sent == if Out.AnyWrite(calls) then h + (if head then "" else Out.AllWritten(calls)) else ""
  {
    Filt.FilterMeets(h, head);
    ok, sent := WriteAll(Filt.FilterOps(h, head), Filt.INITIAL, Filt.FilterMeaning(h, head), calls);
  }

  // ---- chains of different codecs ----

  datatype Either<S, T> = Left(left: S) | Right(right: T)

  /** A codec whose state is part of a larger type. */
  function Lift<S(!new), U(!new)>(k: Ops<S>, into: S -> U, out: U -> Option<S>): Ops<U> {
    Ops((u: U, src: string, room: nat) =>
          match out(u)
          case None => TransformFailed
          case Some(s) => Carried(k.transform(s, src, room), into),
        (u: U, room: nat) =>
          match out(u)
          case None => FlushFailed
          case Some(s) => CarriedFlush(k.flush(s, room), into))
  }

  function Carried<S, U>(r: Transformed<S>, into: S -> U): Transformed<U> {
    if r.TransformFailed? then TransformFailed else Transformed(into(r.next), r.consumed, r.produced)
  }

  function CarriedFlush<S, U>(r: Flushed<S>, into: S -> U): Flushed<U> {
    if r.FlushFailed? then FlushFailed else Flushed(into(r.next), r.complete, r.produced)
  }

  ghost function LiftMeaning<S(!new), U(!new)>(m: Meaning<S>, out: U -> Option<S>): Meaning<U> {
    Meaning(m.F,
            (u: U, closed: bool, i: string, o: string) => out(u).Some? && m.reach(out(u).value, closed, i, o),
            m.mayFail, m.lastOnly)
  }

  /** It meets the contract of the larger type, with the same function. */
  lemma {:induction false} LiftMeets<S(!new), U(!new)>(k: Ops<S>, m: Meaning<S>, into: S -> U, out: U -> Option<S>)
    requires Meets(k, m) && forall s :: out(into(s)) == Some(s)
    ensures Meets(Lift(k, into, out), LiftMeaning(m, out))
  {
    var K, M := Lift(k, into, out), LiftMeaning(m, out);
    forall u, i, o, x | M.reach(u, false, i, o) ensures o <= M.F(i + x) {
      assert m.reach(out(u).value, false, i, o);
    }
    forall u, i, o | M.reach(u, true, i, o) ensures o <= M.F(i) {
      assert m.reach(out(u).value, true, i, o);
    }
    forall u, i, o, src, room: nat | M.reach(u, false, i, o) && src != [] && room > 0
      ensures TransformOk(M, K.transform(u, src, room), i, o, src, room)
    {
      var s := out(u).value;
      assert m.reach(s, false, i, o);
      assert TransformOk(m, k.transform(s, src, room), i, o, src, room);
    }
    forall u, closed, i, o, room: nat | M.reach(u, closed, i, o) && (room > 0 || !M.lastOnly)
      ensures FlushOk(M, K.flush(u, room), i, o, room)
    {
      var s := out(u).value;
      assert m.reach(s, closed, i, o);
      assert FlushOk(m, k.flush(s, room), i, o, room);
    }
  }

  type Mixed = Either<Cip.State, Filt.State>

  function IntoLeft(s: Cip.State): Mixed {
    Left(s)
  }

  function IntoRight(s: Filt.State): Mixed {
    Right(s)
  }

  function OutLeft(u: Mixed): Option<Cip.State> {
    if u.Left? then Some(u.left) else None
  }

  function OutRight(u: Mixed): Option<Filt.State> {
    if u.Right? then Some(u.right) else None
  }

  lemma {:induction false} ComposeTwo<S>(m: Meaning<S>, n: Meaning<S>, x: string)
    ensures Compose([m, n], 0, x) == n.F(m.F(x))
  {
    assert Compose([m, n], 2, n.F(m.F(x))) == n.F(m.F(x));
    assert Compose([m, n], 1, m.F(x)) == n.F(m.F(x));
  }

  /** Two different codecs in one chain: a body that is encrypted on its way to
      the response filter. The client gets the header in the clear and then the
      encryption of the whole body. */
  method EncryptedPage(e: Cip.Evp, mayFail: bool, h: string, head: bool, calls: seq<Out.Call>)
      returns (ok: bool, sent: string)
    requires Cip.EvpOk(e) && Cip.Reliable(e, mayFail)
    ensures var x := Out.AllWritten(calls);
            ok ==> sent == if Out.AnyWrite(calls) then h + (if head then "" else e.stream(x) + e.tail(x)) else ""
    ensures !mayFail ==> ok
  {
    CipherLifted(e, mayFail, Out.AllWritten(calls));
    FilterLifted(h, head);
    ok, sent := WriteThroughTwo(Lift(Cip.CipherOps(e), IntoLeft, OutLeft), Left(Cip.INITIAL),
                                LiftMeaning(Cip.CipherMeaning(e, mayFail), OutLeft),
                                Lift(Filt.FilterOps(h, head), IntoRight, OutRight), Right(Filt.INITIAL),
                                LiftMeaning(Filt.FilterMeaning(h, head), OutRight), calls);
  }

  lemma {:induction false} CipherLifted(e: Cip.Evp, mayFail: bool, x: string)
    requires Cip.EvpOk(e) && Cip.Reliable(e, mayFail)
    ensures var m := LiftMeaning(Cip.CipherMeaning(e, mayFail), OutLeft);
            && Meets(Lift(Cip.CipherOps(e), IntoLeft, OutLeft), m) && m.reach(Left(Cip.INITIAL), false, "", "")
            && m.mayFail == mayFail && m.F(x) == e.stream(x) + e.tail(x)
  {
    Cip.CipherKeeps(e, mayFail);
    Cip.CipherWhole(e, mayFail, x);
    LiftMeets(Cip.CipherOps(e), Cip.CipherMeaning(e, mayFail), IntoLeft, OutLeft);
    assert OutLeft(Left(Cip.INITIAL)) == Some(Cip.INITIAL);
  }

  lemma {:induction false} FilterLifted(h: string, head: bool)
    ensures var m := LiftMeaning(Filt.FilterMeaning(h, head), OutRight);
            && Meets(Lift(Filt.FilterOps(h, head), IntoRight, OutRight), m)
            && m.reach(Right(Filt.INITIAL), false, "", "")
            && !m.mayFail && forall i: string :: m.F(i) == h + if head then "" else i
  {
    Filt.FilterMeets(h, head);
    LiftMeets(Filt.FilterOps(h, head), Filt.FilterMeaning(h, head), IntoRight, OutRight);
    assert OutRight(Right(Filt.INITIAL)) == Some(Filt.INITIAL);
  }

  method TwoCodecs<S(!new)>(a: Ops<S>, s: S, ghost m: Meaning<S>, b: Ops<S>, t: S, ghost n: Meaning<S>)
      returns (chain: Chain<S>)
    requires Meets(a, m) && m.reach(s, false, "", "") && !m.lastOnly && Meets(b, n) && n.reach(t, false, "", "")
    ensures fresh(chain) && chain.Fresh() && chain.ms == [m, n] && chain.cells != []
  {
    chain := OneCodec(a, s, m);
    chain.AddTail(b, t, n);
    assert [m] + [n] == [m, n];
  }

  /** Any run of writes through a chain of two codecs. */
  method WriteThroughTwo<S(!new)>(a: Ops<S>, s: S, ghost m: Meaning<S>, b: Ops<S>, t: S, ghost n: Meaning<S>,
                                  calls: seq<Out.Call>) returns (ok: bool, sink: string)
    requires Meets(a, m) && m.reach(s, false, "", "") && !m.lastOnly && Meets(b, n) && n.reach(t, false, "", "")
    ensures ok ==> sink == if Out.AnyWrite(calls) then n.F(m.F(Out.AllWritten(calls))) else ""
    ensures !m.mayFail && !n.mayFail ==> ok
  {
    var chain := TwoCodecs(a, s, m, b, t, n);
    ComposeTwo(m, n, Out.AllWritten(calls));
    var io := new Out.Io(chain, true);
    ok := io.Run(calls);
    sink := io.sink;
  }
}

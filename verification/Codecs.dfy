/** src/libcodec/null.c: the identity instance of the codec contract. */
module NullCodec {
  import opened Codec

  datatype State = State

  function Transform(s: State, src: string, room: nat): Transformed<State> {
    if src == "" || room == 0 then TransformFailed
    else
      var wr := if |src| <= room then |src| else room;
      Transformed(s, wr, src[..wr])
  }

  function Flush(s: State, room: nat): Flushed<State> {
    Flushed(s, true, "")
  }

  const OPS: Ops<State> := Ops(Transform, Flush)

  ghost const MEANING: Meaning<State> :=
    Meaning((i: string) => i, (s: State, closed: bool, i: string, o: string) => o == i, false, false)

  /** null_transform and null_flush meet the contract with the identity. */
  lemma {:induction false} NullMeets()
    ensures Meets(OPS, MEANING)
    ensures forall i: string :: MEANING.F(i) == i
    ensures MEANING.reach(State, false, "", "")
  {
    assert Online(MEANING);
    forall s: State, i, o, src, room: nat | MEANING.reach(s, false, i, o) && src != [] && room > 0
      ensures TransformOk(MEANING, OPS.transform(s, src, room), i, o, src, room)
    {
      assert OPS.transform(s, src, room) == Transform(s, src, room);
    }
  }
}

/**
  src/libcodec/cipher.c. The EVP context is abstract: it is known by the input
  it has been fed, and a block cipher gives out a growing function of it.
 */
module CipherCodec {
  import opened Codec

  const CODEC_CIPHER_MAX_INPUT: nat := 4096

  /** EVP update and final as functions of the whole input so far: `stream(i)`
      is all that update has given for `i`, `tail(i)` what final adds;
      `stalls(i, x)` and `fails(i)` tell whether update for `x` more, or final,
      is an error. */
  datatype Evp = Evp(stream: string -> string, tail: string -> string,
                     stalls: (string, string) -> bool, fails: string -> bool, block: nat)

  /** What EVP promises: output only grows, by less than a block more than the
      input, and final gives at most one block. */
  ghost predicate EvpOk(e: Evp) {
    && e.block > 0 && e.stream("") == ""
    && (forall i, x :: e.stream(i) <= e.stream(i + x))
    && (forall i, x :: |e.stream(i + x)| <= |e.stream(i)| + |x| + e.block - 1)
    && (forall i :: |e.tail(i)| <= e.block)
  }

  function CbufSize(e: Evp): nat
    requires e.block > 0
  {
    CODEC_CIPHER_MAX_INPUT + e.block - 1
  }

  /** `fed`: what update has been given; `held`: output waiting in cbuf;
      `final`: whether the final function may still be called. */
  datatype State = State(fed: string, held: string, final: bool)

  const INITIAL := State("", "", true)

  /** What one update call gives for `x`. */
  function Update(e: Evp, fed: string, x: string): (w: string)
  {
    var before, after := e.stream(fed), e.stream(fed + x);
    if |before| <= |after| then after[|before|..] else ""
  }

  /** It is what EVP has given more, and fits the buffer. */
  lemma {:induction false} UpdateGives(e: Evp, fed: string, x: string)
    requires EvpOk(e)
    ensures e.stream(fed) + Update(e, fed, x) == e.stream(fed + x) && |Update(e, fed, x)| <= |x| + e.block - 1
  {
    assert e.stream(fed) <= e.stream(fed + x);
  }

  function Transforming(e: Evp, s: State, src: string, room: nat): Transformed<State> {
    if src == "" || room == 0 then TransformFailed
    else if s.held != "" then
      var n := Min(room, |s.held|);
      Transformed(s.(held := s.held[n..]), 0, s.held[..n])
    else
      var c := Min(|src|, CODEC_CIPHER_MAX_INPUT);
      var w := Update(e, s.fed, src[..c]);
      var n := Min(room, |w|);
      if e.stalls(s.fed, src[..c]) then TransformFailed
      else Transformed(State(s.fed + src[..c], w[n..], s.final), c, w[..n])
  }

  function Flushing(e: Evp, s: State, room: nat): Flushed<State> {
    if s.held != "" then
      var n := Min(room, |s.held|);
      Flushed(s.(held := s.held[n..]), false, s.held[..n])
    else if s.final then
      if e.fails(s.fed) then FlushFailed
      else
        var w := e.tail(s.fed);
        var n := Min(room, |w|);
        Flushed(State(s.fed, w[n..], false), w == "", w[..n])
    else Flushed(s, true, "")
  }

  function CipherOps(e: Evp): Ops<State> {
    Ops((s: State, src: string, room: nat) => Transforming(e, s, src, room),
        (s: State, room: nat) => Flushing(e, s, room))
  }

  /** What has been given plus what is held is what EVP has given. */
  predicate Reach(e: Evp, s: State, closed: bool, i: string, o: string) {
    && s.fed == i && (!closed ==> s.final)
    && o + s.held == if s.final then e.stream(i) else e.stream(i) + e.tail(i)
  }

  function CipherMeaning(e: Evp, mayFail: bool): Meaning<State> {
    Meaning((i: string) => e.stream(i) + e.tail(i),
            (s: State, closed: bool, i: string, o: string) => Reach(e, s, closed, i, o), mayFail, false)
  }

  /** Part of what is held, given. */
  lemma {:induction false} Given(o: string, w: string, n: nat)
    requires n <= |w|
    ensures (o + w[..n]) + w[n..] == o + w
  {
    assert w == w[..n] + w[n..];
    Assoc(o, w[..n], w[n..]);
  }

  lemma {:induction false} OpenPrefix(e: Evp, s: State, i: string, o: string, x: string)
    requires EvpOk(e) && Reach(e, s, false, i, o)
    ensures o <= e.stream(i + x) + e.tail(i + x)
  {
    assert o + s.held == e.stream(i);
    assert e.stream(i) <= e.stream(i + x);
  }

  lemma {:induction false} TransformStep(e: Evp, mayFail: bool, s: State, i: string, o: string, src: string, room: nat)
    requires EvpOk(e) && Reach(e, s, false, i, o) && src != [] && room > 0
    requires forall x :: e.stalls(i, x) ==> mayFail
    ensures TransformOk(CipherMeaning(e, mayFail), Transforming(e, s, src, room), i, o, src, room)
  {
    if s.held != "" {
      Given(o, s.held, Min(room, |s.held|));
      assert i + src[..0] == i;
    } else {
      var c := Min(|src|, CODEC_CIPHER_MAX_INPUT);
      var w := Update(e, s.fed, src[..c]);
      assert e.stream(i) <= e.stream(i + src[..c]);
      assert o + "" == o == e.stream(i);
      Given(o, w, Min(room, |w|));
    }
  }

  lemma {:induction false} FlushStep(e: Evp, mayFail: bool, s: State, closed: bool, i: string, o: string, room: nat)
    requires EvpOk(e) && Reach(e, s, closed, i, o) && (e.fails(i) ==> mayFail)
    ensures FlushOk(CipherMeaning(e, mayFail), Flushing(e, s, room), i, o, room)
  {
    if s.held != "" {
      Given(o, s.held, Min(room, |s.held|));
    } else if s.final {
      assert o + "" == o == e.stream(i);
      Given(o, e.tail(i), Min(room, |e.tail(i)|));
    } else {
      assert o + "" == o;
    }
  }

  /** EVP fails only where `mayFail` says so. */
  ghost predicate Reliable(e: Evp, mayFail: bool) {
    (forall i :: e.fails(i) ==> mayFail) && (forall i, x :: e.stalls(i, x) ==> mayFail)
  }

  /** cipher_transform and cipher_flush meet the contract with the whole
      encryption (or decryption) of their input: what update gives for all of
      it, and then the final block. */
  lemma {:induction false} CipherMeets(e: Evp, mayFail: bool)
    requires EvpOk(e) && Reliable(e, mayFail)
    ensures Meets(CipherOps(e), CipherMeaning(e, mayFail))
    ensures forall i: string :: CipherMeaning(e, mayFail).F(i) == e.stream(i) + e.tail(i)
    ensures CipherMeaning(e, mayFail).mayFail == mayFail && CipherMeaning(e, mayFail).reach(INITIAL, false, "", "")
  {
    CipherKeeps(e, mayFail);
    forall i: string ensures CipherMeaning(e, mayFail).F(i) == e.stream(i) + e.tail(i) {
      CipherWhole(e, mayFail, i);
    }
  }

  lemma {:induction false} CipherWhole(e: Evp, mayFail: bool, i: string)
    ensures CipherMeaning(e, mayFail).F(i) == e.stream(i) + e.tail(i)
  {
  }

  lemma {:induction false} CipherKeeps(e: Evp, mayFail: bool)
    requires EvpOk(e) && Reliable(e, mayFail)
    ensures Meets(CipherOps(e), CipherMeaning(e, mayFail))
    ensures CipherMeaning(e, mayFail).mayFail == mayFail && CipherMeaning(e, mayFail).reach(INITIAL, false, "", "")
  {
    var k, m := CipherOps(e), CipherMeaning(e, mayFail);
    forall s, i, o, x | m.reach(s, false, i, o) ensures o <= m.F(i + x) {
      OpenPrefix(e, s, i, o, x);
    }
    forall s, i, o | m.reach(s, true, i, o) ensures o <= m.F(i) {
      assert o + s.held <= e.stream(i) + e.tail(i);
    }
    forall s, i, o, src, room: nat | m.reach(s, false, i, o) && src != [] && room > 0
      ensures TransformOk(m, k.transform(s, src, room), i, o, src, room)
    {
      TransformStep(e, mayFail, s, i, o, src, room);
    }
    forall s, closed, i, o, room: nat | m.reach(s, closed, i, o)
      ensures FlushOk(m, k.flush(s, room), i, o, room)
    {
      FlushStep(e, mayFail, s, closed, i, o, room);
    }
  }

  /** struct codec_cipher_s: the buffer with its offsets behind `held`. */
  class Cipher {
    const e: Evp
    var fed: string
    const cbuf: array<char>
    var coff: nat
    var ccount: nat
    var final: bool

    ghost var held: string  // what the buffer holds

    ghost predicate Valid()
      reads this, cbuf
    {
      && EvpOk(e) && cbuf.Length == CbufSize(e) && coff + ccount <= cbuf.Length && (ccount == 0 ==> coff == 0)
      && ccount == |held| && forall k :: 0 <= k < |held| ==> cbuf[coff + k] == held[k]
    }

    ghost function Value(): State
      reads this
    {
      State(fed, held, final)
    }

    constructor (e: Evp)
      requires EvpOk(e)
      ensures Valid() && Value() == INITIAL && this.e == e && fresh(cbuf)
    {
      this.e, fed, coff, ccount, final, held := e, "", 0, 0, true, "";
      cbuf := new char[CbufSize(e)];
    }

    /** codec_cbufcpy: copy out as much as fits. */
    method CopyOut(room: nat) returns (p: string)
      requires Valid()
      modifies this`coff, this`ccount, this`held
      ensures Valid() && p == old(held)[..Min(room, old(ccount))] && held == old(held)[|p|..]
    {
      var count := Min(room, ccount);
      p := cbuf[coff..coff + count];
      held := held[count..];
      ccount := ccount - count;
      coff := if ccount > 0 then coff + count else 0;
    }

    /** EVP writes its output at the start of the empty buffer. */
    method Receive(w: string)
      requires Valid() && ccount == 0 && |w| <= cbuf.Length
      modifies this`ccount, this`held, cbuf
      ensures Valid() && held == w
    {
      forall i | 0 <= i < |w| {
        cbuf[i] := w[i];
      }
      ccount := |w|;
      held := w;
    }

    /** cipher_transform. */
    method Transform(src: string, room: nat) returns (ok: bool, c: nat, p: string)
      requires Valid()
      modifies this, cbuf
      ensures Valid()
      ensures Transforming(e, old(Value()), src, room) ==
              if ok then Transformed(Value(), c, p) else TransformFailed
      // an error only for no input or room, or from EVP
      ensures ok <==> src != "" && room > 0 &&
                      (old(held) != "" || !e.stalls(old(fed), src[..Min(|src|, CODEC_CIPHER_MAX_INPUT)]))
      // held bytes first; else what EVP gives for the next bytes of the input
      ensures ok && old(held) != "" ==> c == 0 && fed == old(fed) && p + held == old(held)
      ensures ok && old(held) == "" ==>
                && c == Min(|src|, CODEC_CIPHER_MAX_INPUT) && fed == old(fed) + src[..c]
                && e.stream(old(fed)) + (p + held) == e.stream(fed)
      ensures ok ==> |p| <= room && (held != "" ==> |p| == room)
    {
      if src == "" || room == 0 {
        return false, 0, "";
      }
      ok, c := true, 0;
      if ccount == 0 {
        c := Min(|src|, CODEC_CIPHER_MAX_INPUT);
        if e.stalls(fed, src[..c]) {
          return false, 0, "";
        }
        var w := Update(e, fed, src[..c]);
        UpdateGives(e, fed, src[..c]);
        Receive(w);
        fed := fed + src[..c];
        if |w| == 0 {
          return true, c, "";
        }
      }
      p := CopyOut(room);
    }

    /** cipher_flush. */
    method Flush(room: nat) returns (ok: bool, complete: bool, p: string)
      requires Valid()
      modifies this, cbuf
      ensures ok ==> Valid()
      ensures Flushing(e, old(Value()), room) ==
              if ok then Flushed(Value(), complete, p) else FlushFailed
      ensures ok <==> !(old(held) == "" && old(final) && e.fails(old(fed)))
      // what is held, and when that is gone the final block, once
      ensures ok ==> fed == old(fed) && p + held == if old(held) == "" && old(final) then e.tail(fed) else old(held)
      ensures ok ==> final == (old(final) && old(held) != "")
      ensures ok ==> |p| <= room && (held != "" ==> |p| == room) && (complete ==> p == held == "" && !final)
    {
      ok, complete, p := true, true, "";
      if ccount == 0 && final {
        if e.fails(fed) {
          return false, false, "";
        }
        var w := e.tail(fed);
        Receive(w);
        final := false;
      }
      if ccount > 0 {
        p := CopyOut(room);
        complete := false;
      }
    }
  }
}

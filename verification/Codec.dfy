/**
  The codec contract: what a transform/flush pair must promise so that a chain
  of codecs computes one stream function, however its input is cut up.

  A C byte is modelled by a `char`, so a byte stream is a `string`.
 */
module Codec {

  /** Size of the staging buffer every codec owns. */
  const CODEC_BUFSZ: nat := 4096

  function Min(a: nat, b: nat): (m: nat)
    ensures m <= a && m <= b && (m == a || m == b)
  {
    if a <= b then a else b
  }

  /** Outcome of a transform call: a failure, or bytes taken and bytes given. */
  datatype Transformed<+S> =
    | TransformFailed
    | Transformed(next: S, consumed: nat, produced: string)

  /** Outcome of a flush call: a failure, or CHUNK/COMPLETE and the bytes given. */
  datatype Flushed<+S> =
    | FlushFailed
    | Flushed(next: S, complete: bool, produced: string)

  /** The two operations of a codec over its private state `S`; the last
      argument of each is the room left in the destination. */
  datatype Ops<!S> = Ops(
    transform: (S, string, nat) -> Transformed<S>,
    flush: (S, nat) -> Flushed<S>)

  /** What a codec computes. `F(i)` is everything it emits for the whole input
      `i`; `reach(s, closed, i, o)` says that `s` is a state in which `i` has
      been taken and `o` given, `closed` telling whether flushing has begun.
      A codec that is `lastOnly` must not be flushed without room, and says
      nothing of the byte count when its flush is complete. */
  datatype Meaning<!S> = Meaning(
    F: string -> string,
    reach: (S, bool, string, string) -> bool,
    mayFail: bool,
    lastOnly: bool)

  /** Whatever was given while open is part of the answer for every continuation. */
  ghost predicate Online<S(!new)>(m: Meaning<S>) {
    && (forall s, i, o, x :: m.reach(s, false, i, o) ==> o <= m.F(i + x))
    && (forall s, i, o :: m.reach(s, true, i, o) ==> o <= m.F(i))
  }

  ghost predicate TransformOk<S>(m: Meaning<S>, r: Transformed<S>, i: string, o: string, src: string, room: nat) {
    if r.TransformFailed? then m.mayFail else
      && r.consumed <= |src|
      && |r.produced| <= room
      && r.consumed + |r.produced| > 0
      && m.reach(r.next, false, i + src[..r.consumed], o + r.produced)
  }

  ghost predicate FlushOk<S>(m: Meaning<S>, r: Flushed<S>, i: string, o: string, room: nat) {
    if r.FlushFailed? then m.mayFail else
      && |r.produced| <= room
      && m.reach(r.next, true, i, o + r.produced)
      && (r.complete ==> r.produced == [] && o == m.F(i))
      && (!r.complete && room > 0 ==> r.produced != [])
  }

  /** The contract: every transform with input and room makes progress along
      `F`, every flush moves towards `F(i)` and completes exactly on it. */
  ghost predicate Meets<S(!new)>(k: Ops<S>, m: Meaning<S>) {
    && Online(m)
    && (forall s, i, o, src, room: nat {:trigger m.reach(s, false, i, o), k.transform(s, src, room)} ::
          m.reach(s, false, i, o) && src != [] && room > 0 ==>
            TransformOk(m, k.transform(s, src, room), i, o, src, room))
    && (forall s, closed, i, o, room: nat {:trigger m.reach(s, closed, i, o), k.flush(s, room)} ::
          m.reach(s, closed, i, o) && (room > 0 || !m.lastOnly) ==> FlushOk(m, k.flush(s, room), i, o, room))
  }

  lemma {:induction false} Assoc(a: string, b: string, c: string)
    ensures a + (b + c) == (a + b) + c
  {
  }

  /** Bytes taken in two steps. */
  lemma {:induction false} Further(taken: string, data: string, off: nat, c: nat)
    requires off + c <= |data|
    ensures (taken + data[..off]) + data[off..][..c] == taken + data[..off + c]
  {
    assert data[..off] + data[off..][..c] == data[..off + c];
  }

  /** Meaning of a chain from codec `k` on: function composition. */
  ghost function Compose<S>(ms: seq<Meaning<S>>, k: nat, x: string): string
    requires k <= |ms|
    decreases |ms| - k
  {
    if k == |ms| then x else Compose(ms, k + 1, ms[k].F(x))
  }
}

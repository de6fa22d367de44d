/**
  The pump that drives bytes through a chain of codecs, each with its own
  staging buffer: `io_transform`, `io_transform_codec_buffer`, `io_transfer`
  and `io_chain_flush_chunk` of src/libio/io.c.
 */
module CodecChain {
  import opened Codec

  /** One link of the chain: the codec and its staging buffer, of which
      `cbuf[coff..coff+ccount]` is the part not yet handed on. */
  datatype Cell<!S> = Cell(ops: Ops<S>, st: S, cbuf: string, coff: nat, ccount: nat) {
    ghost predicate Bounded() {
      && |cbuf| == CODEC_BUFSZ
      && coff + ccount <= CODEC_BUFSZ
      && (ccount == 0 ==> coff == 0)
    }

    function Held(): string
      requires coff + ccount <= |cbuf|
    {
      cbuf[coff..coff + ccount]
    }

    function Avail(): nat
      requires Bounded()
    {
      CODEC_BUFSZ - ccount - coff
    }

    /** Bytes written just past the held ones. */
    function Append(st': S, p: string): (c: Cell<S>)
      requires Bounded() && |p| <= Avail()
      ensures c.Bounded() && c.Held() == Held() + p && c.ops == ops && c.st == st'
    {
      var at := coff + ccount;
      var c := Cell(ops, st', cbuf[..at] + p + cbuf[at + |p|..], coff, ccount + |p|);
      assert c.Held() == Held() + p;
      c
    }

    /** The first `n` held bytes handed on. */
    function Drop(n: nat): (c: Cell<S>)
      requires Bounded() && n <= ccount
      ensures c.Bounded() && c.Held() == Held()[n..] && c.ops == ops && c.st == st
    {
      var left := ccount - n;
      Cell(ops, st, cbuf, if left > 0 then coff + n else 0, left)
    }
  }

  /** What one codec has taken and given so far. */
  datatype Track = Track(inp: string, out: string, closed: bool)

  /** Two chains of the same length that agree before codec `k`. */
  ghost predicate SameBefore<S(!new)>(cs: seq<Cell<S>>, ts: seq<Track>, cs': seq<Cell<S>>, ts': seq<Track>, k: nat) {
    && |cs'| == |cs| && |ts'| == |ts|
    && (forall j :: 0 <= j < k && j < |cs| ==> cs'[j] == cs[j])
    && (forall j :: 0 <= j < k && j < |ts| ==> ts'[j] == ts[j])
  }

  /** Two chains of the same length that agree from codec `k` on. */
  ghost predicate SameFrom<S(!new)>(cs: seq<Cell<S>>, ts: seq<Track>, cs': seq<Cell<S>>, ts': seq<Track>, k: nat) {
    && |cs'| == |cs| && |ts'| == |ts|
    && (forall j :: k <= j < |cs| ==> cs'[j] == cs[j])
    && (forall j :: k <= j < |ts| ==> ts'[j] == ts[j])
  }

  ghost predicate CellOk<S(!new)>(c: Cell<S>, m: Meaning<S>, t: Track) {
    && c.Bounded()
    && Meets(c.ops, m)
    && m.reach(c.st, t.closed, t.inp, t.out)
  }

  /** Codecs `k` on are sound, and what each of them gave is what the next one
      took plus what is staged between the two. */
  ghost predicate Suffix<S(!new)>(cs: seq<Cell<S>>, ms: seq<Meaning<S>>, ts: seq<Track>, k: nat)
    decreases |cs| - k
  {
    && k <= |cs| == |ms| == |ts|
    && (k < |cs| ==>
          && CellOk(cs[k], ms[k], ts[k])
          && (if k + 1 < |cs| then ts[k].out == ts[k + 1].inp + cs[k].Held() && !ms[k].lastOnly
              else cs[k].ccount == 0)
          && Suffix(cs, ms, ts, k + 1))
  }

  ghost predicate OpenFrom(ts: seq<Track>, k: nat) {
    forall j :: k <= j < |ts| ==> !ts[j].closed
  }

  /** A codec all of whose output has reached the next one. */
  ghost predicate Done<S(!new)>(c: Cell<S>, m: Meaning<S>, t: Track) {
    t.closed && t.out == m.F(t.inp) && c.ccount == 0
  }

  /** Codecs `k` on while the chain is being flushed: some done ones, then one
      that may have begun to flush, then open ones. */
  ghost predicate Flushing<S(!new)>(cs: seq<Cell<S>>, ms: seq<Meaning<S>>, ts: seq<Track>, k: nat)
    decreases |cs| - k
  {
    && k <= |cs| == |ms| == |ts|
    && (k < |cs| ==>
          && CellOk(cs[k], ms[k], ts[k])
          && (if k + 1 < |cs| then ts[k].out == ts[k + 1].inp + cs[k].Held() && !ms[k].lastOnly
              else cs[k].ccount == 0)
          && (if Done(cs[k], ms[k], ts[k]) then Flushing(cs, ms, ts, k + 1)
              else Suffix(cs, ms, ts, k + 1) && OpenFrom(ts, k + 1)))
  }

  /** Codecs before `k` are done. */
  ghost predicate DoneBefore<S(!new)>(cs: seq<Cell<S>>, ms: seq<Meaning<S>>, ts: seq<Track>, k: nat) {
    && k <= |cs| == |ms| == |ts|
    && (k > 0 ==>
          && CellOk(cs[k - 1], ms[k - 1], ts[k - 1])
          && Done(cs[k - 1], ms[k - 1], ts[k - 1])
          && (k < |cs| ==> ts[k - 1].out == ts[k].inp && !ms[k - 1].lastOnly)
          && DoneBefore(cs, ms, ts, k - 1))
  }

  lemma {:induction false} SuffixFrame<S(!new)>(
      cs: seq<Cell<S>>, ms: seq<Meaning<S>>, ts: seq<Track>, cs': seq<Cell<S>>, ts': seq<Track>, k: nat)
    requires Suffix(cs, ms, ts, k) && SameFrom(cs, ts, cs', ts', k)
    ensures Suffix(cs', ms, ts', k)
    decreases |cs| - k
  {
    if k < |cs| {
      SuffixFrame(cs, ms, ts, cs', ts', k + 1);
    }
  }

  /** Handing on `c` staged bytes, once the next codec has taken them. */
  lemma {:induction false} DrainStep<S(!new)>(
      cs: seq<Cell<S>>, ms: seq<Meaning<S>>, ts: seq<Track>, k: nat, cell: Cell<S>, c: nat)
    requires k + 1 < |cs| && Suffix(cs, ms, ts, k + 1) && c <= cell.ccount
    requires CellOk(cell, ms[k], ts[k]) && !ms[k].lastOnly
    requires exists before :: ts[k].out == before + cell.Held() && ts[k + 1].inp == before + cell.Held()[..c]
    ensures Suffix(cs[k := cell.Drop(c)], ms, ts, k)
  {
    SuffixFrame(cs, ms, ts, cs[k := cell.Drop(c)], ts, k + 1);
    assert cell.Held() == cell.Held()[..c] + cell.Held()[c..];
    assert ts[k].out == ts[k + 1].inp + cell.Drop(c).Held();
  }

  /** An open chain, as a whole, is online: its last output is a prefix of the
      composed function on every continuation of its first input. */
  lemma {:induction false} OnlineChain<S(!new)>(
      cs: seq<Cell<S>>, ms: seq<Meaning<S>>, ts: seq<Track>, k: nat, x: string)
    requires Suffix(cs, ms, ts, k) && OpenFrom(ts, k) && k < |cs|
    ensures ts[|ts| - 1].out <= Compose(ms, k, ts[k].inp + x)
    decreases |cs| - k
  {
    var y := ms[k].F(ts[k].inp + x);
    assert ts[k].out <= y;
    if k + 1 < |cs| {
      var z := y[|ts[k + 1].inp|..];
      assert y == ts[k + 1].inp + z;
      OnlineChain(cs, ms, ts, k + 1, z);
    }
  }

  lemma {:induction false} FlushingFrame<S(!new)>(
      cs: seq<Cell<S>>, ms: seq<Meaning<S>>, ts: seq<Track>, cs': seq<Cell<S>>, ts': seq<Track>, k: nat)
    requires Flushing(cs, ms, ts, k) && SameFrom(cs, ts, cs', ts', k)
    ensures Flushing(cs', ms, ts', k)
    decreases |cs| - k
  {
    if k < |cs| {
      if Done(cs[k], ms[k], ts[k]) {
        FlushingFrame(cs, ms, ts, cs', ts', k + 1);
      } else {
        SuffixFrame(cs, ms, ts, cs', ts', k + 1);
      }
    }
  }

  lemma {:induction false} DoneBeforeFrame<S(!new)>(
      cs: seq<Cell<S>>, ms: seq<Meaning<S>>, ts: seq<Track>, cs': seq<Cell<S>>, ts': seq<Track>, k: nat)
    requires DoneBefore(cs, ms, ts, k) && SameBefore(cs, ts, cs', ts', k)
    requires k < |ts| ==> ts'[k].inp == ts[k].inp
    ensures DoneBefore(cs', ms, ts', k)
  {
    if k > 0 {
      DoneBeforeFrame(cs, ms, ts, cs', ts', k - 1);
    }
  }

  /** Replacing the codec under the flush cursor. */
  lemma {:induction false} FlushingUpdate<S(!new)>(
      cs: seq<Cell<S>>, ms: seq<Meaning<S>>, ts: seq<Track>, k: nat, c: Cell<S>, t: Track)
    requires Flushing(cs, ms, ts, k) && k < |cs| && CellOk(c, ms[k], t)
    requires if k + 1 < |cs| then t.out == ts[k + 1].inp + c.Held() else c.ccount == 0
    requires Done(cs[k], ms[k], ts[k]) ==> Done(c, ms[k], t)
    ensures Flushing(cs[k := c], ms, ts[k := t], k)
  {
    var cs', ts' := cs[k := c], ts[k := t];
    if Done(cs[k], ms[k], ts[k]) {
      FlushingFrame(cs, ms, ts, cs', ts', k + 1);
    } else {
      SuffixFrame(cs, ms, ts, cs', ts', k + 1);
      assert Suffix(cs', ms, ts', k + 1) && OpenFrom(ts', k + 1);
      OpenIsFlushing(cs', ms, ts', k + 1);
    }
  }

  lemma {:induction false} Fed<S(!new)>(cell: Cell<S>, m: Meaning<S>, t: Track, src: string, r: Transformed<S>)
    requires CellOk(cell, m, t) && !t.closed && src != [] && cell.Avail() > 0
    requires r == cell.ops.transform(cell.st, src, cell.Avail())
    ensures r.TransformFailed? ==> m.mayFail
    ensures r.Transformed? ==>
              && r.consumed <= |src| && |r.produced| <= cell.Avail() && r.consumed + |r.produced| > 0
              && CellOk(cell.Append(r.next, r.produced), m, Track(t.inp + src[..r.consumed], t.out + r.produced, false))
  {
    assert TransformOk(m, r, t.inp, t.out, src, cell.Avail());
  }

  lemma {:induction false} Emptied<S(!new)>(cell: Cell<S>, m: Meaning<S>, t: Track, r: Flushed<S>)
    requires CellOk(cell, m, t) && !m.lastOnly && r == cell.ops.flush(cell.st, cell.Avail())
    ensures r.FlushFailed? ==> m.mayFail
    ensures r.Flushed? ==>
              && |r.produced| <= cell.Avail() && (!r.complete && cell.Avail() > 0 ==> r.produced != [])
              && (r.complete ==> r.produced == [] && t.out == m.F(t.inp)) && t.out + r.produced <= m.F(t.inp)
              && CellOk(cell.Append(r.next, r.produced), m, Track(t.inp, t.out + r.produced, true))
  {
    assert FlushOk(m, r, t.inp, t.out, cell.Avail());
  }

  /** A transform into the staging buffer. */
  lemma {:induction false} FeedStep<S(!new)>(
      cs: seq<Cell<S>>, ms: seq<Meaning<S>>, ts: seq<Track>, k: nat, src: string, r: Transformed<S>)
    requires Suffix(cs, ms, ts, k) && k + 1 < |cs| && !ts[k].closed
    requires src != [] && cs[k].Avail() > 0 && r == cs[k].ops.transform(cs[k].st, src, cs[k].Avail())
    ensures r.TransformFailed? ==> ms[k].mayFail
    ensures r.Transformed? ==>
              && r.consumed <= |src| && |r.produced| <= cs[k].Avail() && r.consumed + |r.produced| > 0
              && Suffix(cs[k := cs[k].Append(r.next, r.produced)], ms,
                        ts[k := Track(ts[k].inp + src[..r.consumed], ts[k].out + r.produced, false)], k)
  {
    var cell, t := cs[k], ts[k];
    Fed(cell, ms[k], t, src, r);
    if r.Transformed? {
      var cell' := cell.Append(r.next, r.produced);
      var t' := Track(t.inp + src[..r.consumed], t.out + r.produced, false);
      SuffixFrame(cs, ms, ts, cs[k := cell'], ts[k := t'], k + 1);
      Assoc(ts[k + 1].inp, cell.Held(), r.produced);
      assert t'.out == ts[k + 1].inp + cell'.Held();
    }
  }

  /** A flush into the staging buffer. */
  lemma {:induction false} FlushStep<S(!new)>(
      cs: seq<Cell<S>>, ms: seq<Meaning<S>>, ts: seq<Track>, k: nat, r: Flushed<S>)
    requires Flushing(cs, ms, ts, k) && k + 1 < |cs|
    requires r == cs[k].ops.flush(cs[k].st, cs[k].Avail())
    ensures r.FlushFailed? ==> ms[k].mayFail
    ensures r.Flushed? ==>
              && |r.produced| <= cs[k].Avail() && (!r.complete && cs[k].Avail() > 0 ==> r.produced != [])
              && (r.complete ==> r.produced == [] && ts[k].out == ms[k].F(ts[k].inp))
              && Flushing(cs[k := cs[k].Append(r.next, r.produced)], ms,
                          ts[k := Track(ts[k].inp, ts[k].out + r.produced, true)], k)
  {
    var cell, t := cs[k], ts[k];
    Emptied(cell, ms[k], t, r);
    if r.Flushed? {
      var cell' := cell.Append(r.next, r.produced);
      var t' := Track(t.inp, t.out + r.produced, true);
      Assoc(ts[k + 1].inp, cell.Held(), r.produced);
      assert t'.out == ts[k + 1].inp + cell'.Held();
      FlushingUpdate(cs, ms, ts, k, cell', t');
    }
  }

  lemma {:induction false} OpenIsFlushing<S(!new)>(cs: seq<Cell<S>>, ms: seq<Meaning<S>>, ts: seq<Track>, k: nat)
    requires Suffix(cs, ms, ts, k) && OpenFrom(ts, k)
    ensures Flushing(cs, ms, ts, k)
  {
  }

  /** The cursor goes back to the first codec. */
  lemma {:induction false} Restart<S(!new)>(cs: seq<Cell<S>>, ms: seq<Meaning<S>>, ts: seq<Track>, k: nat)
    requires DoneBefore(cs, ms, ts, k) && Flushing(cs, ms, ts, k)
    ensures Flushing(cs, ms, ts, 0)
  {
    if k > 0 {
      assert cs[k - 1].Held() == [];
      Restart(cs, ms, ts, k - 1);
    }
  }

  /** A chain in the middle of being flushed has given no more than the
      composed function of what it took. */
  lemma {:induction false} OnlineFlush<S(!new)>(cs: seq<Cell<S>>, ms: seq<Meaning<S>>, ts: seq<Track>, k: nat)
    requires Flushing(cs, ms, ts, k) && k < |cs|
    ensures ts[|ts| - 1].out <= Compose(ms, k, ts[k].inp)
    decreases |cs| - k
  {
    var y := ms[k].F(ts[k].inp);
    assert ts[k].inp + [] == ts[k].inp;
    assert ts[k].out <= y;
    if k + 1 < |cs| {
      if Done(cs[k], ms[k], ts[k]) {
        assert cs[k].Held() == [];
        assert ts[k + 1].inp == y;
        OnlineFlush(cs, ms, ts, k + 1);
      } else {
        var z := y[|ts[k + 1].inp|..];
        assert y == ts[k + 1].inp + z;
        OnlineChain(cs, ms, ts, k + 1, z);
      }
    }
  }

  /** Once every codec is done the chain has given exactly the composed function. */
  lemma {:induction false} DoneChain<S(!new)>(cs: seq<Cell<S>>, ms: seq<Meaning<S>>, ts: seq<Track>, k: nat)
    requires DoneBefore(cs, ms, ts, k) && 0 < |cs|
    ensures Compose(ms, 0, ts[0].inp) == Compose(ms, k, if k < |cs| then ts[k].inp else ts[|cs| - 1].out)
  {
    if k > 0 {
      DoneChain(cs, ms, ts, k - 1);
    }
  }

  /** After work on codec `k` the cursor may go back to the start and, if that
      codec is done, on to the next one. */
  lemma {:induction false} Advance<S(!new)>(
      cs0: seq<Cell<S>>, ms: seq<Meaning<S>>, ts0: seq<Track>, cs: seq<Cell<S>>, ts: seq<Track>, k: nat)
    requires DoneBefore(cs0, ms, ts0, k) && SameBefore(cs0, ts0, cs, ts, k) && k < |cs|
    requires Flushing(cs, ms, ts, k) && ts[k].inp == ts0[k].inp
    ensures Flushing(cs, ms, ts, 0) && ts[0].inp == ts0[0].inp
    ensures Done(cs[k], ms[k], ts[k]) ==> DoneBefore(cs, ms, ts, k + 1) && Flushing(cs, ms, ts, k + 1)
    ensures Done(cs[k], ms[k], ts[k]) && k + 1 == |cs| ==> ts[k].out == Compose(ms, 0, ts[0].inp)
  {
    DoneBeforeFrame(cs0, ms, ts0, cs, ts, k);
    Restart(cs, ms, ts, k);
    if Done(cs[k], ms[k], ts[k]) {
      assert cs[k].Held() == [];
      DoneChain(cs, ms, ts, k + 1);
    }
  }

  lemma {:induction false} AppendFresh<S(!new)>(
      cs: seq<Cell<S>>, ms: seq<Meaning<S>>, ts: seq<Track>, c: Cell<S>, m: Meaning<S>, k: nat)
    requires Suffix(cs, ms, ts, k) && (forall t :: t in ts ==> t == Track("", "", false))
    requires CellOk(c, m, Track("", "", false)) && c.ccount == 0 && (cs != [] ==> !ms[|ms| - 1].lastOnly)
    ensures Suffix(cs + [c], ms + [m], ts + [Track("", "", false)], k)
    decreases |cs| - k
  {
    var t := Track("", "", false);
    if k < |cs| {
      assert ts[k] in ts;
      AppendFresh(cs, ms, ts, c, m, k + 1);
      assert k + 1 < |cs| ==> ts[k + 1] in ts;
    } else {
      assert Suffix(cs + [c], ms + [m], ts + [t], k + 1);
    }
  }

  lemma {:induction false} PrependFresh<S(!new)>(
      cs: seq<Cell<S>>, ms: seq<Meaning<S>>, ts: seq<Track>, c: Cell<S>, m: Meaning<S>, k: nat)
    requires Suffix(cs, ms, ts, k)
    ensures Suffix([c] + cs, [m] + ms, [Track("", "", false)] + ts, k + 1)
    decreases |cs| - k
  {
    if k < |cs| {
      PrependFresh(cs, ms, ts, c, m, k + 1);
      ShiftLink(cs, ms, ts, [c] + cs, [m] + ms, [Track("", "", false)] + ts, k);
    }
  }

  /** One link of a chain, one place further on. */
  lemma {:induction false} ShiftLink<S(!new)>(
      cs: seq<Cell<S>>, ms: seq<Meaning<S>>, ts: seq<Track>,
      cs': seq<Cell<S>>, ms': seq<Meaning<S>>, ts': seq<Track>, k: nat)
    requires Suffix(cs, ms, ts, k) && k < |cs| && |cs'| == |ms'| == |ts'| == |cs| + 1
    requires cs'[k + 1] == cs[k] && ms'[k + 1] == ms[k] && ts'[k + 1] == ts[k]
             && (k + 1 < |cs| ==> ts'[k + 2] == ts[k + 1])
    requires Suffix(cs', ms', ts', k + 2)
    ensures Suffix(cs', ms', ts', k + 1)
  {
  }

  class Chain<S(!new)> {
    var cells: seq<Cell<S>>
    ghost var ms: seq<Meaning<S>>
    ghost var ts: seq<Track>

    ghost predicate Reliable()
      reads this
    {
      forall j :: 0 <= j < |ms| ==> !ms[j].mayFail
    }

    ghost function Given(): string
      requires 0 < |ts|
      reads this
    {
      ts[|ts| - 1].out
    }

    /** All codecs sound and none of them flushed yet. */
    ghost predicate Open()
      reads this
    {
      Suffix(cells, ms, ts, 0) && OpenFrom(ts, 0)
    }

    /** No byte has gone through yet. */
    ghost predicate Fresh()
      reads this
    {
      Open() && forall t :: t in ts ==> t == Track("", "", false)
    }

    constructor ()
      ensures cells == [] && Fresh()
    {
      cells, ms, ts := [], [], [];
    }

    /** io_codec_add_tail, before any traffic. */
    method AddTail(ops: Ops<S>, st: S, ghost m: Meaning<S>)
      requires Fresh() && Meets(ops, m) && m.reach(st, false, "", "")
      requires cells != [] ==> !ms[|ms| - 1].lastOnly
      modifies this
      ensures Fresh() && ms == old(ms) + [m] && |cells| == old(|cells|) + 1
    {
      var cell := Cell(ops, st, seq(CODEC_BUFSZ, _ => '\0'), 0, 0);
      AppendFresh(cells, ms, ts, cell, m, 0);
      cells, ms, ts := cells + [cell], ms + [m], ts + [Track("", "", false)];
    }

    /** io_codec_add_head, before any traffic. */
    method AddHead(ops: Ops<S>, st: S, ghost m: Meaning<S>)
      requires Fresh() && Meets(ops, m) && m.reach(st, false, "", "")
      requires cells != [] ==> !m.lastOnly
      modifies this
      ensures Fresh() && ms == [m] + old(ms) && |cells| == old(|cells|) + 1
    {
      var cell := Cell(ops, st, seq(CODEC_BUFSZ, _ => '\0'), 0, 0);
      PrependFresh(cells, ms, ts, cell, m, 0);
      assert ts != [] ==> ts[0] in ts;
      cells, ms, ts := [cell] + cells, [m] + ms, [Track("", "", false)] + ts;
    }

    /** The codecs are taken off and freed. */
    method Clear()
      modifies this
      ensures cells == [] && ms == [] && Fresh()
    {
      cells, ms, ts := [], [], [];
    }

    /** io_transfer: through the chain if there is one, else a plain copy. */
    method Transfer(src: string, room: nat) returns (ok: bool, c: nat, p: string)
      requires Open() && src != [] && room > 0
      modifies this`cells, this`ts
      ensures |cells| == old(|cells|)
      ensures ok ==> Open() && c <= |src| && |p| <= room && c + |p| > 0
      ensures ok && cells != [] ==> ts[0].inp == old(ts[0].inp) + src[..c] && Given() == old(Given()) + p
      ensures ok && cells != [] ==> |Given()| <= |Compose(ms, 0, ts[0].inp)|
      ensures cells == [] ==> ok && p == src[..c]
      ensures Reliable() ==> ok
    {
      if cells != [] {
        ok, c, p := TransformAt(0, src, room);
        if ok {
          OnlineChain(cells, ms, ts, 0, "");
          assert ts[0].inp + "" == ts[0].inp;
        }
      } else {
        c := if |src| <= room then |src| else room;
        ok, p := true, src[..c];
      }
    }

    /** A codec transforms some of `src` into the free part of its own staging
        buffer. */
    method Feed(k: nat, src: string) returns (ok: bool, c: nat)
      requires Suffix(cells, ms, ts, k) && OpenFrom(ts, k) && k + 1 < |cells|
      requires src != [] && cells[k].Avail() > 0
      modifies this`cells, this`ts
      ensures SameBefore(old(cells), old(ts), cells, ts, k)
      ensures ok ==> Suffix(cells, ms, ts, k) && OpenFrom(ts, k) && Given() == old(Given())
      ensures ok ==> c <= |src| && ts[k].inp == old(ts[k].inp) + src[..c]
      ensures ok && c == 0 ==> |ts[k].out| > |old(ts[k].out)|
      ensures Reliable() ==> ok
    {
      var cell := cells[k];
      var r := cell.ops.transform(cell.st, src, cell.Avail());
      FeedStep(cells, ms, ts, k, src, r);
      if r.TransformFailed? {
        return false, 0;
      }
      ok, c := true, r.consumed;
      cells := cells[k := cell.Append(r.next, r.produced)];
      ts := ts[k := Track(ts[k].inp + src[..c], ts[k].out + r.produced, false)];
    }

    /** io_transform_codec_buffer: offer what codec `k` has staged to the rest
        of the chain. */
    method Drain(k: nat, room: nat) returns (ok: bool, p: string)
      requires Suffix(cells, ms, ts, k) && OpenFrom(ts, k + 1) && k + 1 < |cells|
      requires cells[k].ccount > 0 && room > 0
      modifies this`cells, this`ts
      ensures SameBefore(old(cells), old(ts), cells, ts, k) && ts[k] == old(ts[k])
      ensures ok ==> Suffix(cells, ms, ts, k) && OpenFrom(ts, k + 1)
      ensures ok ==> cells[k].st == old(cells[k].st) && cells[k].ops == old(cells[k].ops) && |p| <= room
      ensures ok ==> cells[k].ccount <= old(cells[k].ccount)
      ensures ok && p == [] ==> cells[k].ccount < old(cells[k].ccount)
      ensures ok ==> Given() == old(Given()) + p
      ensures Reliable() ==> ok
      decreases |cells| - k, 0
    {
      var cell := cells[k];
      ghost var t := ts[k];
      var c: nat;
      ok, c, p := TransformAt(k + 1, cell.Held(), room);
      if !ok {
        return;
      }
      DrainStep(cells, ms, ts, k, cell, c);
      cells := cells[k := cell.Drop(c)];
    }

    /** io_transform: offer `src` to codec `k`, collecting at most `room` bytes
        from the end of the chain. */
    method TransformAt(k: nat, src: string, room: nat) returns (ok: bool, c: nat, p: string)
      requires Suffix(cells, ms, ts, k) && OpenFrom(ts, k) && k < |cells|
      requires src != [] && room > 0
      modifies this`cells, this`ts
      ensures SameBefore(old(cells), old(ts), cells, ts, k)
      ensures ok ==> Suffix(cells, ms, ts, k) && OpenFrom(ts, k)
      ensures ok ==> c <= |src| && |p| <= room && c + |p| > 0
      ensures ok ==> ts[k].inp == old(ts[k].inp) + src[..c]
      ensures ok ==> Given() == old(Given()) + p
      ensures Reliable() ==> ok
      decreases |cells| - k, 2
    {
      if k == |cells| - 1 {
        ok, c, p := TransformLast(src, room);
        return;
      }
      ok, c, p := true, 0, [];
      var again := true;
      ghost var inp0 := ts[k].inp;
      while again
        invariant SameBefore(old(cells), old(ts), cells, ts, k)
        invariant Suffix(cells, ms, ts, k) && OpenFrom(ts, k)
        invariant ok && c <= |src| && |p| <= room
        invariant if again then c == 0 && p == [] else c + |p| > 0
        invariant ts[k].inp == inp0 + src[..c]
        invariant Given() == old(Given()) + p
        decreases again, |ms[k].F(inp0)| - |ts[k].out|, cells[k].ccount
      {
        assert inp0 + [] == inp0 == ts[k].inp;
        ok, c, p := Pump(k, src, room);
        if !ok {
          return;
        }
        again := c == 0 && p == [] && (cells[k].ccount > 0 || |src| > 0);
      }
    }

    /** One round of the loop of io_transform for a codec that is not the last. */
    method Pump(k: nat, src: string, room: nat) returns (ok: bool, c: nat, p: string)
      requires Suffix(cells, ms, ts, k) && OpenFrom(ts, k) && k + 1 < |cells|
      requires src != [] && room > 0
      modifies this`cells, this`ts
      ensures SameBefore(old(cells), old(ts), cells, ts, k)
      ensures ok ==> Suffix(cells, ms, ts, k) && OpenFrom(ts, k)
      ensures ok ==> c <= |src| && |p| <= room
      ensures ok ==> ts[k].inp == old(ts[k].inp) + src[..c]
      ensures ok ==> Given() == old(Given()) + p
      ensures ok && c == 0 && p == [] ==>
        || |ts[k].out| > |old(ts[k].out)|
        || (ts[k].out == old(ts[k].out) && cells[k].ccount < old(cells[k].ccount))
      ensures Reliable() ==> ok
      decreases |cells| - k, 1
    {
      ok, c, p := true, 0, [];
      if cells[k].ccount > 0 {
        ok, p := Drain(k, room);
        if !ok {
          return;
        }
      }
      if |src| > 0 && cells[k].Avail() > 0 {
        ok, c := Feed(k, src);
      }
    }

    /** The last codec writes straight to the destination. */
    method TransformLast(src: string, room: nat) returns (ok: bool, c: nat, p: string)
      requires 0 < |cells| && Suffix(cells, ms, ts, |cells| - 1) && OpenFrom(ts, |cells| - 1)
      requires src != [] && room > 0
      modifies this`cells, this`ts
      ensures |cells| == old(|cells|) && SameBefore(old(cells), old(ts), cells, ts, |cells| - 1)
      ensures ok ==> Suffix(cells, ms, ts, |cells| - 1) && OpenFrom(ts, |cells| - 1)
      ensures ok ==> c <= |src| && |p| <= room && c + |p| > 0
      ensures ok ==> ts[|cells| - 1].inp == old(ts[|cells| - 1].inp) + src[..c]
      ensures ok ==> Given() == old(Given()) + p
      ensures Reliable() ==> ok
    {
      var k := |cells| - 1;
      var r := cells[k].ops.transform(cells[k].st, src, room);
      assert TransformOk(ms[k], r, ts[k].inp, ts[k].out, src, room);
      if r.TransformFailed? {
        return false, 0, [];
      }
      ok, c, p := true, r.consumed, r.produced;
      cells := cells[k := cells[k].(st := r.next)];
      ts := ts[k := Track(ts[k].inp + src[..c], ts[k].out + p, false)];
    }

    /** A codec flushes into the free part of its own staging buffer. */
    method FlushInto(k: nat) returns (ok: bool, complete: bool)
      requires Flushing(cells, ms, ts, k) && k + 1 < |cells|
      modifies this`cells, this`ts
      ensures SameBefore(old(cells), old(ts), cells, ts, k) && ts[k].inp == old(ts[k].inp)
      ensures ok ==> Flushing(cells, ms, ts, k) && Given() == old(Given())
      ensures ok && complete ==> ts[k].closed && ts[k].out == old(ts[k].out) == ms[k].F(ts[k].inp)
      ensures ok && complete ==> cells[k].ccount == old(cells[k].ccount)
      ensures ok && !complete && old(cells[k].ccount) == 0 ==> |ts[k].out| > |old(ts[k].out)|
      ensures ok && |ts[k].out| == |old(ts[k].out)| ==> cells[k].ccount == old(cells[k].ccount)
      ensures ok ==> |ts[k].out| >= |old(ts[k].out)|
      ensures Reliable() ==> ok
    {
      var cell := cells[k];
      var r := cell.ops.flush(cell.st, cell.Avail());
      FlushStep(cells, ms, ts, k, r);
      if r.FlushFailed? {
        return false, false;
      }
      ok, complete := true, r.complete;
      cells := cells[k := cell.Append(r.next, r.produced)];
      ts := ts[k := Track(ts[k].inp, ts[k].out + r.produced, true)];
    }

    /** The first half of such a round: what is staged goes on. */
    method DrainStaged(k: nat, room: nat) returns (ok: bool, p: string)
      requires Flushing(cells, ms, ts, k) && k + 1 < |cells| && room > 0
      modifies this`cells, this`ts
      ensures SameBefore(old(cells), old(ts), cells, ts, k) && ts[k] == old(ts[k])
      ensures ok ==> Flushing(cells, ms, ts, k) && Given() == old(Given()) + p && |p| <= room
      ensures ok ==> cells[k].ccount <= old(cells[k].ccount)
      ensures ok && p == [] ==> cells[k].ccount == 0 || cells[k].ccount < old(cells[k].ccount)
      ensures Reliable() ==> ok
    {
      ok, p := true, [];
      if cells[k].ccount > 0 {
        ok, p := Drain(k, room);
        if ok {
          OpenIsFlushing(cells, ms, ts, k + 1);
        }
      }
    }

    /** One round of the loop of io_chain_flush_chunk over a codec that is not
        the last. */
    method FlushRound(k: nat, room: nat) returns (ok: bool, done: bool, p: string)
      requires Flushing(cells, ms, ts, k) && k + 1 < |cells| && room > 0
      modifies this`cells, this`ts
      ensures SameBefore(old(cells), old(ts), cells, ts, k) && ts[k].inp == old(ts[k].inp)
      ensures ok ==> Flushing(cells, ms, ts, k) && Given() == old(Given()) + p && |p| <= room
      ensures ok && done ==> p == [] && Done(cells[k], ms[k], ts[k])
      ensures ok && !done && p == [] ==>
        || |ts[k].out| > |old(ts[k].out)|
        || (|ts[k].out| == |old(ts[k].out)| && cells[k].ccount < old(cells[k].ccount))
      ensures Reliable() ==> ok
    {
      done := false;
      ok, p := DrainStaged(k, room);
      if !ok || p != [] {
        return;
      }
      var complete;
      ok, complete := FlushInto(k);
      done := complete && cells[k].ccount == 0;
    }

    /** The loop of io_chain_flush_chunk over one codec that is not the last:
        it ends with bytes for the caller or with the codec done. */
    method FlushAt(k: nat, room: nat) returns (ok: bool, p: string)
      requires Flushing(cells, ms, ts, k) && k + 1 < |cells| && room > 0
      modifies this`cells, this`ts
      ensures SameBefore(old(cells), old(ts), cells, ts, k) && ts[k].inp == old(ts[k].inp)
      ensures ok ==> Flushing(cells, ms, ts, k) && Given() == old(Given()) + p && |p| <= room
      ensures ok && p == [] ==> Done(cells[k], ms[k], ts[k])
      ensures Reliable() ==> ok
    {
      ok, p := true, [];
      var done := false;
      ghost var inp0 := ts[k].inp;
      while !done
        invariant SameBefore(old(cells), old(ts), cells, ts, k) && ts[k].inp == inp0
        invariant ok && p == [] && Flushing(cells, ms, ts, k) && Given() == old(Given())
        invariant done ==> Done(cells[k], ms[k], ts[k])
        decreases !done, |ms[k].F(inp0)| - |ts[k].out|, cells[k].ccount
      {
        assert inp0 + [] == inp0;
        ok, done, p := FlushRound(k, room);
        if !ok || p != [] {
          return;
        }
      }
    }

    /** The last codec flushes straight to the destination. */
    method FlushLast(room: nat) returns (ok: bool, complete: bool, p: string)
      requires 0 < |cells| && Flushing(cells, ms, ts, |cells| - 1) && room > 0
      modifies this`cells, this`ts
      ensures |cells| == old(|cells|) && SameBefore(old(cells), old(ts), cells, ts, |cells| - 1)
      ensures ts[|ts| - 1].inp == old(ts[|ts| - 1].inp)
      ensures ok ==> Flushing(cells, ms, ts, |cells| - 1) && Given() == old(Given()) + p && |p| <= room
      ensures ok ==> complete == (p == [])
      ensures ok && complete ==> Done(cells[|cells| - 1], ms[|cells| - 1], ts[|cells| - 1])
      ensures Reliable() ==> ok
    {
      var k := |cells| - 1;
      ghost var t := ts[k];
      var r := cells[k].ops.flush(cells[k].st, room);
      assert FlushOk(ms[k], r, t.inp, t.out, room);
      if r.FlushFailed? {
        return false, false, [];
      }
      ok, complete, p := true, r.complete, r.produced;
      ghost var t' := Track(t.inp, t.out + p, true);
      assert t'.out <= ms[k].F(t.inp);
      FlushingUpdate(cells, ms, ts, k, cells[k].(st := r.next), t');
      cells := cells[k := cells[k].(st := r.next)];
      ts := ts[k := t'];
    }

    /** The stop of that walk at codec `k`. */
    method FlushCodec(k: nat, room: nat) returns (ok: bool, done: bool, p: string)
      requires k < |cells| && DoneBefore(cells, ms, ts, k) && Flushing(cells, ms, ts, k) && room > 0
      modifies this`cells, this`ts
      ensures |cells| == old(|cells|) && |ts| == old(|ts|) && ts[0].inp == old(ts[0].inp)
      ensures ok ==> Flushing(cells, ms, ts, 0)
      ensures ok ==> Given() == old(Given()) + p && |p| <= room && done == (p == [])
      ensures ok && done ==> DoneBefore(cells, ms, ts, k + 1) && Flushing(cells, ms, ts, k + 1)
      ensures ok && done && k + 1 == |cells| ==> Given() == Compose(ms, 0, ts[0].inp)
      ensures Reliable() ==> ok
    {
      ghost var cs0, ts0 := cells, ts;
      if k == |cells| - 1 {
        ok, done, p := FlushLast(room);
      } else {
        ok, p := FlushAt(k, room);
        done := p == [];
      }
      if ok {
        Advance(cs0, ms, ts0, cells, ts, k);
      }
    }

    /** The walk of io_chain_flush_chunk along the codecs. */
    method Scan(room: nat) returns (ok: bool, complete: bool, p: string)
      requires Flushing(cells, ms, ts, 0) && 0 < |cells| && room > 0
      modifies this`cells, this`ts
      ensures |cells| == old(|cells|) && |ts| == old(|ts|) && ts[0].inp == old(ts[0].inp)
      ensures ok ==> Flushing(cells, ms, ts, 0)
      ensures ok ==> Given() == old(Given()) + p && |p| <= room && complete == (p == [])
      ensures ok && complete ==> Given() == Compose(ms, 0, ts[0].inp)
      ensures Reliable() ==> ok
    {
      ok, complete, p := true, true, [];
      var k := 0;
      while k < |cells|
        invariant |cells| == old(|cells|) && |ts| == old(|ts|) && ts[0].inp == old(ts[0].inp)
        invariant 0 <= k <= |cells| && DoneBefore(cells, ms, ts, k) && Flushing(cells, ms, ts, k)
        invariant ok && complete && p == [] && Given() == old(Given())
        invariant k == |cells| ==> Flushing(cells, ms, ts, 0) && Given() == Compose(ms, 0, ts[0].inp)
      {
        ok, complete, p := FlushCodec(k, room);
        if !ok || p != [] {
          return;
        }
        k := k + 1;
      }
    }

    /** io_chain_flush_chunk: collect at most `room` bytes still inside the
        chain; COMPLETE exactly when there are none left. */
    method FlushChunk(room: nat) returns (ok: bool, complete: bool, p: string)
      requires Flushing(cells, ms, ts, 0) && 0 < |cells| && room > 0
      modifies this`cells, this`ts
      ensures |cells| == old(|cells|) && |ts| == old(|ts|)
      ensures ts[0].inp == old(ts[0].inp)
      ensures ok ==> Flushing(cells, ms, ts, 0)
      ensures ok ==> Given() == old(Given()) + p && |p| <= room && complete == (p == [])
      ensures ok && complete ==> Given() == Compose(ms, 0, ts[0].inp)
      ensures ok ==> |Given()| <= |Compose(ms, 0, ts[0].inp)|
      ensures Reliable() ==> ok
    {
      ok, complete, p := Scan(room);
      if ok {
        OnlineFlush(cells, ms, ts, 0);
      }
    }
  }
}

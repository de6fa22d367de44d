/**
  The codec that puts the HTTP header in front of a page body
  (src/libpage/rsfilter.c). The first bytes of the body are buffered so that the
  header can still be changed while the page runs.
 */
module ResponseFilter {
  import opened Codec
  import opened ResponseHeader
  import opened MemDevice

  const RFBUFSZ: nat := 4096

  /** Buffering, or flushing with what is left in the in-memory io, or with
      that io already gone. */
  datatype State = Buffering(buf: string) | Draining(rest: string) | Passing

  const INITIAL := Buffering("")

  function TransformDraining(st: State, src: string, room: nat): Transformed<State>
    requires !st.Buffering?
  {
    if st.Draining? && Min(room, |st.rest|) > 0 then
      var n := Min(room, |st.rest|);
      Transformed(Draining(st.rest[n..]), 0, st.rest[..n])
    else
      var n := Min(room, |src|);
      Transformed(Passing, n, src[..n])
  }

  /** rf_transform when the header, were it printed now, would be `h`. */
  function Transforming(h: string, head: bool, st: State, src: string, room: nat): Transformed<State> {
    if head then Transformed(st, |src|, "")
    else if st.Buffering? then
      if |st.buf| + |src| < RFBUFSZ then Transformed(Buffering(st.buf + src), |src|, "")
      else TransformDraining(Draining(h + st.buf), src, room)
    else TransformDraining(st, src, room)
  }

  /** rf_flush likewise. */
  function Flushing(h: string, head: bool, st: State, room: nat): Flushed<State> {
    var rest := match st
      case Buffering(buf) => h + if head then "" else buf
      case Draining(r) => r
      case Passing => "";
    var n := Min(room, |rest|);
    if n > 0 then Flushed(Draining(rest[n..]), false, rest[..n]) else Flushed(Passing, true, "")
  }

  function FilterOps(h: string, head: bool): Ops<State> {
    Ops((s: State, src: string, room: nat) => Transforming(h, head, s, src, room),
        (s: State, room: nat) => Flushing(h, head, s, room))
  }

  /** What a client is to receive for the body `i`. */
  function Answer(h: string, head: bool, i: string): string {
    h + if head then "" else i
  }

  predicate Reach(h: string, head: bool, st: State, closed: bool, i: string, o: string) {
    match st
    case Buffering(buf) => !closed && o == "" && |buf| < RFBUFSZ && buf == if head then "" else i
    case Draining(r) => (head ==> closed) && o + r == Answer(h, head, i)
    case Passing => (head ==> closed) && o == Answer(h, head, i)
  }

  function FilterMeaning(h: string, head: bool): Meaning<State> {
    Meaning((i: string) => Answer(h, head, i),
            (s: State, closed: bool, i: string, o: string) => Reach(h, head, s, closed, i, o), false, true)
  }

  lemma {:induction false} TransformStep(h: string, head: bool, s: State, i: string, o: string, src: string, room: nat)
    requires Reach(h, head, s, false, i, o) && src != [] && room > 0
    ensures TransformOk(FilterMeaning(h, head), Transforming(h, head, s, src, room), i, o, src, room)
  {
    assert src[..|src|] == src && o + "" == o;
    if head || (s.Buffering? && |s.buf| + |src| < RFBUFSZ) {
    } else if s.Buffering? {
      assert "" + (h + s.buf) == h + i;
      DrainStep(h, Draining(h + s.buf), i, o, src, room);
    } else {
      DrainStep(h, s, i, o, src, room);
    }
  }

  lemma {:induction false} DrainStep(h: string, s: State, i: string, o: string, src: string, room: nat)
    requires !s.Buffering? && Reach(h, false, s, false, i, o) && src != [] && room > 0
    ensures TransformOk(FilterMeaning(h, false), TransformDraining(s, src, room), i, o, src, room)
  {
    var n := Min(room, |src|);
    assert i + src[..0] == i;
    if s.Draining? && s.rest != "" {
      var k := Min(room, |s.rest|);
      assert (o + s.rest[..k]) + s.rest[k..] == o + s.rest;
    } else {
      assert o == h + i;
      assert o + src[..n] == h + (i + src[..n]);
    }
  }

  lemma {:induction false} FlushStep(h: string, head: bool, s: State, closed: bool, i: string, o: string, room: nat)
    requires Reach(h, head, s, closed, i, o) && room > 0
    ensures FlushOk(FilterMeaning(h, head), Flushing(h, head, s, room), i, o, room)
  {
    var rest := match s
      case Buffering(buf) => h + if head then "" else buf
      case Draining(r) => r
      case Passing => "";
    assert o + rest == Answer(h, head, i);
    FlushRest(h, head, rest, i, o, room);
  }

  lemma {:induction false} FlushRest(h: string, head: bool, rest: string, i: string, o: string, room: nat)
    requires o + rest == Answer(h, head, i) && room > 0
    ensures var n := Min(room, |rest|);
            FlushOk(FilterMeaning(h, head),
                    if n > 0 then Flushed(Draining(rest[n..]), false, rest[..n])
                    else Flushed(Passing, true, ""), i, o, room)
  {
    var n := Min(room, |rest|);
    if n > 0 {
      assert (o + rest[..n]) + rest[n..] == o + rest;
    } else {
      assert o + "" == o && o + rest == o;
    }
  }

  /** In last place, and with a header that no longer changes, the filter meets
      the codec contract with "header, then body" (header alone for HEAD). */
  lemma {:induction false} FilterMeets(h: string, head: bool)
    ensures Meets(FilterOps(h, head), FilterMeaning(h, head))
    ensures forall i: string :: FilterMeaning(h, head).F(i) == h + if head then "" else i
    ensures !FilterMeaning(h, head).mayFail && FilterMeaning(h, head).reach(INITIAL, false, "", "")
  {
    var k, m := FilterOps(h, head), FilterMeaning(h, head);
    forall s, i, o, x | m.reach(s, false, i, o) ensures o <= m.F(i + x) {
      if !s.Buffering? {
        assert o <= h + i;
        assert h + (i + x) == (h + i) + x;
      }
    }
    forall s, i, o, src, room: nat | m.reach(s, false, i, o) && src != [] && room > 0
      ensures TransformOk(m, k.transform(s, src, room), i, o, src, room)
    {
      TransformStep(h, head, s, i, o, src, room);
    }
    forall s, closed, i, o, room: nat | m.reach(s, closed, i, o) && room > 0
      ensures FlushOk(m, k.flush(s, room), i, o, room)
    {
      FlushStep(h, head, s, closed, i, o, room);
    }
  }

  /** What happens while a page runs. */
  datatype Event = Body(chunk: string) | Change(rs: Response)

  function AllBody(es: seq<Event>): string {
    if es == [] then ""
    else
      var last := es[|es| - 1];
      AllBody(es[..|es| - 1]) + if last.Body? then last.chunk else ""
  }

  /** The response after all the changes. */
  function LastChange(rs: Response, es: seq<Event>): Response {
    if es == [] then rs
    else
      var last := es[|es| - 1];
      if last.Change? then last.rs else LastChange(rs, es[..|es| - 1])
  }

  lemma {:induction false} EventNext(rs: Response, es: seq<Event>, i: nat)
    requires i < |es|
    ensures AllBody(es[..i + 1]) == AllBody(es[..i]) + if es[i].Body? then es[i].chunk else ""
    ensures LastChange(rs, es[..i + 1]) == if es[i].Change? then es[i].rs else LastChange(rs, es[..i])
  {
    assert es[..i + 1][..i] == es[..i];
  }

  /** Chunk `k` is the one that brings the body to the size of the buffer. */
  predicate Fills(es: seq<Event>, k: nat) {
    k < |es| && |AllBody(es[..k])| < RFBUFSZ <= |AllBody(es[..k + 1])|
  }

  predicate FitsInt(n: int) {
    -0x8000_0000 <= n < 0x8000_0000
  }

  /** struct response_filter_s together with the response it prints. */
  class Filter {
    var rs: Response
    const lastChance: seq<Field> -> seq<Field>  // adds a session cookie if one is due
    var buffering: bool
    const buf: array<char>
    var off: nat
    var iob: string     // what is left of the in-memory io
    var iobOpen: bool

    ghost var taken: string
    ghost var given: string
    ghost var header: string  // the header as printed on leaving the buffering state

    ghost function Value(): State
      requires off <= buf.Length
      reads this, buf
    {
      if buffering then Buffering(buf[..off]) else if iobOpen then Draining(iob) else Passing
    }

    /** The whole history is explained by one printed header. */
    ghost predicate Valid()
      reads this, buf
    {
      && buf.Length == RFBUFSZ && off <= RFBUFSZ
      && (buffering ==>
            FitsInt(rs.status) && given == "" && off < RFBUFSZ && buf[..off] == (if rs.head then "" else taken))
      && (!buffering ==> given + Left() == Answer(header, rs.head, taken))
    }

    ghost function Left(): string
      reads this
    {
      if iobOpen then iob else ""
    }

    constructor (rs: Response, lastChance: seq<Field> -> seq<Field>)
      requires FitsInt(rs.status)
      ensures Valid() && this.rs == rs && taken == given == "" && buffering
    {
      this.rs, this.lastChance := rs, lastChance;
      buf := new char[RFBUFSZ];
      buffering, off, iob, iobOpen := true, 0, "", false;
      taken, given, header := "", "", "";
    }

    /** The page changes status or fields. Only a header that has not been
        printed yet is affected. */
    method Modify(r: Response)
      requires Valid() && FitsInt(r.status) && r.head == rs.head
      modifies this`rs
      ensures Valid() && rs == r
    {
      rs := r;
    }

    /** rf_init_iob: header and buffered body in an in-memory io. The size
        estimate is large enough for nothing to be cut off. */
    method InitIob()
      requires Valid() && buffering && FitsInt(rs.status)
      modifies this`iob, this`iobOpen, this`buffering, this`header
      ensures Valid() && !buffering && iobOpen && header == HeaderText(rs)
      ensures iob == header + if rs.head then "" else buf[..off]
    {
      var hsz := MaxHeaderSize(rs);
      var dev := new Mem(hsz + off);
      var text := PrintHeader(rs);
      if !rs.head {
        text := text + buf[..off];
      }
      var lost := dev.Drain(text);
      iob := dev.buf[..dev.off];
      assert lost == 0 && dev.buf[..dev.off] == text;
      iobOpen, buffering, header := true, false, HeaderText(rs);
    }

    /** Take up to `room` bytes from the in-memory io, closing it when empty. */
    method ReadIob(room: nat) returns (p: string)
      requires Valid() && !buffering && iobOpen && room > 0
      modifies this`iob, this`iobOpen, this`given
      ensures Valid() && p == old(iob)[..Min(room, |old(iob)|)] && given == old(given) + p
      ensures iobOpen == (p != "") && (iobOpen ==> iob == old(iob)[|p|..])
    {
      var n := Min(room, |iob|);
      p := iob[..n];
      assert given + iob == (given + p) + iob[n..];
      iob := iob[n..];
      given := given + p;
      iobOpen := n > 0;
    }

    /** Body bytes kept for later. */
    method Keep(src: string)
      requires Valid() && buffering && !rs.head && off + |src| < RFBUFSZ
      modifies this`off, this`taken, buf
      ensures Valid() && buf[..off] == old(buf[..off]) + src && taken == old(taken) + src
    {
      forall i | 0 <= i < |src| {
        buf[off + i] := src[i];
      }
      assert buf[..off + |src|] == old(buf[..off]) + src;
      off := off + |src|;
      taken := taken + src;
    }

    /** The end of rf_transform, once the header has been printed. */
    method PassOn(src: string, room: nat) returns (c: nat, p: string)
      requires Valid() && !buffering && !rs.head && src != "" && room > 0
      modifies this`iob, this`iobOpen, this`given, this`taken
      ensures Valid() && c <= |src| && |p| <= room && c + |p| > 0
      ensures taken == old(taken) + src[..c] && given == old(given) + p
      ensures TransformDraining(old(Value()), src, room) == Transformed(Value(), c, p)
    {
      if iobOpen {
        p := ReadIob(room);
        if iobOpen {
          assert src[..0] == "";
          return 0, p;
        }
      }
      c := Min(room, |src|);
      p := src[..c];
      assert header + (taken + p) == (header + taken) + p;
      taken, given := taken + p, given + p;
    }

    /** rf_transform. */
    method Transform(src: string, room: nat) returns (c: nat, p: string)
      requires Valid() && src != "" && room > 0
      modifies this, buf
      ensures Valid() && rs.head == old(rs.head)
      ensures c <= |src| && |p| <= room && c + |p| > 0
      ensures taken == old(taken) + src[..c] && given == old(given) + p
      ensures if old(buffering) && !buffering then header == HeaderText(rs) && rs == old(rs).(fields := rs.fields)
                                                && rs.fields == lastChance(old(rs).fields)
              else header == old(header) && rs == old(rs) && buffering == old(buffering)
      ensures Transforming(HeaderText(old(rs).(fields := lastChance(old(rs).fields))), rs.head, old(Value()), src, room)
           == Transformed(Value(), c, p)
    {
      if rs.head {
        taken := taken + src;
        return |src|, "";
      }
      if buffering {
        if off + |src| < RFBUFSZ {
          Keep(src);
          return |src|, "";
        }
        rs := rs.(fields := lastChance(rs.fields));
        InitIob();
      }
      c, p := PassOn(src, room);
    }

    /** rf_flush. */
    method Flush(room: nat) returns (complete: bool, p: string)
      requires Valid() && room > 0
      modifies this
      ensures Valid() && !buffering && taken == old(taken) && given == old(given) + p && rs == old(rs)
      ensures header == if old(buffering) then HeaderText(rs) else old(header)
      ensures complete == (p == "") && |p| <= room
      ensures complete ==> given == Answer(header, rs.head, taken)
      ensures Flushing(HeaderText(rs), rs.head, old(Value()), room) == Flushed(Value(), complete, p)
    {
      if buffering {
        InitIob();
      }
      complete, p := true, "";
      if iobOpen {
        p := ReadIob(room);
        complete := p == "";
      }
    }

    /** The header a page would get if its body filled the buffer now. */
    ghost function FullHeader(r: Response): string {
      HeaderText(r.(fields := lastChance(r.fields)))
    }

    /** One transform call with some room. */
    method Offer(src: string) returns (c: nat)
      requires Valid() && src != ""
      modifies this, buf
      ensures Valid() && rs.head == old(rs.head) && c <= |src| && taken == old(taken) + src[..c]
      ensures if buffering then old(buffering) && rs == old(rs) && c > 0
              else header == if old(buffering) then FullHeader(old(rs)) else old(header)
      ensures old(buffering) && (rs.head || |old(taken)| + |src| < RFBUFSZ) ==> buffering && c == |src|
      ensures !old(buffering) && c == 0 ==> |Left()| < |old(Left())|
    {
      var room: nat :| room > 0;
      var p;
      c, p := Transform(src, room);
    }

    /** A chunk of the body, offered again until it has been taken. */
    method WriteBody(chunk: string)
      requires Valid()
      modifies this, buf
      ensures Valid() && rs.head == old(rs.head) && taken == old(taken) + chunk
      ensures if buffering then old(buffering) && rs == old(rs)
              else header == if old(buffering) then FullHeader(old(rs)) else old(header)
      ensures old(buffering) && (rs.head || |taken| < RFBUFSZ) ==> buffering
    {
      var i := 0;
      while i < |chunk|
        invariant i <= |chunk| && Valid() && rs.head == old(rs.head) && taken == old(taken) + chunk[..i]
        invariant if buffering then old(buffering) && rs == old(rs)
                  else header == if old(buffering) then FullHeader(old(rs)) else old(header)
        invariant old(buffering) && (rs.head || |old(taken)| + |chunk| < RFBUFSZ) ==> buffering
        decreases |chunk| - i, buffering, |Left()|
      {
        var c := Offer(chunk[i..]);
        Further(old(taken), chunk, i, c);
        i := i + c;
      }
      assert chunk[..i] == chunk;
    }

    /** Any page: body chunks and header changes in any order, then the final
        flush. The client gets one header and the whole body. The header shows
        every change if the body is short enough to be buffered, else the
        changes before the chunk that filled the buffer. */
    method ServePage(events: seq<Event>)
      requires Valid() && taken == given == "" && buffering
      requires forall e :: e in events && e.Change? ==> FitsInt(e.rs.status) && e.rs.head == rs.head
      modifies this, buf
      ensures given == header + if rs.head then "" else AllBody(events)
      ensures rs.head || |AllBody(events)| < RFBUFSZ ==> header == HeaderText(rs) && rs == LastChange(old(rs), events)
      ensures !rs.head && |AllBody(events)| >= RFBUFSZ ==>
                exists k: nat :: Fills(events, k) && header == FullHeader(LastChange(old(rs), events[..k]))
    {
      RunPage(events);
      FlushAll();
    }

    /** The page while it runs. */
    method RunPage(events: seq<Event>)
      requires Valid() && taken == given == "" && buffering
      requires forall e :: e in events && e.Change? ==> FitsInt(e.rs.status) && e.rs.head == rs.head
      modifies this, buf
      ensures Valid() && rs.head == old(rs.head) && taken == AllBody(events)
      ensures rs.head || |taken| < RFBUFSZ ==> buffering
      ensures buffering ==> rs == LastChange(old(rs), events) && (rs.head || |taken| < RFBUFSZ)
      ensures !buffering ==> exists k: nat :: Fills(events, k) && header == FullHeader(LastChange(old(rs), events[..k]))
    {
      ghost var k: nat := 0;
      for i := 0 to |events|
        invariant Valid() && rs.head == old(rs.head) && taken == AllBody(events[..i])
        invariant rs.head || |taken| < RFBUFSZ ==> buffering
        invariant buffering ==> rs == LastChange(old(rs), events[..i])
        invariant buffering || (Fills(events, k) && header == FullHeader(LastChange(old(rs), events[..k])))
      {
        EventNext(old(rs), events, i);
        match events[i]
        case Body(chunk) =>
          k := if buffering then i else k;
          WriteBody(chunk);
        case Change(r) => Modify(r);
      }
      assert events[..|events|] == events;
    }

    /** Flushing until it is complete. */
    method FlushAll()
      requires Valid()
      modifies this
      ensures Valid() && rs == old(rs) && given == header + if rs.head then "" else old(taken)
      ensures header == if old(buffering) then HeaderText(rs) else old(header)
    {
      var complete := false;
      while !complete
        invariant Valid() && rs == old(rs) && taken == old(taken)
        invariant complete ==> !buffering && given == Answer(header, rs.head, taken)
        invariant if buffering then old(buffering)
                  else header == if old(buffering) then HeaderText(rs) else old(header)
        decreases !complete, buffering, |Left()|
      {
        var room: nat :| room > 0;
        var p;
        complete, p := Flush(room);
      }
    }
  }
}

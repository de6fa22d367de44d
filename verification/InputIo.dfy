/**
  The read half of an io object: `io_underflow`, `io_read` and `io_get_until`
  of src/libio/io.c, over a device that hands out its contents in pieces of any
  size and then stays at end of file.
 */
module InputIo {
  import opened Codec
  import opened CodecChain

  const IO_RD_BUFSZ: nat := 4096

  /** Length of `s` up to and including its first `stop`, or all of it. */
  function UpTo(s: string, stop: char): (n: nat)
    ensures n <= |s|
  {
    if s == "" then 0 else if s[0] == stop then 1 else 1 + UpTo(s[1..], stop)
  }

  /** What one io_get_until call returns when `s` is still to be read. */
  function LineOf(s: string, stop: char, max: nat): string {
    s[..Min(max, UpTo(s, stop))]
  }

  /** A stop-free beginning only shifts the search. */
  lemma {:induction false} UpToSkip(a: string, b: string, stop: char)
    requires stop !in a
    ensures UpTo(a + b, stop) == |a| + UpTo(b, stop)
  {
    if a == "" {
      assert a + b == b;
    } else {
      assert (a + b)[1..] == a[1..] + b;
      UpToSkip(a[1..], b, stop);
    }
  }

  /** A line ends with its first stop byte, or at the limit, or at the end. */
  lemma {:induction false} LineEnds(s: string, stop: char, max: nat)
    ensures var n := |LineOf(s, stop, max)|;
            && n <= max && n <= |s| && LineOf(s, stop, max) == s[..n] && (forall i :: 0 <= i < n - 1 ==> s[i] != stop)
            && (n == max || n == |s| || (n > 0 && s[n - 1] == stop))
  {
    if s != "" && max > 0 {
      LineEnds(s[1..], stop, max - 1);
    }
  }

  lemma {:induction false} LineFound(ready: string, tail: string, stop: char, i: nat, left: nat)
    requires i < |ready| && ready[i] == stop && stop !in ready[..i]
    ensures LineOf(ready + tail, stop, left) == ready[..Min(i + 1, left)]
  {
    assert ready + tail == ready[..i] + (ready[i..] + tail);
    UpToSkip(ready[..i], ready[i..] + tail, stop);
  }

  lemma {:induction false} LineCut(ready: string, tail: string, stop: char, left: nat)
    requires stop !in ready && left <= |ready|
    ensures LineOf(ready + tail, stop, left) == ready[..left]
  {
    UpToSkip(ready, tail, stop);
  }

  lemma {:induction false} LineStep(line: string, part: string, rest: string, stop: char, max: nat)
    requires stop !in line && |line| <= max && part == LineOf(rest, stop, max - |line|)
    ensures line + part == LineOf(line + rest, stop, max)
  {
    UpToSkip(line, rest, stop);
  }

  /** io_strnchr: index of the first `c`, or -1. */
  method Find(s: string, c: char) returns (i: int)
    ensures i < 0 ==> c !in s
    ensures i >= 0 ==> i < |s| && s[i] == c && c !in s[..i]
  {
    i := 0;
    while i < |s|
      invariant 0 <= i <= |s| && c !in s[..i]
    {
      if s[i] == c {
        return;
      }
      i := i + 1;
    }
    i := -1;
  }

  /** What a line is when the ready bytes have their first stop at `i`, or none. */
  lemma {:induction false} LineHere(ready: string, tail: string, stop: char, i: int, left: nat)
    requires if i < 0 then stop !in ready else i < |ready| && ready[i] == stop && stop !in ready[..i]
    ensures i >= 0 || left < |ready| ==>
              LineOf(ready + tail, stop, left) == ready[..Min(if i >= 0 then i + 1 else |ready|, left)]
  {
    if i >= 0 {
      LineFound(ready, tail, stop, i, left);
    } else if left < |ready| {
      LineCut(ready, tail, stop, left);
    }
  }

  lemma {:induction false} Shift(a: string, raw: string, c: nat, tail: string)
    requires c <= |raw|
    ensures (a + raw[..c]) + (raw[c..] + tail) == a + (raw + tail)
  {
    assert raw == raw[..c] + raw[c..];
  }

  /** A buffer of which `buf[off..off + count]` is the part still to be used. */
  datatype Window = Window(buf: string, off: nat, count: nat)

  /** That part is `held`. */
  ghost predicate Holds(w: Window, held: string) {
    && (w.buf == [] || |w.buf| == IO_RD_BUFSZ)
    && w.off + w.count <= |w.buf| && w.count == |held|
    && forall k :: 0 <= k < |held| ==> w.buf[w.off + k] == held[k]
  }

  /** The first `n` bytes. */
  method Peek(w: Window, n: nat, ghost held: string) returns (data: string)
    requires Holds(w, held) && n <= w.count
    ensures data == held[..n]
  {
    data := w.buf[w.off..w.off + n];
  }

  /** The first `n` bytes used up; the offset goes back to the start of an empty
      buffer or not. */
  method UseUp(w: Window, n: nat, rewind: bool, ghost held: string) returns (w': Window)
    requires Holds(w, held) && n <= w.count
    ensures Holds(w', held[n..]) && |w'.buf| == |w.buf|
  {
    w' := Window(w.buf, if rewind && n == w.count then 0 else w.off + n, w.count - n);
  }

  /** Other contents. */
  method Refilled(w: Window, p: string, ghost held: string) returns (w': Window)
    requires Holds(w, held) && |p| <= |w.buf|
    ensures Holds(w', p) && |w'.buf| == |w.buf|
  {
    w' := Window(p + w.buf[|p|..], 0, |p|);
  }

  // ---- prefixes ----

  lemma {:induction false} Cancel(a: string, b: string, c: string)
    ensures a + b <= a + c <==> b <= c
    ensures a + b == a + c <==> b == c
  {
    assert (a + b)[|a|..] == b && (a + c)[|a|..] == c;
    if b <= c {
      assert c == b + c[|b|..];
      assert a + c == (a + b) + c[|b|..];
    }
    if a + b <= a + c {
      assert (a + c)[..|a + b|] == a + b;
      assert c[..|b|] == (a + c)[..|a + b|][|a|..];
    }
  }

  lemma {:induction false} Forward(ready: string, rest: string, n: nat)
    requires ready <= rest && n <= |ready|
    ensures ready[..n] == rest[..n] && ready[n..] <= rest[n..] && rest == ready[..n] + rest[n..]
    ensures ready == ready[..n] + ready[n..]
  {
    assert ready == rest[..|ready|];
    assert rest[..|ready|][n..] == rest[n..][..|ready| - n];
  }

  lemma {:induction false} Handed(delivered: string, ready: string, rest: string, n: nat)
    requires ready <= rest && n <= |ready|
    ensures ready[n..] <= rest[n..] && rest == ready[..n] + rest[n..]
    ensures delivered + rest == (delivered + ready[..n]) + rest[n..]
    ensures delivered + ready == (delivered + ready[..n]) + ready[n..]
  {
    Forward(ready, rest, n);
    Assoc(delivered, ready[..n], rest[n..]);
    Assoc(delivered, ready[..n], ready[n..]);
  }

  /** A plain copy of the first `c` raw bytes. */
  lemma {:induction false} Copied(delivered: string, raw: string, source: string, c: nat, rest: string)
    requires c <= |raw| && delivered + (raw + source) == delivered + rest
    ensures raw[..c] <= rest && (delivered + raw[..c]) + (raw[c..] + source) == delivered + (raw + source)
  {
    Shift(delivered, raw, c, source);
    Cancel(delivered, raw + source, rest);
    assert raw + source == raw[..c] + (raw[c..] + source);
  }

  /** What an open chain gives is the next part of the transformed stream. */
  lemma {:induction false} Through<S(!new)>(
      cs: seq<Cell<S>>, ms: seq<Meaning<S>>, ts: seq<Track>, x: string, delivered: string, p: string, rest: string)
    requires cs != [] && Suffix(cs, ms, ts, 0) && OpenFrom(ts, 0) && ts[|ts| - 1].out == delivered + p
    requires Compose(ms, 0, ts[0].inp + x) == delivered + rest
    ensures p <= rest
  {
    OnlineChain(cs, ms, ts, 0, x);
    Cancel(delivered, p, rest);
  }

  /** All that was asked for, or all there was. */
  lemma {:induction false} Enough(data: string, rest: string, size: nat)
    requires |data| <= size && (|data| == size || rest == "")
    ensures data == (data + rest)[..Min(size, |data + rest|)]
  {
  }

  class Io<S(!new)> {
    const chain: Chain<S>
    const steady: bool       // the device never fails
    var source: string       // what the device still holds
    var r: Window            // rbuf, roff and rcount: bytes for the callers
    var u: Window            // ubuf, uoff and ucount: bytes from the device
    var rtot: nat
    var eof: bool

    ghost const whole: string    // what the device held at the start
    ghost const total: string    // what the codecs make of it
    ghost var ready: string      // what the first buffer holds
    ghost var raw: string        // and the second
    ghost var delivered: string  // what the callers have received
    ghost var rest: string       // what they are still to receive

    ghost predicate Buffered()
      reads this
    {
      Holds(r, ready) && Holds(u, raw) && |r.buf| == |u.buf|
    }

    /** What has been handed out or is ready to be. */
    ghost function Got(): string
      requires Buffered()
      reads this
    {
      delivered + ready
    }

    /** The part of the invariant that concerns callers. */
    ghost predicate Local()
      reads this
    {
      && Buffered()
      && rtot == |delivered| && total == delivered + rest && ready <= rest
      && (eof ==> r.count == 0 && rest == "")
    }

    /** No codec leaves the byte count open when its flush is complete. */
    ghost predicate Countable()
      reads chain
    {
      forall j :: 0 <= j < |chain.ms| ==> !chain.ms[j].lastOnly
    }

    /** The part of the invariant that ties the buffers to the codecs. */
    ghost predicate Linked()
      requires Buffered()
      reads this, chain
    {
      && |chain.cells| == |chain.ms| == |chain.ts|
      && total == Compose(chain.ms, 0, whole) && Countable()
      && (chain.Open() || (u.count == 0 && source == "" && Flushing(chain.cells, chain.ms, chain.ts, 0)))
      && (if chain.cells == [] then Got() + (raw + source) == whole
          else Got() == chain.Given() && chain.ts[0].inp + (raw + source) == whole)
    }

    ghost predicate Valid()
      reads this, chain
    {
      Local() && Linked()
    }

    ghost predicate Reliable()
      reads this, chain
    {
      steady && chain.Reliable()
    }

    constructor (chain: Chain<S>, source: string, steady: bool)
      requires chain.Fresh() && forall j :: 0 <= j < |chain.ms| ==> !chain.ms[j].lastOnly
      ensures this.chain == chain && this.steady == steady && whole == source
      ensures Valid() && delivered == "" && rest == total == Compose(chain.ms, 0, source)
    {
      this.chain, this.source, this.steady := chain, source, steady;
      r, u, rtot, eof := Window([], 0, 0), Window([], 0, 0), 0, false;
      whole, total := source, Compose(chain.ms, 0, source);
      delivered, rest, ready, raw := "", Compose(chain.ms, 0, source), "", "";
      new;
      assert raw + source == source && delivered + rest == rest && Got() == "";
      if chain.cells != [] {
        assert chain.ts[0] in chain.ts && chain.ts[|chain.ts| - 1] in chain.ts;
      }
    }

    /** One read call on the device: nothing only at end of file. */
    method DeviceRead(max: nat) returns (ok: bool, data: string)
      requires max > 0
      modifies this`source
      ensures ok ==> |data| <= max && data + source == old(source)
      ensures ok ==> (data == "" <==> old(source) == "")
      ensures steady ==> ok
    {
      var error: bool := *;
      if !steady && error {
        return false, "";
      }
      ok, data := true, "";
      if source != "" {
        var n :| 1 <= n <= max && n <= |source|;
        data := source[..n];
        source := source[n..];
      }
    }

    /** The chain has given `p` in answer to a flush. */
    method SettleFlush(complete: bool, p: string)
      requires Local() && r.count == 0 && u.count == 0 && source == "" && |p| <= |r.buf|
      requires chain.cells != [] && Flushing(chain.cells, chain.ms, chain.ts, 0)
      requires Countable() && total == Compose(chain.ms, 0, whole) && chain.ts[0].inp == whole
               && delivered + p == chain.Given()
      requires complete ==> p == "" && chain.Given() == total
      modifies this`r, this`ready, this`eof
      ensures Valid() && |r.buf| == old(|r.buf|) && r.count == |p|
    {
      OnlineFlush(chain.cells, chain.ms, chain.ts, 0);
      Cancel(delivered, p, rest);
      r := Refilled(r, p, ready);
      ready := p;
      if complete {
        eof := true;
      }
      assert whole + (raw + source) == whole;
    }

    /** The device is at end of file: take what the codecs still hold. */
    method DrainChain() returns (ok: bool)
      requires Valid() && r.buf != [] && r.count == 0 && u.count == 0 && source == "" && chain.cells != []
      modifies this`r, this`ready, this`eof, chain`cells, chain`ts
      ensures ok ==> Valid() && r.buf != [] && (r.count == 0 ==> rest == "")
      ensures Reliable() ==> ok
    {
      if chain.Open() {
        OpenIsFlushing(chain.cells, chain.ms, chain.ts, 0);
      }
      assert Got() == delivered && chain.ts[0].inp + (raw + source) == chain.ts[0].inp;
      var complete, p;
      ok, complete, p := chain.FlushChunk(|r.buf|);
      if ok {
        Cancel(delivered, "", rest);
        SettleFlush(complete, p);
      }
    }

    /** `c` raw bytes have been taken and `p` given for them. */
    method Settle(c: nat, p: string)
      requires Local() && r.count == 0 && c <= u.count && |p| <= |r.buf| && p <= rest
      requires chain.Open() && total == Compose(chain.ms, 0, whole) && Countable()
      requires if chain.cells == [] then (delivered + p) + (raw[c..] + source) == whole
               else delivered + p == chain.Given() && chain.ts[0].inp + (raw[c..] + source) == whole
      modifies this`r, this`ready, this`u, this`raw
      ensures Valid() && |r.buf| == old(|r.buf|) && r.count == |p| && u.count == old(u.count) - c
    {
      u := UseUp(u, c, true, raw);
      raw := raw[c..];
      r := Refilled(r, p, ready);
      ready := p;
    }

    /** Transform some of the raw bytes into the read buffer. */
    method Convert() returns (ok: bool)
      requires Valid() && r.buf != [] && r.count == 0 && u.count > 0
      modifies this`r, this`ready, this`u, this`raw, chain`cells, chain`ts
      ensures ok ==> Valid() && r.buf != [] && u.count <= old(u.count) && (r.count > 0 || u.count < old(u.count))
      ensures Reliable() ==> ok
    {
      var src := Peek(u, u.count, raw);
      assert src == raw && Got() == delivered;
      var c, p;
      ok, c, p := chain.Transfer(src, |r.buf|);
      if !ok {
        return;
      }
      if chain.cells == [] {
        Copied(delivered, raw, source, c, rest);
      } else {
        Shift(old(chain.ts[0].inp), raw, c, source);
        Through(chain.cells, chain.ms, chain.ts, raw[c..] + source, delivered, p, rest);
      }
      Settle(c, p);
    }

    /** Raw bytes from the device. */
    method Fetch() returns (ok: bool)
      requires Valid() && r.buf != [] && r.count == 0 && u.count == 0
      modifies this`source, this`u, this`raw
      ensures ok ==> Valid() && r.buf != []
      ensures ok ==> if u.count == 0 then source == old(source) == "" else |source| < old(|source|)
      ensures steady ==> ok
    {
      var data;
      ok, data := DeviceRead(|r.buf|);
      if !ok {
        return;
      }
      assert data + source == raw + old(source);
      u := Refilled(u, data, raw);
      raw := data;
    }

    /** The buffers are allocated on first use. */
    method Allocate()
      requires Valid() && r.count == 0
      modifies this`r, this`ready, this`u, this`raw
      ensures Valid() && r.buf != []
    {
      if r.buf == [] {
        var fresh' := seq(IO_RD_BUFSZ, _ => '\0');
        r, u := Window(fresh', 0, 0), Window(fresh', 0, 0);
      }
    }

    /** One round of io_underflow. */
    method Refill() returns (ok: bool, last: bool)
      requires Valid() && r.buf != [] && r.count == 0
      modifies this, chain`cells, chain`ts
      ensures rest == old(rest) && delivered == old(delivered)
      ensures ok ==> Valid() && r.buf != []
      ensures ok && last && r.count == 0 ==> rest == ""
      ensures ok && !last && r.count == 0 ==>
                |source| < old(|source|) || (|source| == old(|source|) && u.count < old(u.count))
      ensures Reliable() ==> ok
    {
      last := false;
      if u.count == 0 {
        ok := Fetch();
        if !ok {
          return;
        }
        if u.count == 0 {
          last := true;
          if chain.cells != [] {
            ok := DrainChain();
          } else {
            AtEnd();
          }
          return;
        }
      }
      ok := Convert();
    }

    /** Without codecs, nothing is left when device and buffers are empty. */
    ghost method AtEnd()
      requires Valid() && r.count == 0 && u.count == 0 && source == "" && chain.cells == []
      ensures rest == ""
    {
      assert Got() + (raw + source) == delivered;
      Cancel(delivered, rest, "");
      assert delivered + "" == delivered;
    }

    /** io_underflow: bytes in the read buffer, or nothing left at all. */
    method Underflow() returns (ok: bool)
      requires Valid() && r.count == 0
      modifies this, chain`cells, chain`ts
      ensures rest == old(rest) && delivered == old(delivered)
      ensures ok ==> Valid() && (r.count == 0 ==> rest == "")
      ensures Reliable() ==> ok
    {
      Allocate();
      var last := false;
      while r.count == 0 && !last
        invariant Valid() && r.buf != [] && rest == old(rest) && delivered == old(delivered)
        invariant last && r.count == 0 ==> rest == ""
        decreases r.count == 0 && !last, |source|, u.count
      {
        ok, last := Refill();
        if !ok {
          return;
        }
      }
      ok := true;
    }

    /** Hand the first `n` ready bytes to the caller. */
    method HandOut(n: nat) returns (data: string)
      requires Local() && n <= r.count
      modifies this`r, this`ready, this`rtot, this`delivered, this`rest
      ensures Local() && Got() == old(Got()) && data == old(ready)[..n] && ready == old(ready)[n..]
      ensures old(rest) == data + rest && rtot == old(rtot) + n
    {
      Handed(delivered, ready, rest, n);
      data := Peek(r, n, ready);
      r := UseUp(r, n, false, ready);
      delivered, ready, rest := delivered + data, ready[n..], rest[n..];
      rtot := rtot + n;
    }

    method Deliver(n: nat) returns (data: string)
      requires Valid() && n <= r.count
      modifies this`r, this`ready, this`rtot, this`delivered, this`rest
      ensures Valid() && data == old(ready)[..n] && r.count == old(r.count) - n
      ensures old(rest) == data + rest && rtot == old(rtot) + n
    {
      data := HandOut(n);
    }

    /** One round of io_read. */
    method ReadSome(max: nat) returns (ok: bool, part: string)
      requires Valid() && max > 0
      modifies this, chain`cells, chain`ts
      ensures ok ==> Valid() && |part| <= max && (part == "" ==> rest == "")
      ensures ok ==> old(rest) == part + rest && rtot == old(rtot) + |part|
      ensures Reliable() ==> ok
    {
      ok, part := true, "";
      if r.count == 0 {
        ok := Underflow();
        if !ok || r.count == 0 {
          return;
        }
      }
      part := Deliver(Min(r.count, max));
    }

    /** io_read: exactly the next `size` bytes of the transformed stream, fewer
        only when fewer are left. */
    method Read(size: nat) returns (ok: bool, data: string)
      requires Valid()
      modifies this, chain`cells, chain`ts
      ensures ok ==> Valid() && data == old(rest)[..Min(size, |old(rest)|)]
      ensures ok ==> old(rest) == data + rest && rtot == old(rtot) + |data|
      ensures Reliable() ==> ok
    {
      ok, data := true, "";
      Enough("", rest, if eof then size else 0);
      if eof {
        return;
      }
      var more := true;
      ghost var all := rest;
      assert "" + rest == rest;
      while |data| < size && more
        invariant Valid() && |data| <= size && (more || rest == "")
        invariant all == data + rest && rtot == old(rtot) + |data|
        decreases more, size - |data|
      {
        ghost var before := rest;
        var part;
        ok, part := ReadSome(size - |data|);
        if !ok {
          return;
        }
        Assoc(data, part, rest);
        data := data + part;
        more := part != "";
      }
      ok := true;
      Enough(data, rest, size);
    }

    /** One round of io_get_until with `left` bytes of room: `more` when the
        read buffer was used up without meeting the stop byte. */
    method TakeLine(stop: char, left: nat) returns (part: string, more: bool)
      requires Valid() && r.count > 0
      modifies this`r, this`ready, this`rtot, this`delivered, this`rest
      ensures Valid() && old(rest) == part + rest && rtot == old(rtot) + |part|
      ensures more ==> r.count == 0 && 0 < |part| <= left && stop !in part
      ensures !more ==> part == LineOf(old(rest), stop, left)
    {
      Forward(ready, rest, |ready|);
      assert ready[..|ready|] == ready;
      var here := Peek(r, r.count, ready);
      var i := Find(here, stop);
      LineHere(ready, rest[|ready|..], stop, i, left);
      more := i < 0 && r.count <= left;
      part := Deliver(Min(if i >= 0 then i + 1 else r.count, left));
    }

    /** TakeLine, and a refill when more is wanted. */
    method ExtendLine(line: string, stop: char, max: nat) returns (ok: bool, line': string, more: bool)
      requires Valid() && r.count > 0 && stop !in line && |line| <= max
      modifies this, chain`cells, chain`ts
      ensures ok ==> Valid() && line' + rest == line + old(rest) && rtot == old(rtot) + |line'| - |line|
      ensures ok && more ==> stop !in line' && |line| < |line'| <= max && (r.count == 0 ==> rest == "")
      ensures ok && !more ==> line' == LineOf(line + old(rest), stop, max)
      ensures Reliable() ==> ok
    {
      ghost var before := rest;
      var part;
      part, more := TakeLine(stop, max - |line|);
      ok, line' := true, line + part;
      Assoc(line, part, rest);
      if more {
        ok := Underflow();
      } else {
        LineStep(line, part, before, stop, max);
      }
    }

    /** io_get_until: the transformed stream up to and including the first stop
        byte, cut at `size - 1` bytes and at end of file. */
    method GetUntil(stop: char, size: nat) returns (ok: bool, line: string)
      requires Valid()
      modifies this, chain`cells, chain`ts
      ensures size < 2 ==> !ok && Valid() && rest == old(rest) && rtot == old(rtot)
      ensures ok ==> Valid() && line == LineOf(old(rest), stop, size - 1)
      ensures ok ==> old(rest) == line + rest && rtot == old(rtot) + |line|
      ensures Reliable() && size >= 2 ==> ok
    {
      line := "";
      if size < 2 {
        return false, line;
      }
      var more := true;
      if r.count == 0 {
        ok := Underflow();
        if !ok {
          return;
        }
      }
      ghost var all := rest;
      assert line + rest == all;
      while more && r.count > 0
        invariant Valid() && rtot == old(rtot) + |line|
        invariant line + rest == all
        invariant more ==> |line| <= size - 1 && stop !in line && (r.count == 0 ==> rest == "")
        invariant !more ==> line == LineOf(all, stop, size - 1)
        decreases more, size - |line|
      {
        ok, line, more := ExtendLine(line, stop, size - 1);
        if !ok {
          return;
        }
      }
      ok := true;
      if more {
        LineStep(line, "", "", stop, size - 1);
      }
    }

    /** One call; a line buffer without room for a byte is refused, and nothing
        changes. `ok` tells whether device and codecs worked. */
    method Perform(call: Call) returns (ok: bool, reply: Reply)
      requires Valid()
      modifies this, chain`cells, chain`ts
      ensures ok ==> Valid() && reply == Answer(old(rest), call)
      ensures ok ==> old(rest) == reply.Data() + rest && rtot == old(rtot) + |reply.Data()|
      ensures Reliable() ==> ok
    {
      var data;
      match call
      case Bytes(size) =>
        ok, data := Read(size);
        reply := Given(data);
      case Line(stop, size) =>
        ok, data := GetUntil(stop, size);
        reply := Given(data);
        if size < 2 {
          ok, reply := true, Refused;
        }
    }

    /** Any interleaving of the two calls: every answer is determined by the
        transformed stream alone. */
    method Run(calls: seq<Call>) returns (ok: bool, out: seq<Reply>)
      requires Valid()
      modifies this, chain`cells, chain`ts
      ensures ok ==> Valid() && out == Answers(old(rest), calls)
      ensures ok ==> old(rest) == Concat(out) + rest && rtot == old(rtot) + |Concat(out)|
      ensures Reliable() ==> ok
    {
      ok, out := true, [];
      ghost var all := rest;
      assert calls[0..] == calls && "" + rest == rest;
      for i := 0 to |calls|
        invariant ok && Valid() && rtot == old(rtot) + |Concat(out)|
        invariant out + Answers(rest, calls[i..]) == Answers(all, calls)
        invariant all == Concat(out) + rest
      {
        ghost var before := rest;
        var reply;
        ok, reply := Perform(calls[i]);
        if !ok {
          return;
        }
        AnswersNext(before, rest, calls, i);
        More(out, reply, rest, Answers(rest, calls[i + 1..]));
        out := out + [reply];
      }
    }
  }

  datatype Call = Bytes(size: nat) | Line(stop: char, size: nat)

  datatype Reply = Refused | Given(data: string) {
    function Data(): string {
      if Refused? then "" else data
    }
  }

  /** What one call returns when `rest` is still to be read. */
  function Answer(rest: string, call: Call): (reply: Reply)
    ensures reply.Data() <= rest
  {
    match call
    case Bytes(size) => Given(rest[..Min(size, |rest|)])
    case Line(stop, size) => if size < 2 then Refused else Given(LineOf(rest, stop, size - 1))
  }

  /** Only a line of less than two bytes is refused. Bytes come as many as asked
      for, or all there are; a line ends as `LineEnds` says. */
  lemma {:induction false} AnswerIs(rest: string, call: Call)
    ensures Answer(rest, call).Refused? <==> call.Line? && call.size < 2
    ensures call.Bytes? ==> var d := Answer(rest, call).data;
                            d == rest[..|d|] && |d| <= call.size && (|d| == call.size || d == rest)
    ensures call.Line? && call.size >= 2 ==>
              var d := Answer(rest, call).data;
              && d == rest[..|d|] && |d| < call.size && (forall i :: 0 <= i < |d| - 1 ==> d[i] != call.stop)
              && (|d| == call.size - 1 || d == rest || (d != "" && d[|d| - 1] == call.stop))
  {
    if call.Line? && call.size >= 2 {
      LineEnds(rest, call.stop, call.size - 1);
    }
  }

  function Answers(rest: string, calls: seq<Call>): seq<Reply>
    decreases |calls|
  {
    if calls == [] then []
    else
      var reply := Answer(rest, calls[0]);
      [reply] + Answers(rest[|reply.Data()|..], calls[1..])
  }

  /** All the bytes of some replies. */
  function Concat(out: seq<Reply>): string {
    if out == [] then "" else Concat(out[..|out| - 1]) + out[|out| - 1].Data()
  }

  lemma {:induction false} AnswersNext(rest: string, rest': string, calls: seq<Call>, i: nat)
    requires i < |calls| && rest == Answer(rest, calls[i]).Data() + rest'
    ensures Answers(rest, calls[i..]) == [Answer(rest, calls[i])] + Answers(rest', calls[i + 1..])
  {
    var data := Answer(rest, calls[i]).Data();
    assert rest[|data|..] == rest';
    assert calls[i..][0] == calls[i] && calls[i..][1..] == calls[i + 1..];
  }

  /** One more reply, with `rest` left behind it. */
  lemma {:induction false} More(out: seq<Reply>, reply: Reply, rest: string, tail: seq<Reply>)
    ensures Concat(out + [reply]) == Concat(out) + reply.Data()
    ensures Concat(out) + (reply.Data() + rest) == Concat(out + [reply]) + rest
    ensures out + ([reply] + tail) == (out + [reply]) + tail
  {
    assert (out + [reply])[..|out|] == out;
    Assoc(Concat(out), reply.Data(), rest);
  }
}

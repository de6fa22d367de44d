/**
  The write half of an io object: `io_write`, `io_flush`, `io_chain_flush`,
  `io_codecs_remove` and `io_free` of src/libio/io.c, over a device that takes
  at least one byte per call or fails.
 */
module OutputIo {
  import opened Codec
  import opened CodecChain

  const IO_WR_BUFSZ: nat := 4096
  const FLUSH_BUFSZ: nat := 4096

  datatype Call = Write(data: string) | Flush

  /** Everything the calls write, in order. */
  function AllWritten(calls: seq<Call>): string {
    if calls == [] then ""
    else
      var last := calls[|calls| - 1];
      AllWritten(calls[..|calls| - 1]) + if last.Write? then last.data else ""
  }

  predicate AnyWrite(calls: seq<Call>) {
    exists c :: c in calls && c.Write?
  }

  lemma {:induction false} Sent(data: string, off: nat, c: nat)
    requires off + c <= |data|
    ensures data[off..][c..] == data[off + c..] && data[off..] == data[off..][..c] + data[off..][c..]
  {
  }

  class Io<S(!new)> {
    const chain: Chain<S>
    const steady: bool      // the device never fails
    var sink: string        // what the device has received
    var wbuf: string        // empty until the first io_write allocates it
    var wcount: nat

    ghost var past: string  // what earlier chains have fully given
    ghost var cur: string   // what was written through the present chain

    ghost var staged: string  // what the write buffer holds

    ghost function Emitted(): string
      reads this
    {
      sink + staged
    }

    ghost predicate Buffered()
      reads this
    {
      && wcount == |staged| <= |wbuf| && (wbuf == [] || |wbuf| == IO_WR_BUFSZ)
      && forall k :: 0 <= k < |staged| ==> wbuf[k] == staged[k]
    }

    ghost predicate Valid()
      reads this, chain
    {
      && Buffered()
      && chain.Open()
      && (if chain.cells == [] then Emitted() == past + cur
          else chain.ts[0].inp == cur && Emitted() == past + chain.Given())
      && (wbuf == [] ==> cur == "" && chain.Fresh())
    }

    ghost predicate Reliable()
      reads this, chain
    {
      steady && chain.Reliable()
    }

    constructor (chain: Chain<S>, steady: bool)
      requires chain.Fresh()
      ensures this.chain == chain && this.steady == steady
      ensures Valid() && sink == past == cur == "" && wbuf == []
    {
      this.chain, this.steady := chain, steady;
      sink, wbuf, wcount, staged, past, cur := "", [], 0, "", "", "";
      new;
      if chain.cells != [] {
        assert chain.ts[0] in chain.ts && chain.ts[|chain.ts| - 1] in chain.ts;
      }
    }

    /** One write call on the device. */
    method DeviceWrite(data: string) returns (c: int)
      requires data != []
      modifies this`sink
      ensures c < 0 ==> sink == old(sink)
      ensures c >= 0 ==> 0 < c <= |data| && sink == old(sink) + data[..c]
      ensures steady ==> c >= 0
    {
      var error: bool := *;
      if !steady && error {
        c := -1;
      } else {
        c :| 1 <= c <= |data|;
        sink := sink + data[..c];
      }
    }

    /** io_flush: push the write buffer to the device. */
    method FlushBuffer() returns (ok: bool)
      requires Buffered()
      modifies this`sink, this`wcount, this`staged
      ensures Buffered()
      ensures ok ==> wcount == 0 && Emitted() == old(Emitted()) && sink == old(Emitted())
      ensures steady ==> ok
    {
      var data := wbuf[..wcount];
      assert data == staged;
      var off := 0;
      while wcount > 0
        invariant off + wcount == |data| && sink + data[off..] == old(Emitted())
      {
        ghost var rest := data[off..];
        var c := DeviceWrite(data[off..]);
        if c < 0 {
          staged := wbuf[..wcount];
          return false;
        }
        Sent(data, off, c);
        assert (old(Emitted())) == (sink + rest[c..]);
        wcount := wcount - c;
        off := off + c;
      }
      staged := "";
      assert data[off..] == "" && sink + "" == sink;
      ok := true;
    }

    /** A full write buffer is flushed. */
    method MakeRoom() returns (ok: bool)
      requires Buffered() && wbuf != []
      modifies this`sink, this`wcount, this`staged
      ensures ok ==> Buffered() && wcount < |wbuf| && Emitted() == old(Emitted())
      ensures steady ==> ok
    {
      ok := true;
      if wcount == |wbuf| {
        ok := FlushBuffer();
      }
    }

    /** Bytes placed at the end of the write buffer. */
    method Store(p: string)
      requires Buffered() && wcount + |p| <= |wbuf|
      modifies this`wbuf, this`wcount, this`staged
      ensures Buffered() && |wbuf| == old(|wbuf|) && wcount == old(wcount) + |p|
      ensures Emitted() == old(Emitted()) + p
    {
      Assoc(sink, staged, p);
      wbuf := wbuf[..wcount] + p + wbuf[wcount + |p|..];
      wcount := wcount + |p|;
      staged := staged + p;
    }

    /** How much the chain could still give for what it has taken. */
    ghost function Pending(): int
      reads this, chain
      requires |chain.cells| == |chain.ts| == |chain.ms|
    {
      if chain.cells == [] then 0 else |Compose(chain.ms, 0, cur)| - |chain.Given()|
    }

    /** The chain has taken `taken` and given `p`. */
    method Deposit(taken: string, p: string)
      requires Buffered() && wbuf != [] && wcount + |p| <= |wbuf| && chain.Open()
      requires if chain.cells == [] then Emitted() == past + cur && p == taken
               else chain.ts[0].inp == cur + taken && Emitted() + p == past + chain.Given()
      modifies this`wbuf, this`wcount, this`staged, this`cur
      ensures Valid() && wbuf != [] && cur == old(cur) + taken
    {
      Assoc(past, cur, taken);
      Store(p);
      cur := cur + taken;
    }

    /** One round of io_write: some bytes are taken or some are given. */
    method WriteSome(rest: string) returns (ok: bool, c: nat)
      requires Valid() && wbuf != [] && rest != []
      modifies this`sink, this`wbuf, this`wcount, this`staged, this`cur, chain`cells, chain`ts
      ensures |chain.cells| == old(|chain.cells|)
      ensures ok ==> Valid() && wbuf != [] && c <= |rest| && cur == old(cur) + rest[..c]
      ensures ok && c == 0 ==> 0 <= Pending() < old(Pending())
      ensures Reliable() ==> ok
    {
      ok := MakeRoom();
      if !ok {
        return false, 0;
      }
      ghost var given := if chain.cells == [] then "" else chain.Given();
      var p;
      ok, c, p := chain.Transfer(rest, |wbuf| - wcount);
      if !ok {
        return;
      }
      Assoc(past, given, p);
      assert c == 0 ==> cur + rest[..c] == cur;
      Deposit(rest[..c], p);
    }

    /** io_write. */
    method Write(data: string) returns (ok: bool)
      requires Valid()
      modifies this`sink, this`wbuf, this`wcount, this`staged, this`cur, chain`cells, chain`ts
      ensures |chain.cells| == old(|chain.cells|)
      ensures ok ==> Valid() && cur == old(cur) + data && wbuf != []
      ensures Reliable() ==> ok
    {
      if wbuf == [] {
        wbuf := seq(IO_WR_BUFSZ, _ => '\0');
      }
      var off := 0;
      while off < |data|
        invariant off <= |data| && wbuf != [] && |chain.cells| == old(|chain.cells|)
        invariant Valid() && cur == old(cur) + data[..off]
        decreases |data| - off, Pending()
      {
        var c;
        ok, c := WriteSome(data[off..]);
        if !ok {
          return;
        }
        Further(old(cur), data, off, c);
        off := off + c;
      }
      ok := true;
      assert data[..off] == data;
    }

    /** io_flush on a consistent object. */
    method Flush() returns (ok: bool)
      requires Valid()
      modifies this`sink, this`wcount, this`staged
      ensures ok ==> Valid() && sink == Emitted() == old(Emitted())
      ensures steady ==> ok
    {
      ok := FlushBuffer();
    }

    /** The inner loop of io_chain_flush: copy out, flushing when full. */
    method Spill(p: string) returns (ok: bool)
      requires Buffered() && wbuf != []
      modifies this`sink, this`wbuf, this`wcount, this`staged
      ensures ok ==> Buffered() && wbuf != [] && Emitted() == old(Emitted()) + p
      ensures steady ==> ok
    {
      var i := 0;
      while i < |p|
        invariant i <= |p| && Buffered() && wbuf != []
        invariant Emitted() == old(Emitted()) + p[..i]
      {
        ok := MakeRoom();
        if !ok {
          return;
        }
        var sz := if |p| - i <= |wbuf| - wcount then |p| - i else |wbuf| - wcount;
        Store(p[i..i + sz]);
        assert p[..i] + p[i..i + sz] == p[..i + sz];
        i := i + sz;
      }
      ok := true;
      assert p[..i] == p;
    }

    ghost predicate Draining()
      reads this, chain
    {
      && Buffered() && wbuf != [] && chain.cells != []
      && Flushing(chain.cells, chain.ms, chain.ts, 0) && chain.ts[0].inp == cur
      && Emitted() == past + chain.Given()
    }

    /** What a flush of the chain gave, copied out. */
    method SpillChunk(p: string) returns (ok: bool)
      requires Buffered() && wbuf != [] && chain.cells != []
      requires Flushing(chain.cells, chain.ms, chain.ts, 0) && chain.ts[0].inp == cur
      requires Emitted() + p == past + chain.Given()
      modifies this`sink, this`wbuf, this`wcount, this`staged
      ensures ok ==> Draining()
      ensures steady ==> ok
    {
      ok := Spill(p);
    }

    /** One round of io_chain_flush. */
    method FlushSome() returns (ok: bool, complete: bool)
      requires Draining()
      modifies this`sink, this`wbuf, this`wcount, this`staged, chain`cells, chain`ts
      ensures |chain.cells| == old(|chain.cells|)
      ensures ok ==> Draining()
      ensures ok && complete ==> chain.Given() == Compose(chain.ms, 0, cur)
      ensures ok && !complete ==> 0 <= Pending() < old(Pending())
      ensures Reliable() ==> ok
    {
      ghost var given := chain.Given();
      var p;
      ok, complete, p := chain.FlushChunk(FLUSH_BUFSZ);
      Assoc(past, given, p);
      if ok && !complete {
        ok := SpillChunk(p);
      }
    }

    /** io_chain_flush: empty the chain into the write buffer. */
    method FlushChain() returns (ok: bool)
      requires Valid() && chain.cells != [] && wbuf != []
      modifies this`sink, this`wbuf, this`wcount, this`staged, chain`cells, chain`ts
      ensures ok ==> Buffered() && wbuf != []
      ensures ok ==> Emitted() == past + Compose(chain.ms, 0, cur)
      ensures Reliable() ==> ok
    {
      OpenIsFlushing(chain.cells, chain.ms, chain.ts, 0);
      var complete := false;
      while !complete
        invariant Draining()
        invariant complete ==> chain.Given() == Compose(chain.ms, 0, cur)
        decreases !complete, Pending()
      {
        ok, complete := FlushSome();
        if !ok {
          return;
        }
      }
      ok := true;
    }

    /** io_codecs_remove: flush the chain if anything was ever written, then
        take the codecs off whatever the outcome. */
    method RemoveCodecs() returns (ok: bool)
      requires Valid()
      modifies this, chain
      ensures chain.cells == []
      ensures ok ==> Valid() && cur == "" && past == Emitted()
      ensures ok ==>
                past == old(past) + if old(chain.cells == [] || wbuf == []) then old(cur)
                                    else Compose(old(chain.ms), 0, old(cur))
      ensures ok ==> (wbuf == [] <==> old(wbuf == []))
      ensures old(Reliable()) ==> ok
    {
      ok := true;
      if chain.cells == [] {
        past, cur := past + cur, "";
        return;
      }
      if wbuf != [] {
        ok := FlushChain();
      } else {
        assert chain.ts[|chain.ts| - 1] in chain.ts;
      }
      chain.Clear();
      past, cur := Emitted(), "";
    }

    method Perform(call: Call) returns (ok: bool)
      requires Valid()
      modifies this, chain`cells, chain`ts
      ensures |chain.cells| == old(|chain.cells|)
      ensures ok ==> Valid() && past == old(past) && cur == old(cur) + if call.Write? then call.data else ""
      ensures ok ==> (wbuf != [] <==> old(wbuf != []) || call.Write?)
      ensures Reliable() ==> ok
    {
      match call
      case Write(data) =>
        ok := Write(data);
      case Flush =>
        ok := Flush();
    }

    /** Any run of writes and flushes, ended as io_free ends it: the codecs are
        removed and the buffer is flushed. */
    method Run(calls: seq<Call>) returns (ok: bool)
      requires Valid() && wbuf == [] && sink == past == ""
      modifies this, chain
      ensures ok ==>
                sink == if old(chain.cells) == [] then AllWritten(calls)
                        else if AnyWrite(calls) then Compose(old(chain.ms), 0, AllWritten(calls))
                        else ""
      ensures old(Reliable()) ==> ok
    {
      for i := 0 to |calls|
        invariant Valid() && cur == AllWritten(calls[..i]) && past == ""
        invariant (wbuf != []) == AnyWrite(calls[..i])
        invariant chain.ms == old(chain.ms) && |chain.cells| == old(|chain.cells|)
      {
        assert calls[..i + 1][..i] == calls[..i];
        assert calls[i] in calls[..i + 1];
        assert calls[..i + 1] == calls[..i] + [calls[i]];
        ok := Perform(calls[i]);
        if !ok {
          return;
        }
      }
      assert calls[..|calls|] == calls;
      ok := RemoveCodecs();
      if ok {
        ok := Flush();
      }
    }
  }
}

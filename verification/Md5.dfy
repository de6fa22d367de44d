/**
  Streaming MD5 (md5_init, md5_append, md5_finish of src/libutils/md5.c) against
  the one-shot definition of RFC 1321. The compression function md5_process is
  a parameter.
 */
module Md5 {
  const BLOCK: nat := 64
  const W: nat := 0x1_0000_0000

  type Byte = b: int | 0 <= b < 256
  type Bytes = seq<Byte>
  type Word = w: int | 0 <= w < W

  datatype Abcd = Abcd(a: Word, b: Word, c: Word, d: Word)
  type Process = (Abcd, Bytes) -> Abcd

  /** Section 3.3 of RFC 1321. */
  const IV := Abcd(0x67452301, 0xefcdab89, 0x98badcfe, 0x10325476)

  /** The compression function over the blocks of `s`. */
  function Fold(h: Process, s: Bytes): Abcd {
    if |s| < BLOCK then IV else h(Fold(h, s[..|s| - BLOCK]), s[|s| - BLOCK..])
  }

  /** A whole number of blocks. */
  predicate Aligned(s: Bytes) {
    s == [] || (|s| >= BLOCK && Aligned(s[..|s| - BLOCK]))
  }

  lemma {:induction false} AlignedMod(s: Bytes)
    ensures Aligned(s) <==> |s| % BLOCK == 0
  {
    if |s| >= BLOCK {
      AlignedMod(s[..|s| - BLOCK]);
      assert (|s| - BLOCK) % BLOCK == |s| % BLOCK;
    }
  }

  /** The low-order byte first, as in section 2 of RFC 1321. */
  function LittleEndian(n: nat, k: nat): (r: Bytes)
    ensures |r| == k
  {
    if k == 0 then [] else [n % 256] + LittleEndian(n / 256, k - 1)
  }

  /** Number of zero bytes after the 0x80 byte of section 3.1. */
  function Zeros(len: nat): nat {
    var r := len % BLOCK;
    if r <= 55 then 55 - r else 119 - r
  }

  lemma {:induction false} PaddedLength(len: nat)
    ensures (len + 1 + Zeros(len) + 8) % BLOCK == 0
  {
    var q, r := len / BLOCK, len % BLOCK;
    assert len + 1 + Zeros(len) + 8 == BLOCK * if r <= 55 then q + 1 else q + 2;
  }

  function Pad(len: nat): (r: Bytes)
    ensures |r| == 1 + Zeros(len)
  {
    [0x80] + seq(Zeros(len), _ => 0)
  }

  /** Sections 3.1 and 3.2: a one bit, zeros up to 448 mod 512 bits, and the
      bit length as 64 bits. */
  function Padded(m: Bytes): (r: Bytes)
    ensures |r| % BLOCK == 0
  {
    PaddedLength(|m|);
    m + Pad(|m|) + LittleEndian(8 * |m| % (W * W), 8)
  }

  /** Section 3.5: A, B, C, D, low-order byte first. */
  function Output(v: Abcd): Bytes {
    LittleEndian(v.a, 4) + LittleEndian(v.b, 4) + LittleEndian(v.c, 4) + LittleEndian(v.d, 4)
  }

  function Digest(h: Process, m: Bytes): Bytes {
    Output(Fold(h, Padded(m)))
  }

  /** The padding is the shortest that section 3.1 allows. */
  lemma {:induction false} PaddingIsShortest(len: nat, z: nat)
    requires (len + 1 + z) % BLOCK == 56
    ensures (len + 1 + Zeros(len)) % BLOCK == 56 && Zeros(len) <= z
  {
  }

  function Flatten(chunks: seq<Bytes>): Bytes {
    if chunks == [] then [] else Flatten(chunks[..|chunks| - 1]) + chunks[|chunks| - 1]
  }

  /** The whole blocks of a message, and what is left over. */
  function Whole(m: Bytes): (r: Bytes)
    ensures |r| == |m| / BLOCK * BLOCK
  {
    m[..|m| / BLOCK * BLOCK]
  }

  function Left(m: Bytes): (r: Bytes)
    ensures |r| == |m| % BLOCK
  {
    m[|m| / BLOCK * BLOCK..]
  }

  /** The number some bytes stand for, the low-order byte first. */
  function Value(bs: Bytes): nat {
    if bs == [] then 0 else bs[0] + 256 * Value(bs[1..])
  }

  function Pow256(k: nat): nat {
    if k == 0 then 1 else 256 * Pow256(k - 1)
  }

  lemma {:induction false} LittleEndianValue(n: nat, k: nat)
    requires n < Pow256(k)
    ensures Value(LittleEndian(n, k)) == n
  {
    if k > 0 {
      LittleEndianValue(n / 256, k - 1);
      assert LittleEndian(n, k)[1..] == LittleEndian(n / 256, k - 1);
    }
  }

  /** The padded message, byte by byte: the message, the byte 0x80, zeros, and the
      length in bits as eight bytes. */
  lemma {:induction false} PaddedBytes(m: Bytes)
    ensures var p := Padded(m);
            && |m| + 9 <= |p| && p[..|m|] == m && p[|m|] == 0x80 && (forall i :: |m| < i < |p| - 8 ==> p[i] == 0)
            && Value(p[|p| - 8..]) == 8 * |m| % (W * W)
  {
    var n := 8 * |m| % (W * W);
    ThreeParts(m, Pad(|m|), LittleEndian(n, 8));
    WordSizes();
    LittleEndianValue(n, 8);
  }

  lemma {:induction false} ThreeParts(m: Bytes, pad: Bytes, len: Bytes)
    ensures var p := m + pad + len;
            && p[..|m|] == m && p[|p| - |len|..] == len
            && forall i :: |m| <= i < |m| + |pad| ==> p[i] == pad[i - |m|]
  {
  }

  lemma {:induction false} WordSizes()
    ensures Pow256(4) == W && Pow256(8) == W * W
  {
    assert Pow256(2) == 0x1_0000;
    assert Pow256(4) == 256 * (256 * Pow256(2));
    assert Pow256(6) == 256 * (256 * Pow256(4));
    assert Pow256(8) == 256 * (256 * Pow256(6));
  }

  /** The digest holds the four words in order. */
  lemma {:induction false} OutputWords(v: Abcd)
    ensures var o := Output(v);
            && |o| == 16 && Value(o[0..4]) == v.a && Value(o[4..8]) == v.b && Value(o[8..12]) == v.c
            && Value(o[12..16]) == v.d
  {
    var o := Output(v);
    assert o[0..4] == LittleEndian(v.a, 4) && o[4..8] == LittleEndian(v.b, 4);
    assert o[8..12] == LittleEndian(v.c, 4) && o[12..16] == LittleEndian(v.d, 4);
    WordSizes();
    LittleEndianValue(v.a, 4);
    LittleEndianValue(v.b, 4);
    LittleEndianValue(v.c, 4);
    LittleEndianValue(v.d, 4);
  }

  /** The initial words are the bytes that section 3.3 lists. */
  lemma {:induction false} InitialBytes()
    ensures IV.a == Value([0x01, 0x23, 0x45, 0x67]) && IV.b == Value([0x89, 0xab, 0xcd, 0xef])
    ensures IV.c == Value([0xfe, 0xdc, 0xba, 0x98]) && IV.d == Value([0x76, 0x54, 0x32, 0x10])
  {
    ValueOfWord(0x01, 0x23, 0x45, 0x67);
    ValueOfWord(0x89, 0xab, 0xcd, 0xef);
    ValueOfWord(0xfe, 0xdc, 0xba, 0x98);
    ValueOfWord(0x76, 0x54, 0x32, 0x10);
  }

  lemma {:induction false} ValueOfWord(b0: Byte, b1: Byte, b2: Byte, b3: Byte)
    ensures Value([b0, b1, b2, b3]) == b0 + 0x100 * b1 + 0x1_0000 * b2 + 0x100_0000 * b3
  {
    assert [b0, b1, b2, b3][1..] == [b1, b2, b3] && [b1, b2, b3][1..] == [b2, b3] && [b2, b3][1..] == [b3];
    assert Value([b3]) == b3;
    assert Value([b2, b3]) == b2 + 0x100 * b3;
  }

  lemma {:induction false} FoldBlock(h: Process, s: Bytes, b: Bytes)
    requires |b| == BLOCK
    ensures Fold(h, []) == IV && Fold(h, s + b) == h(Fold(h, s), b) && (Aligned(s) ==> Aligned(s + b))
  {
    assert (s + b)[..|s + b| - BLOCK] == s;
    assert (s + b)[|s + b| - BLOCK..] == b;
  }

  lemma {:induction false} Regroup(all: Bytes, data: Bytes, at: nat, n: nat)
    requires at + n <= |data|
    ensures all + data[at..] == (all + data[at..at + n]) + data[at + n..]
  {
    assert data[at..] == data[at..at + n] + data[at + n..];
  }

  lemma {:induction false} Regroup3(whole: Bytes, left: Bytes, data: Bytes, p: nat)
    requires p <= |data|
    ensures whole + left + data == whole + (left + data[..p]) + data[p..]
    ensures whole + left + data == whole + (left + data)
  {
    assert data == data[..p] + data[p..];
  }

  /** Cutting a message after any block boundary. */
  lemma {:induction false} Cut(m: Bytes, s: Bytes, t: Bytes)
    requires m == s + t && Aligned(s) && |t| < BLOCK
    ensures Whole(m) == s && Left(m) == t && |m| % BLOCK == |t|
  {
    AlignedMod(s);
    var q := |s| / BLOCK;
    DivMod(|m|, BLOCK, q, |t|);
    assert |s| == q * BLOCK;
  }

  lemma {:induction false} Parts(m: Bytes)
    ensures m == Whole(m) + Left(m) && Aligned(Whole(m))
  {
    AlignedMod(Whole(m));
  }

  lemma {:induction false} ModShift(a: nat, y: nat)
    ensures (a * W + y) % W == y % W
  {
    var b := y / W;
    assert a * W + y == (a + b) * W + y % W;
    DivMod(a * W + y, W, a + b, y % W);
  }

  lemma {:induction false} ModAdd(q: nat, x: nat)
    ensures (q % W + x) % W == (q + x) % W
  {
    ModShift(q / W, q % W + x);
    assert q + x == q / W * W + (q % W + x);
  }

  /** The bits of `n` bytes in a word, and what goes beyond it. */
  function Bits(n: nat): Word {
    8 * n % W
  }

  lemma {:induction false} EightTimes(n: nat)
    ensures 8 * n == n / 0x2000_0000 * W + Bits(n)
  {
    var h, l := n / 0x2000_0000, n % 0x2000_0000;
    DivMod(8 * n, W, h, 8 * l);
  }

  /** Adding the bits of `n` bytes to a two-word counter. */
  lemma {:induction false} CountStep(bits: nat, n: nat)
    ensures var c0 := (bits % W + Bits(n)) % W;
            && (bits + 8 * n) % W == c0
            && (bits + 8 * n) / W % W
               == ((bits / W % W + n / 0x2000_0000) % W + if c0 < Bits(n) then 1 else 0) % W
  {
    var q, r, h, nb := bits / W, bits % W, n / 0x2000_0000, Bits(n);
    var t := if r + nb >= W then 1 else 0;
    EightTimes(n);
    assert bits + 8 * n == (q + h + t) * W + (r + nb - t * W);
    DivMod(bits + 8 * n, W, q + h + t, r + nb - t * W);
    DivMod(r + nb, W, t, r + nb - t * W);
    ModAdd(q, h);
    ModAdd(q + h, t);
  }

  lemma {:induction false} Offset(len: nat)
    ensures (8 * len % W) / 8 % BLOCK == len % BLOCK
  {
    var q := 8 * len / W;
    assert 8 * len % W == 8 * len - q * W;
    assert (8 * len % W) / 8 == len - q * 0x2000_0000;
  }

  /** The low `k` bytes of a word, one shift at a time. */
  function Shift(w: nat, i: nat): nat
    requires i < 4
  {
    if i == 0 then w else if i == 1 then w / 0x100 else if i == 2 then w / 0x1_0000 else w / 0x100_0000
  }

  lemma {:induction false} LittleEndianWord(w: nat)
    ensures LittleEndian(w, 4) == [Shift(w, 0) % 256, Shift(w, 1) % 256, Shift(w, 2) % 256, Shift(w, 3) % 256]
  {
    var x := w / 256;
    var y := x / 256;
    var z := y / 256;
    Shifts(w);
    assert LittleEndian(z, 1) == [z % 256];
    assert LittleEndian(y, 2) == [y % 256, z % 256];
    assert LittleEndian(x, 3) == [x % 256, y % 256, z % 256];
  }

  lemma {:induction false} Shifts(w: nat)
    ensures w / 256 / 256 == w / 0x1_0000 && w / 256 / 256 / 256 == w / 0x100_0000
  {
  }

  /** A 64-bit length is its low word and then its high word. */
  lemma {:induction false} LittleEndianLong(n: nat)
    ensures LittleEndian(n, 8) == LittleEndian(n % W, 4) + LittleEndian(n / W, 4)
  {
    assert LittleEndian(n / 256 / 256 / 256, 5)
       == [n / 256 / 256 / 256 % 256] + LittleEndian(n / 256 / 256 / 256 / 256, 4);
    assert LittleEndian(n / 256 / 256, 6) == [n / 256 / 256 % 256] + LittleEndian(n / 256 / 256 / 256, 5);
    assert LittleEndian(n / 256, 7) == [n / 256 % 256] + LittleEndian(n / 256 / 256, 6);
    assert n / 256 / 256 / 256 / 256 == n / W;
    LittleEndianWord(n % W);
    LowBytes(n);
  }

  lemma {:induction false} DivMod(x: nat, d: nat, q: nat, r: nat)
    requires x == q * d + r && r < d
    ensures x / d == q && x % d == r
  {
    var e: int := x / d - q;
    assert e >= 1 ==> e * d >= d;
    assert e <= -1 ==> e * d + d <= 0;
    assert e * d + x % d == r;
  }

  lemma {:induction false} LowBytes(n: nat)
    ensures n % W % 256 == n % 256 && n % W / 0x100 % 256 == n / 256 % 256
    ensures n % W / 0x1_0000 % 256 == n / 256 / 256 % 256 && n % W / 0x100_0000 % 256 == n / 256 / 256 / 256 % 256
  {
    var n1, b0 := n / 256, n % 256;
    var n2, b1 := n1 / 256, n1 % 256;
    var n3, b2 := n2 / 256, n2 % 256;
    var n4, b3 := n3 / 256, n3 % 256;
    var r := b0 + 0x100 * b1 + 0x1_0000 * b2 + 0x100_0000 * b3;
    DivMod(n, W, n4, r);
    DivMod(r, 256, b1 + 0x100 * b2 + 0x1_0000 * b3, b0);
    DivMod(b1 + 0x100 * b2 + 0x1_0000 * b3, 256, b2 + 0x100 * b3, b1);
    DivMod(r, 0x1_0000, b2 + 0x100 * b3, b0 + 0x100 * b1);
    DivMod(b2 + 0x100 * b3, 256, b3, b2);
    DivMod(r, 0x100_0000, b3, b0 + 0x100 * b1 + 0x1_0000 * b2);
  }

  lemma {:induction false} LengthWords(bits: nat)
    ensures bits % (W * W) % W == bits % W
    ensures bits % (W * W) / W == bits / W % W
  {
    var q, r := bits / (W * W), bits % (W * W);
    assert bits == (q * W) * W + r;
    assert bits / W == q * W + r / W;
    assert r / W < W;
  }

  class State {
    const process: Process
    var count0: Word
    var count1: Word
    var abcd: Abcd
    const buf: array<Byte>

    ghost var msg: Bytes

    /** The state stands for the message appended so far. */
    ghost predicate Valid()
      reads this, buf
    {
      && count0 == 8 * |msg| % W && count1 == 8 * |msg| / W % W
      && abcd == Fold(process, Whole(msg))
      && buf.Length == BLOCK && buf[..|msg| % BLOCK] == Left(msg)
    }

    /** md5_init. */
    constructor (process: Process)
      ensures Valid() && msg == [] && this.process == process && fresh(buf)
    {
      this.process, count0, count1, abcd, msg := process, 0, 0, IV, [];
      buf := new Byte[BLOCK];
    }

    /** The message length, kept in two words. */
    method AddLength(n: nat, ghost bits: nat)
      requires count0 == bits % W && count1 == bits / W % W
      modifies this`count0, this`count1
      ensures count0 == (bits + 8 * n) % W && count1 == (bits + 8 * n) / W % W
    {
      CountStep(bits, n);
      var nbits := Bits(n);
      count1 := (count1 + n / 0x2000_0000) % W;
      count0 := (count0 + nbits) % W;
      if count0 < nbits {
        count1 := (count1 + 1) % W;
      }
    }

    /** Copy into the block buffer. */
    method Store(at: nat, data: Bytes)
      requires at + |data| <= buf.Length
      modifies buf
      ensures buf[..at] == old(buf[..at]) && buf[at..at + |data|] == data
    {
      forall i | 0 <= i < |data| {
        buf[at + i] := data[i];
      }
    }

    /** The whole blocks of `data[from..]`, straight from the input. */
    method Blocks(data: Bytes, from: nat, ghost done: Bytes) returns (at: nat, ghost all: Bytes)
      requires from <= |data| && Aligned(done) && abcd == Fold(process, done)
      modifies this`abcd
      ensures from <= at <= |data| < at + BLOCK && all + data[at..] == done + data[from..]
      ensures Aligned(all) && abcd == Fold(process, all)
    {
      at, all := from, done;
      while |data| - at >= BLOCK
        invariant from <= at <= |data| && all + data[at..] == done + data[from..]
        invariant Aligned(all) && abcd == Fold(process, all)
      {
        var b := data[at..at + BLOCK];
        FoldBlock(process, all, b);
        Regroup(all, data, at, BLOCK);
        abcd := process(abcd, b);
        at, all := at + BLOCK, all + b;
      }
    }

    /** The initial partial block of md5_append: top it up and process it, or
        find that it is still not full. */
    method TopUp(offset: nat, data: Bytes, ghost whole: Bytes) returns (p: nat, full: bool)
      requires 0 < offset < BLOCK == buf.Length && data != []
      requires Aligned(whole) && abcd == Fold(process, whole)
      modifies this`abcd, buf
      ensures p <= |data|
      ensures !full ==> p == |data| && offset + p < BLOCK && buf[..offset + p] == old(buf[..offset]) + data
      ensures !full ==> abcd == old(abcd)
      ensures full ==> p == BLOCK - offset
      ensures full ==> Aligned(whole + (old(buf[..offset]) + data[..p]))
      ensures full ==> abcd == Fold(process, whole + (old(buf[..offset]) + data[..p]))
    {
      p := if offset + |data| > BLOCK then BLOCK - offset else |data|;
      Store(offset, data[..p]);
      assert buf[..offset + p] == old(buf[..offset]) + data[..p];
      full := offset + p == BLOCK;
      if full {
        assert buf[..] == buf[..offset + p];
        FoldBlock(process, whole, buf[..]);
        abcd := process(abcd, buf[..]);
      } else {
        assert data[..p] == data;
      }
    }

    /** The full blocks and the final partial block of md5_append. */
    method Absorb(data: Bytes, p: nat, ghost done: Bytes, ghost m: Bytes)
      requires p <= |data| && Aligned(done) && abcd == Fold(process, done) && buf.Length == BLOCK
      requires m == done + data[p..]
      modifies this`abcd, buf
      ensures abcd == Fold(process, Whole(m)) && buf[..|m| % BLOCK] == Left(m)
    {
      var at;
      ghost var all;
      at, all := Blocks(data, p, done);
      Cut(m, all, data[at..]);
      Store(0, data[at..]);
      assert buf[0..|data| - at] == buf[..|data| - at];
    }

    /** md5_append once the length is counted: from the state for
        `whole + left` to the one for `whole + left + data`. */
    method Extend(offset: nat, data: Bytes, ghost whole: Bytes, ghost left: Bytes)
      requires offset == |left| < BLOCK == buf.Length && data != [] && buf[..offset] == left
      requires Aligned(whole) && abcd == Fold(process, whole)
      modifies this`abcd, buf
      ensures var m := whole + left + data;
              abcd == Fold(process, Whole(m)) && buf[..|m| % BLOCK] == Left(m)
    {
      ghost var m := whole + left + data;
      if offset == 0 {
        assert m == whole + data[0..];
        Absorb(data, 0, whole, m);
        return;
      }
      var p, full := TopUp(offset, data, whole);
      Regroup3(whole, left, data, p);
      if full {
        Absorb(data, p, whole + (left + data[..p]), m);
      } else {
        assert data[..p] == data;
        Cut(m, whole, left + data);
      }
    }

    /** md5_append of as many bytes as an int can tell. */
    method Append(data: Bytes)
      requires Valid() && |data| < 0x8000_0000
      modifies this`count0, this`count1, this`abcd, this`msg, buf
      ensures Valid() && msg == old(msg) + data
    {
      var offset := count0 / 8 % BLOCK;
      Offset(|msg|);
      if |data| == 0 {
        assert msg + data == msg;
        return;
      }
      AddLength(|data|, 8 * |msg|);
      Parts(msg);
      Extend(offset, data, Whole(msg), Left(msg));
      assert 8 * |msg| + 8 * |data| == 8 * |msg + data|;
      msg := msg + data;
    }

    /** The length as md5_finish saves it before padding. */
    method LengthBytes() returns (data: Bytes)
      requires Valid()
      ensures data == LittleEndian(8 * |msg| % (W * W), 8)
    {
      data := [];
      var count := [count0, count1];
      for i := 0 to 8
        invariant |data| == i
        invariant forall j :: 0 <= j < i ==> data[j] == Shift(count[j / 4], j % 4) % 256
      {
        data := data + [Shift(count[i / 4], i % 4) % 256];
      }
      LittleEndianWord(count0);
      LittleEndianWord(count1);
      assert data == LittleEndian(count0, 4) + LittleEndian(count1, 4);
      LittleEndianLong(8 * |msg| % (W * W));
      LengthWords(8 * |msg|);
    }

    /** md5_finish. */
    method Finish() returns (digest: Bytes)
      requires Valid()
      modifies this`count0, this`count1, this`abcd, this`msg, buf
      ensures digest == Digest(process, old(msg))
    {
      ghost var m := msg;
      var data := LengthBytes();
      var pad := Padding();
      Append(pad);
      Append(data);
      WholePadded(m);
      digest := OutputBytes(abcd);
    }

    /** How much of the constant padding md5_finish appends. */
    method Padding() returns (pad: Bytes)
      requires Valid()
      ensures pad == Pad(|msg|)
    {
      PadCount(|msg|);
      var n := (W + 55 - count0 / 8) % W % BLOCK + 1;
      pad := [0x80] + seq(n - 1, _ => 0);
    }
  }

  lemma {:induction false} WholePadded(m: Bytes)
    ensures Whole(Padded(m)) == Padded(m)
  {
    assert |Padded(m)| / BLOCK * BLOCK == |Padded(m)|;
  }

  /** Unsigned 55 - x, masked, is the number of zero bytes. */
  lemma {:induction false} PadCount(len: nat)
    ensures (W + 55 - (8 * len % W) / 8) % W % BLOCK == Zeros(len)
  {
    var x := (8 * len % W) / 8;
    Offset(len);
    var q, r := x / BLOCK, x % BLOCK;
    assert x == q * BLOCK + r;
    if x <= 55 {
      assert (W + 55 - x) % W == 55 - x;
    } else {
      assert (W + 55 - x) % W == W + 55 - x;
      assert W + 55 - x == (0x400_0000 - 1 - q) * BLOCK + (119 - r);
    }
  }

  method OutputBytes(v: Abcd) returns (digest: Bytes)
    ensures digest == Output(v)
  {
    digest := [];
    var words := [v.a, v.b, v.c, v.d];
    for i := 0 to 16
      invariant |digest| == i
      invariant forall j :: 0 <= j < i ==> digest[j] == Shift(words[j / 4], j % 4) % 256
    {
      digest := digest + [Shift(words[i / 4], i % 4) % 256];
    }
    LittleEndianWord(v.a);
    LittleEndianWord(v.b);
    LittleEndianWord(v.c);
    LittleEndianWord(v.d);
  }

  /** Any message, however it is cut into pieces. */
  method Hash(process: Process, chunks: seq<Bytes>) returns (digest: Bytes)
    requires forall c :: c in chunks ==> |c| < 0x8000_0000
    ensures digest == Digest(process, Flatten(chunks))
  {
    var st := new State(process);
    for i := 0 to |chunks|
      invariant st.Valid() && st.msg == Flatten(chunks[..i]) && st.process == process && fresh(st) && fresh(st.buf)
    {
      assert chunks[..i + 1][..i] == chunks[..i];
      st.Append(chunks[i]);
    }
    assert chunks[..|chunks|] == chunks;
    digest := st.Finish();
  }
}

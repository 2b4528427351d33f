/** The streaming layer of BLAKE (src/blake.c): buffered absorption with a pre-biased
    bit counter, against the padding and counter rules of sections 2.1.3 and 2.2.3 of
    "SHA-3 proposal BLAKE". The compression function is a parameter. */
module Blake {
  import opened Bits

  /** BLAKE-224/256 work on 64-byte blocks and 32-bit words, BLAKE-384/512 on
      128-byte blocks and 64-bit words. */
  datatype Variant = Small | Big

  function BlockBytes(v: Variant): (n: nat)
    ensures n > 0
  {
    if v.Small? then 64 else 128
  }
  function BlockBits(v: Variant): (n: nat)
    ensures n == 8 * BlockBytes(v)
  {
    if v.Small? then 512 else 1024
  }

  function WordBytes(v: Variant): nat { if v.Small? then 4 else 8 }

  function Word(v: Variant): (w: nat)
    ensures w >= 2 * BlockBits(v)
  {
    if v.Small? then 0x1_0000_0000 else 0x1_0000_0000_0000_0000
  }

  /** The two words of a counter. */
  function Lo(v: Variant, t: nat): nat { t % Word(v) }
  function Hi(v: Variant, t: nat): nat { t / Word(v) }

  /** Position of block `k`. */
  function At(v: Variant, k: nat): nat { k * BlockBytes(v) }

  lemma NextBlock(v: Variant, k: nat)
    ensures At(v, k + 1) == At(v, k) + BlockBytes(v) && At(v, k + 2) == At(v, k) + 2 * BlockBytes(v)
    ensures BlockBits(v) * k == 8 * At(v, k) && BlockBits(v) * (k + 1) == BlockBits(v) * k + BlockBits(v)
  {
  }

  type Chain = seq<nat>
  type Compress = (Chain, seq<Byte>, nat, nat) -> Chain

  // ---------------------------------------------------------------- the specification

  /** The fewest zeros that complete a block. */
  function PadCount(v: Variant, total: nat): nat {
    (BlockBits(v) - 2 - 16 * WordBytes(v) - total) % BlockBits(v)
  }

  /** The padded message: a one, the fewest zeros, the bit that tells the full-size hash
      from the truncated one, and the length in two words. */
  function Padding(v: Variant, msg: seq<Bit>, full: bool): seq<Bit> {
    msg + [1] + Zeros(PadCount(v, |msg|)) + [if full then 1 else 0] + BitsOf(|msg|, 16 * WordBytes(v))
  }

  /** The counter of block `i`: message bits up to and including it, or zero when it
      holds none. */
  function Counter(v: Variant, total: nat, i: nat): nat {
    if BlockBits(v) * i >= total then 0
    else if BlockBits(v) * (i + 1) <= total then BlockBits(v) * (i + 1)
    else total
  }

  /** The chaining value after the first `k` blocks of `padded`. */
  function Reference(v: Variant, f: Compress, iv: Chain, padded: seq<Byte>, total: nat, k: nat): Chain
    requires At(v, k) <= |padded|
  {
    if k == 0 then iv
    else
      assert At(v, k - 1) + BlockBytes(v) == At(v, k);
      var t := Counter(v, total, k - 1);
      f(Reference(v, f, iv, padded, total, k - 1), padded[At(v, k - 1)..At(v, k)],
        Lo(v, t), Hi(v, t))
  }

  // ---------------------------------------------------------------- absorption

  /** The context: chaining value, counter words and buffered bytes. */
  datatype Ctx = Ctx(h: Chain, t0: nat, t1: nat, pend: seq<Byte>)

  function Init(iv: Chain): Ctx {
    Ctx(iv, 0, 0, [])
  }

  /** Counting and compressing one full block. */
  function Block(v: Variant, f: Compress, c: Ctx, block: seq<Byte>): (r: Ctx)
    ensures r.pend == []
  {
    var t0 := (c.t0 + BlockBits(v)) % Word(v);
    var t1 := if t0 < BlockBits(v) then (c.t1 + 1) % Word(v) else c.t1;
    Ctx(f(c.h, block, t0, t1), t0, t1, [])
  }

  lemma BlockCounters(v: Variant, f: Compress, c: Ctx, block: seq<Byte>)
    ensures var r := Block(v, f, c, block);
            && r.t0 == (c.t0 + BlockBits(v)) % Word(v)
            && r.t1 == (if r.t0 < BlockBits(v) then (c.t1 + 1) % Word(v) else c.t1)
            && r.h == f(c.h, block, r.t0, r.t1)
  {
  }

  lemma BlockIgnoresBuffer(v: Variant, f: Compress, c: Ctx, pend: seq<Byte>, block: seq<Byte>)
    ensures Block(v, f, c.(pend := pend), block) == Block(v, f, c, block)
  {
  }

  /** Absorbing `data`. */
  function Feed(v: Variant, f: Compress, c: Ctx, data: seq<Byte>): (r: Ctx)
    requires |c.pend| < BlockBytes(v)
    ensures |r.pend| < BlockBytes(v)
    decreases |data|
  {
    var k := BlockBytes(v) - |c.pend|;
    if |data| < k then c.(pend := c.pend + data)
    else Feed(v, f, Block(v, f, c, c.pend + data[..k]), data[k..])
  }

  /** Any split of a message into updates absorbs the same. */
  lemma {:induction false} FeedConcat(v: Variant, f: Compress, c: Ctx, a: seq<Byte>, b: seq<Byte>)
    requires |c.pend| < BlockBytes(v)
    ensures Feed(v, f, Feed(v, f, c, a), b) == Feed(v, f, c, a + b)
    decreases |a|
  {
    hide Block, BlockBytes;
    var k := BlockBytes(v) - |c.pend|;
    if |a| < k {
      if |a + b| < k {
        assert c.pend + a + b == c.pend + (a + b);
      } else {
        var j := k - |a|;
        assert (a + b)[..k] == a + b[..j] && (a + b)[k..] == b[j..];
        assert c.pend + a + b[..j] == c.pend + (a + b)[..k];
        BlockIgnoresBuffer(v, f, c, c.pend + a, c.pend + (a + b)[..k]);
      }
    } else {
      assert (a + b)[..k] == a[..k] && (a + b)[k..] == a[k..] + b;
      FeedConcat(v, f, Block(v, f, c, c.pend + a[..k]), a[k..], b);
    }
  }

  /** The chaining value after `k` full blocks of message. */
  function Blocks(v: Variant, f: Compress, iv: Chain, msg: seq<Byte>, k: nat): Ctx
    requires At(v, k) <= |msg|
  {
    if k == 0 then Init(iv)
    else
      assert At(v, k - 1) + BlockBytes(v) == At(v, k);
      Block(v, f, Blocks(v, f, iv, msg, k - 1), msg[At(v, k - 1)..At(v, k)])
  }

  lemma {:induction false} FeedBlocks(v: Variant, f: Compress, iv: Chain, msg: seq<Byte>, k: nat)
    requires At(v, k) <= |msg|
    ensures Feed(v, f, Init(iv), msg[..At(v, k)]) == Blocks(v, f, iv, msg, k)
  {
    hide Block, BlockBytes;
    var n := BlockBytes(v);
    if k == 0 {
      assert msg[..0] == [];
    } else {
      assert At(v, k - 1) + n == At(v, k);
      FeedBlocks(v, f, iv, msg, k - 1);
      var last := msg[At(v, k - 1)..At(v, k)];
      assert msg[..At(v, k)] == msg[..At(v, k - 1)] + last;
      FeedConcat(v, f, Init(iv), msg[..At(v, k - 1)], last);
      var c := Blocks(v, f, iv, msg, k - 1);
      BlocksBuffer(v, f, iv, msg, k - 1);
      assert c.pend + last[..n] == last && last[n..] == [];
      assert Feed(v, f, c, last) == Feed(v, f, Block(v, f, c, last), []);
    }
  }

  lemma BlocksBuffer(v: Variant, f: Compress, iv: Chain, msg: seq<Byte>, k: nat)
    requires At(v, k) <= |msg|
    ensures Blocks(v, f, iv, msg, k).pend == []
  {
  }

  /** After any message: all full blocks are compressed, the rest is buffered. */
  lemma FeedMessage(v: Variant, f: Compress, iv: Chain, msg: seq<Byte>, k: nat)
    requires k == |msg| / BlockBytes(v)
    ensures At(v, k) <= |msg| < At(v, k) + BlockBytes(v)
    ensures Feed(v, f, Init(iv), msg) == Blocks(v, f, iv, msg, k).(pend := msg[At(v, k)..])
  {
    var n := BlockBytes(v);
    FeedBlocks(v, f, iv, msg, k);
    BlocksBuffer(v, f, iv, msg, k);
    assert msg == msg[..At(v, k)] + msg[At(v, k)..];
    FeedConcat(v, f, Init(iv), msg[..At(v, k)], msg[At(v, k)..]);
    hide Blocks;
    assert [] + msg[At(v, k)..] == msg[At(v, k)..];
  }

  // ---------------------------------------------------------------- the counter

  /** The counter words of a context. */
  ghost predicate Counts(v: Variant, c: Ctx, t: nat) {
    c.t0 == Lo(v, t) && c.t1 == Hi(v, t)
  }

  lemma BumpCounts(v: Variant, f: Compress, c: Ctx, block: seq<Byte>, t: nat)
    requires Counts(v, c, t) && t + BlockBits(v) < Word(v) * Word(v)
    ensures Counts(v, Block(v, f, c, block), t + BlockBits(v))
  {
    hide Word, BlockBits, Block;
    BlockCounters(v, f, c, block);
    Carry(t, Word(v), BlockBits(v));
  }

  /** Adding to the low word carries exactly when the sum wraps below the addend. */
  lemma Carry(t: nat, w: nat, n: nat)
    requires 0 < n <= w && t + n < w * w
    ensures (t + n) % w == (t % w + n) % w
    ensures (t + n) / w == if (t % w + n) % w < n then (t / w + 1) % w else t / w
  {
    var q, r := t / w, t % w;
    if r + n < w {
      DivRem(t + n, w, q, r + n);
      DivRem(r + n, w, 0, r + n);
    } else {
      assert (q + 1) * w == q * w + w;
      DivRem(t + n, w, q + 1, r + n - w);
      DivRem(r + n, w, 1, r + n - w);
      QuotientBound(t + n, w);
      DivRem(q + 1, w, 0, q + 1);
    }
  }

  lemma QuotientBound(t: nat, w: nat)
    requires w > 0 && t < w * w
    ensures t / w < w
  {
    var d := t / w - w;
    assert t / w * w <= t;
    assert d * w == t / w * w - w * w;
    assert d >= 0 ==> d * w >= 0;
  }

  /** While only message is absorbed, every block sees the number of bits so far. */
  lemma {:induction false} BlocksCount(v: Variant, f: Compress, iv: Chain, msg: seq<Byte>, k: nat)
    requires At(v, k) <= |msg| && 8 * |msg| < Word(v) * Word(v)
    ensures Counts(v, Blocks(v, f, iv, msg, k), BlockBits(v) * k)
  {
    if k > 0 {
      assert At(v, k - 1) + BlockBytes(v) == At(v, k);
      BlocksCount(v, f, iv, msg, k - 1);
      assert BlockBits(v) * (k - 1) + BlockBits(v) == BlockBits(v) * k == 8 * (At(v, k));
      BumpCounts(v, f, Blocks(v, f, iv, msg, k - 1), msg[At(v, k - 1)..At(v, k)], BlockBits(v) * (k - 1));
    }
  }

  /** The blocks of the message are the first blocks of the padded message. */
  lemma {:induction false} BlocksAreReference(v: Variant, f: Compress, iv: Chain, msg: seq<Byte>, tail: seq<Byte>,
                                              total: nat, k: nat)
    requires At(v, k) <= |msg| && 8 * |msg| <= total && 8 * |msg| < Word(v) * Word(v)
    ensures Blocks(v, f, iv, msg, k).h == Reference(v, f, iv, msg + tail, total, k)
  {
    hide Block, Counter, Word, BlockBits, BlockBytes;
    if k > 0 {
      var n := BlockBytes(v);
      assert At(v, k - 1) + n == At(v, k);
      BlocksAreReference(v, f, iv, msg, tail, total, k - 1);
      BlocksCount(v, f, iv, msg, k);
      FullCounter(v, total, k);
      BlockCounters(v, f, Blocks(v, f, iv, msg, k - 1), msg[At(v, k - 1)..At(v, k)]);
      assert (msg + tail)[At(v, k - 1)..At(v, k)] == msg[At(v, k - 1)..At(v, k)];
    }
  }

  lemma FullCounter(v: Variant, total: nat, k: nat)
    requires k > 0 && 8 * (At(v, k)) <= total
    ensures Counter(v, total, k - 1) == BlockBits(v) * k
  {
    assert BlockBits(v) * (k - 1) + BlockBits(v) == BlockBits(v) * k == 8 * (At(v, k));
  }

  // ---------------------------------------------------------------- padding

  /** Bytes of the last block before the length field. */
  function LengthAt(v: Variant): nat { BlockBytes(v) - 2 * WordBytes(v) }

  /** `((ub & -z) | z) & 0xFF` with `z = 0x80 >> n`: the first `n` bits of `ub` and a one. */
  function PadByte(ub: Byte, n: nat): Byte
    requires n < 8
  {
    var z := Pow2(7 - n);
    var high := ub - ub % z;
    (if high / z % 2 == 1 then high else high + z) % 256
  }

  /** Clearing the low bits and setting bit `z`. */
  lemma SetBit(x: nat, z: nat)
    requires z > 0
    ensures var high := x - x % z;
            (if high / z % 2 == 1 then high else high + z) == x / (2 * z) * (2 * z) + z
  {
    var q, r, high := x / (2 * z), x % (2 * z), x - x % z;
    assert x == q * (2 * z) + r;
    if r >= z {
      assert q * (2 * z) == 2 * q * z;
      assert x == (2 * q + 1) * z + (r - z);
      DivRem(x, z, 2 * q + 1, r - z);
      DivRem(high, z, 2 * q + 1, 0);
    } else {
      assert q * (2 * z) == 2 * q * z;
      DivRem(x, z, 2 * q, r);
      DivRem(high, z, 2 * q, 0);
    }
  }

  lemma SetBitInByte(x: Byte, z: nat, m: nat)
    requires z > 0 && m * (2 * z) == 256
    ensures var high := x - x % z;
            (if high / z % 2 == 1 then high else high + z) % 256 == x / (2 * z) * (2 * z) + z
  {
    SetBit(x, z);
    Multiples(x, 2 * z, m);
    var r := x / (2 * z) * (2 * z) + z;
    assert 0 <= r < 256;
  }

  /** The last byte keeps the high bits of `ub` and has a one after them. */
  lemma PadByteValue(ub: Byte, n: nat) returns (q: nat, r: nat)
    requires n < 8
    ensures Pow2(8 - n) == 2 * Pow2(7 - n)
    ensures ub == q * Pow2(8 - n) + r && r < Pow2(8 - n)
    ensures PadByte(ub, n) == q * Pow2(8 - n) + Pow2(7 - n)
  {
    hide Pow2;
    EvenPow2(8 - n);
    Pow2Of8();
    Pow2Sum(n, 8 - n);
    SetBitInByte(ub, Pow2(7 - n), Pow2(n));
    q, r := Quotient(ub, Pow2(8 - n));
  }

  lemma Multiples(x: nat, w: nat, m: nat)
    requires w > 0 && x < m * w
    ensures x / w * w + w <= m * w
  {
    var q := x / w;
    assert q * w <= x;
    var d := m - q;
    assert d * w == m * w - q * w;
    assert d <= 0 ==> d * w <= 0;
    assert d >= 1 ==> d * w >= w;
  }

  lemma PadByteBits(ub: Byte, n: nat)
    requires n < 8
    ensures BitsOf(PadByte(ub, n), 8) == BitsOf(ub, 8)[..n] + [1] + Zeros(7 - n)
    ensures n < 7 ==> PadByte(ub, n) % 2 == 0
  {
    hide PadByte, BitsOf, Zeros, Pow2;
    var q, r := PadByteValue(ub, n);
    SharedBits(ub, PadByte(ub, n), n, 8 - n, q, r, Pow2(7 - n));
    BitsOfPow2(7 - n);
    if n < 7 {
      EvenPow2(7 - n);
      Halves(PadByte(ub, n), q, Pow2(7 - n), Pow2(7 - n));
    }
  }

  /** Two numbers with the same quotient share their high bits. */
  lemma SharedBits(a: nat, b: nat, m: nat, j: nat, q: nat, r: nat, s: nat)
    requires a == q * Pow2(j) + r && b == q * Pow2(j) + s && r < Pow2(j) && s < Pow2(j)
    ensures BitsOf(b, m + j) == BitsOf(a, m + j)[..m] + BitsOf(s, j)
  {
    hide BitsOf, Pow2;
    BitsSplit(a, m, j, q, r);
    BitsSplit(b, m, j, q, s);
  }

  lemma EvenPow2(k: nat)
    requires k > 0
    ensures Pow2(k) == 2 * Pow2(k - 1)
  {
  }

  function ZeroBytes(k: nat): (r: seq<Byte>)
    ensures |r| == k && forall i :: 0 <= i < k ==> r[i] == 0
  {
    seq(k, _ => 0)
  }

  /** `x |= 1` when `marked`. */
  function WithMark(x: Byte, marked: bool): Byte {
    if marked && x % 2 == 0 then x + 1 else x
  }

  /** The last bytes when they fit in the current block. */
  function MarkedPad(v: Variant, ub: Byte, n: nat, ptr: nat, full: bool): (r: seq<Byte>)
    requires n < 8 && ptr < LengthAt(v)
    ensures |r| == LengthAt(v) - ptr
  {
    var u := [PadByte(ub, n)] + ZeroBytes(LengthAt(v) - 1 - ptr);
    u[|u| - 1 := WithMark(u[|u| - 1], full)]
  }

  lemma OneByteBits(x: Byte)
    ensures AllBits([x]) == BitsOf(x, 8)
  {
    hide BitsOf;
    assert [x][..0] == [];
  }

  lemma ZerosJoin(a: nat, b: nat)
    ensures Zeros(a) + Zeros(b) == Zeros(a + b)
  {
  }

  /** The pad byte followed by zero bytes. */
  lemma PadThenZeros(ub: Byte, n: nat, m: nat)
    requires n < 8
    ensures AllBits([PadByte(ub, n)] + ZeroBytes(m)) == BitsOf(ub, 8)[..n] + [1] + Zeros(7 - n + 8 * m)
  {
    hide PadByte, BitsOf, AllBits, Zeros, ZeroBytes;
    AllBitsConcat([PadByte(ub, n)], ZeroBytes(m));
    AllBitsOfZeros(m, ZeroBytes(m));
    OneByteBits(PadByte(ub, n));
    PadByteBits(ub, n);
    ZerosJoin(7 - n, 8 * m);
    var a := BitsOf(ub, 8)[..n] + [1];
    assert a + Zeros(7 - n) + Zeros(8 * m) == a + (Zeros(7 - n) + Zeros(8 * m));
  }

  lemma MarkedPadBits(v: Variant, ub: Byte, n: nat, ptr: nat, full: bool)
    requires n < 8 && 8 * ptr + n <= 8 * LengthAt(v) - 2 && ptr < LengthAt(v)
    ensures AllBits(MarkedPad(v, ub, n, ptr, full))
            == BitsOf(ub, 8)[..n] + [1] + Zeros(8 * LengthAt(v) - 2 - 8 * ptr - n) + [if full then 1 else 0]
  {
    hide PadByte, BitsOf, AllBits, LengthAt, Zeros;
    var m := LengthAt(v) - 1 - ptr;
    var u := [PadByte(ub, n)] + ZeroBytes(m);
    PadThenZeros(ub, n, m);
    var rest := 8 * LengthAt(v) - 2 - 8 * ptr - n;
    var a := BitsOf(ub, 8)[..n] + [1];
    ZerosJoin(rest, 1);
    assert Zeros(1) == [0];
    assert AllBits(u) == a + Zeros(rest) + [0];
    PadByteBits(ub, n);
    assert u[|u| - 1] % 2 == 0;
    if full {
      SetLastBitOfAll(u);
      assert |a + Zeros(rest)| == 8 * |u| - 1;
      assert (a + Zeros(rest) + [0])[8 * |u| - 1 := 1] == a + Zeros(rest) + [1];
    } else {
      assert MarkedPad(v, ub, n, ptr, full) == u;
    }
  }

  /** The last bytes when they need one more block. */
  function SpilledPad(v: Variant, ub: Byte, n: nat, ptr: nat, full: bool): (r: seq<Byte>)
    requires n < 8 && ptr < BlockBytes(v)
    ensures |r| == BlockBytes(v) - ptr + LengthAt(v)
  {
    [PadByte(ub, n)] + ZeroBytes(BlockBytes(v) - 1 - ptr) + (ZeroBytes(LengthAt(v) - 1) + [if full then 1 else 0])
  }

  lemma SpilledPadBits(v: Variant, ub: Byte, n: nat, ptr: nat, full: bool)
    requires n < 8 && ptr < BlockBytes(v)
    ensures AllBits(SpilledPad(v, ub, n, ptr, full))
            == BitsOf(ub, 8)[..n] + [1] + Zeros(BlockBits(v) + 8 * LengthAt(v) - 2 - 8 * ptr - n)
               + [if full then 1 else 0]
  {
    hide PadByte, BitsOf, AllBits, Zeros;
    var m := BlockBytes(v) - 1 - ptr + LengthAt(v) - 1;
    var mark: Byte := if full then 1 else 0;
    MarkBits(mark);
    OneByteBits(mark);
    PadThenZeros(ub, n, m);
    var pad := [PadByte(ub, n)] + ZeroBytes(m);
    assert SpilledPad(v, ub, n, ptr, full) == pad + [mark];
    AllBitsConcat(pad, [mark]);
    ZerosJoin(7 - n + 8 * m, 7);
    var a := BitsOf(ub, 8)[..n] + [1];
    assert a + Zeros(7 - n + 8 * m) + (Zeros(7) + [mark]) == a + (Zeros(7 - n + 8 * m) + Zeros(7)) + [mark];
  }

  lemma MarkBits(mark: Byte)
    requires mark < 2
    ensures BitsOf(mark, 8) == Zeros(7) + [mark]
  {
    hide BitsOf;
    LastBit(mark, 8);
    BitsOfZero(7);
  }

  lemma SplitByWord(v: Variant, total: nat)
    ensures total == Hi(v, total) * Word(v) + Lo(v, total) && Lo(v, total) < Word(v) == Pow2(8 * WordBytes(v))
  {
    hide Pow2;
    Pow2Of32And64();
  }

  /** The two length words are the message length. */
  lemma LengthBits(v: Variant, total: nat)
    requires total < Word(v) * Word(v)
    ensures AllBits(BytesOf(Hi(v, total), WordBytes(v)) + BytesOf(Lo(v, total), WordBytes(v)))
            == BitsOf(total, 16 * WordBytes(v))
  {
    hide BitsOf, BytesOf, AllBits, Pow2, Hi, Lo, Word;
    var k := 8 * WordBytes(v);
    SplitByWord(v, total);
    BitsSplit(total, k, k, Hi(v, total), Lo(v, total));
    AllBitsConcat(BytesOf(Hi(v, total), WordBytes(v)), BytesOf(Lo(v, total), WordBytes(v)));
    BitsOfBytes(Hi(v, total), WordBytes(v));
    BitsOfBytes(Lo(v, total), WordBytes(v));
  }

  // ---------------------------------------------------------------- the biased counter

  /** The counter set up before the final block, so that counting that block gives the
      right value. */
  function Biased(v: Variant, c: Ctx, bitLen: nat): Ctx
    requires bitLen < BlockBits(v)
  {
    if bitLen == 0 then c.(t0 := Word(v) - BlockBits(v), t1 := Word(v) - 1)
    else if c.t0 == 0 then c.(t0 := Word(v) - BlockBits(v) + bitLen, t1 := (c.t1 + Word(v) - 1) % Word(v))
    else c.(t0 := (c.t0 + Word(v) - (BlockBits(v) - bitLen)) % Word(v))
  }

  /** Multiples of the block size stay multiples modulo the word size. */
  lemma AlignedMod(v: Variant, k: nat)
    ensures var r := BlockBits(v) * k % Word(v);
            (r == 0 || r >= BlockBits(v)) && r + BlockBits(v) <= Word(v)
  {
    var n, w := BlockBits(v), Word(v);
    var m := w / n;
    assert w == n * m;
    var q, r := k / m, k % m;
    assert k == q * m + r;
    assert n * k == q * w + n * r by {
      assert n * (q * m) == q * (n * m);
    }
    assert n * r + n <= w by {
      assert n * (r + 1) <= n * m;
    }
    DivRem(n * k, w, q, n * r);
    assert r >= 1 ==> n * r >= n;
  }

  /** Counting the biased block: zero when it holds no message bits, and else the old
      counter plus the bits it holds. */
  lemma BiasedCounters(v: Variant, f: Compress, c: Ctx, block: seq<Byte>, bitLen: nat)
    requires bitLen < BlockBits(v) && c.t1 < Word(v)
    requires (c.t0 == 0 || c.t0 >= BlockBits(v)) && c.t0 + BlockBits(v) <= Word(v)
    ensures var r := Block(v, f, Biased(v, c, bitLen), block);
            && r.h == f(c.h, block, r.t0, r.t1)
            && if bitLen == 0 then r.t0 == 0 && r.t1 == 0 else r.t0 == c.t0 + bitLen && r.t1 == c.t1
  {
    hide Block;
    var w, n := Word(v), BlockBits(v);
    BlockCounters(v, f, Biased(v, c, bitLen), block);
    if bitLen == 0 {
      DivRem(w, w, 1, 0);
    } else if c.t0 == 0 {
      DivRem(w + bitLen, w, 1, bitLen);
      PreviousWraps(c.t1, w);
    } else {
      DivRem(c.t0 + w - (n - bitLen), w, 1, c.t0 - (n - bitLen));
      DivRem(c.t0 + bitLen, w, 0, c.t0 + bitLen);
    }
  }

  /** Counting the biased final block gives the counter of the specification. */
  lemma BiasedBlock(v: Variant, f: Compress, c: Ctx, block: seq<Byte>, k: nat, bitLen: nat)
    requires Counts(v, c, BlockBits(v) * k) && bitLen < BlockBits(v)
    requires BlockBits(v) * k + bitLen < Word(v) * Word(v)
    ensures var total := BlockBits(v) * k + bitLen;
            var t := Counter(v, total, k);
            && Block(v, f, Biased(v, c, bitLen), block).h == f(c.h, block, Lo(v, t), Hi(v, t))
            && Lo(v, total) == (c.t0 + bitLen) % Word(v) && Hi(v, total) == c.t1
  {
    hide Block, Biased, Counter, Word, BlockBits, BlockBytes;
    var t := BlockBits(v) * k;
    AlignedMod(v, k);
    QuotientBound(t, Word(v));
    LastCounter(v, k, bitLen);
    BiasedCounters(v, f, c, block, bitLen);
    AddBelow(t, Word(v), bitLen);
  }

  lemma AddBelow(t: nat, w: nat, x: nat)
    requires w > 0 && t % w + x < w
    ensures (t + x) % w == t % w + x == (t % w + x) % w && (t + x) / w == t / w
    ensures 0 % w == 0 && 0 / w == 0
  {
    DivRem(t + x, w, t / w, t % w + x);
    DivRem(t % w + x, w, 0, t % w + x);
    DivRem(0, w, 0, 0);
  }

  lemma LastCounter(v: Variant, k: nat, bitLen: nat)
    requires bitLen < BlockBits(v)
    ensures Counter(v, BlockBits(v) * k + bitLen, k) == if bitLen == 0 then 0 else BlockBits(v) * k + bitLen
    ensures Counter(v, BlockBits(v) * k + bitLen, k + 1) == 0
  {
    assert BlockBits(v) * (k + 1) == BlockBits(v) * k + BlockBits(v);
  }

  lemma PreviousWraps(x: nat, w: nat)
    requires x < w
    ensures ((x + w - 1) % w + 1) % w == x
  {
    if x == 0 {
      DivRem(x + w - 1, w, 0, w - 1);
      DivRem(w, w, 1, 0);
    } else {
      DivRem(x + w - 1, w, 1, x - 1);
      DivRem(x, w, 0, x);
    }
  }

  // ---------------------------------------------------------------- closing

  /** The length field. */
  function LengthField(v: Variant, th: nat, tl: nat): (r: seq<Byte>)
    ensures |r| == 2 * WordBytes(v)
  {
    BytesOf(th, WordBytes(v)) + BytesOf(tl, WordBytes(v))
  }

  predicate FitsOneBlock(v: Variant, bitLen: nat) {
    bitLen <= 8 * LengthAt(v) - 2
  }

  function FirstSpill(v: Variant, ub: Byte, n: nat, ptr: nat): seq<Byte>
    requires n < 8 && ptr < BlockBytes(v)
  {
    [PadByte(ub, n)] + ZeroBytes(BlockBytes(v) - 1 - ptr)
  }

  function SecondSpill(v: Variant, full: bool, th: nat, tl: nat): seq<Byte> {
    ZeroBytes(LengthAt(v) - 1) + [if full then 1 else 0] + LengthField(v, th, tl)
  }

  /** `blake32_close` and `blake64_close` up to the output of the chaining value. */
  function Closed(v: Variant, f: Compress, c: Ctx, ub: Byte, n: nat, full: bool): Chain
    requires |c.pend| < BlockBytes(v) && n < 8
  {
    var ptr := |c.pend|;
    var bitLen := 8 * ptr + n;
    var tl, th := (c.t0 + bitLen) % Word(v), c.t1;
    var b := Biased(v, c, bitLen);
    if FitsOneBlock(v, bitLen) then
      Feed(v, f, b, MarkedPad(v, ub, n, ptr, full) + LengthField(v, th, tl)).h
    else
      var d := Feed(v, f, b, FirstSpill(v, ub, n, ptr));
      Feed(v, f, d.(t0 := Word(v) - BlockBits(v), t1 := Word(v) - 1), SecondSpill(v, full, th, tl)).h
  }

  /** The bytes that closing adds to a message. */
  function Tail(v: Variant, ub: Byte, n: nat, ptr: nat, full: bool, total: nat): seq<Byte>
    requires n < 8 && ptr < BlockBytes(v)
  {
    var len := LengthField(v, Hi(v, total), Lo(v, total));
    if FitsOneBlock(v, 8 * ptr + n) then MarkedPad(v, ub, n, ptr, full) + len
    else SpilledPad(v, ub, n, ptr, full) + len
  }

  lemma FeedExact(v: Variant, f: Compress, c: Ctx, data: seq<Byte>)
    requires |c.pend| < BlockBytes(v) && |c.pend| + |data| == BlockBytes(v)
    ensures Feed(v, f, c, data) == Block(v, f, c, c.pend + data)
  {
    hide Block, BlockBytes;
    assert data[..|data|] == data && data[|data|..] == [];
  }

  lemma ReferenceNext(v: Variant, f: Compress, iv: Chain, padded: seq<Byte>, total: nat, k: nat, block: seq<Byte>)
    requires At(v, k) + BlockBytes(v) <= |padded|
    requires block == padded[At(v, k)..At(v, k) + BlockBytes(v)]
    ensures At(v, k + 1) == At(v, k) + BlockBytes(v)
    ensures var t := Counter(v, total, k);
            Reference(v, f, iv, padded, total, k + 1)
            == f(Reference(v, f, iv, padded, total, k), block, Lo(v, t), Hi(v, t))
  {
    assert At(v, k + 1) == At(v, k) + BlockBytes(v);
    hide BlockBytes, Counter;
  }

  /** What a context holds after the message `msg`. */
  ghost predicate Holds(v: Variant, f: Compress, iv: Chain, msg: seq<Byte>, k: nat, c: Ctx) {
    && At(v, k) <= |msg| < At(v, k) + BlockBytes(v)
    && c.pend == msg[At(v, k)..]
    && Counts(v, c, BlockBits(v) * k)
    && forall tail: seq<Byte>, total: nat :: total >= 8 * |msg| ==>
         c.h == Reference(v, f, iv, msg + tail, total, k)
  }

  lemma MessageHeld(v: Variant, f: Compress, iv: Chain, msg: seq<Byte>, k: nat)
    requires k == |msg| / BlockBytes(v) && 8 * |msg| < Word(v) * Word(v)
    ensures Holds(v, f, iv, msg, k, Feed(v, f, Init(iv), msg))
  {
    FeedMessage(v, f, iv, msg, k);
    hide Feed, Blocks, Word, BlockBytes, BlockBits;
    BlocksCount(v, f, iv, msg, k);
    forall tail: seq<Byte>, total: nat | total >= 8 * |msg|
      ensures Blocks(v, f, iv, msg, k).h == Reference(v, f, iv, msg + tail, total, k)
    {
      BlocksAreReference(v, f, iv, msg, tail, total, k);
    }
  }

  lemma HeldFacts(v: Variant, f: Compress, iv: Chain, msg: seq<Byte>, k: nat, c: Ctx, tail: seq<Byte>, total: nat)
    requires Holds(v, f, iv, msg, k, c) && total >= 8 * |msg|
    ensures At(v, k) <= |msg| && c.pend == msg[At(v, k)..] && |c.pend| < BlockBytes(v)
    ensures Counts(v, c, BlockBits(v) * k)
    ensures c.h == Reference(v, f, iv, msg + tail, total, k)
  {
    hide Reference, Counts;
  }

  /** Completing the current block with `part` from a biased counter. */
  lemma FinishBlock(v: Variant, f: Compress, iv: Chain, msg: seq<Byte>, k: nat, c: Ctx, n: nat, part: seq<Byte>,
                    tail: seq<Byte>)
    requires Holds(v, f, iv, msg, k, c) && n < 8 && 8 * |msg| + n < Word(v) * Word(v)
    requires |c.pend| + |part| == BlockBytes(v) && part <= tail
    ensures At(v, k + 1) <= |msg + tail|
    ensures var total, bitLen := 8 * |msg| + n, 8 * |c.pend| + n;
            var d := Feed(v, f, Biased(v, c, bitLen), part);
            && d.h == Reference(v, f, iv, msg + tail, total, k + 1) && d.pend == []
            && total == BlockBits(v) * k + bitLen
            && Lo(v, total) == (c.t0 + bitLen) % Word(v) && Hi(v, total) == c.t1
  {
    hide Block, Biased, Counter, Word, Feed, Holds, Counts, Reference, BlockBytes, BlockBits, At, Hi, Lo;
    var total, bitLen := 8 * |msg| + n, 8 * |c.pend| + n;
    NextBlock(v, k);
    HeldFacts(v, f, iv, msg, k, c, tail, total);
    assert total == BlockBits(v) * k + bitLen;
    BiasedBlock(v, f, c, c.pend + part, k, bitLen);
    BiasedBuffer(v, c, bitLen);
    FeedExact(v, f, Biased(v, c, bitLen), part);
    assert c.pend + part == (msg + tail)[At(v, k)..At(v, k) + BlockBytes(v)];
    ReferenceNext(v, f, iv, msg + tail, total, k, c.pend + part);
  }

  lemma CloseShort(v: Variant, f: Compress, iv: Chain, msg: seq<Byte>, k: nat, c: Ctx, ub: Byte, n: nat, full: bool)
    requires Holds(v, f, iv, msg, k, c) && n < 8 && 8 * |msg| + n < Word(v) * Word(v)
    requires FitsOneBlock(v, 8 * |c.pend| + n)
    ensures var total := 8 * |msg| + n;
            var padded := msg + Tail(v, ub, n, |c.pend|, full, total);
            && |padded| == At(v, k + 1)
            && Closed(v, f, c, ub, n, full) == Reference(v, f, iv, padded, total, k + 1)
  {
    hide Biased, Word, MarkedPad, LengthField, Feed, Reference, Holds, BlockBits;
    HeldFacts(v, f, iv, msg, k, c, [], 8 * |msg|);
    var tail := Tail(v, ub, n, |c.pend|, full, 8 * |msg| + n);
    FinishBlock(v, f, iv, msg, k, c, n, tail, tail);
  }

  lemma BiasedBuffer(v: Variant, c: Ctx, bitLen: nat)
    requires bitLen < BlockBits(v)
    ensures Biased(v, c, bitLen).pend == c.pend && Biased(v, c, bitLen).h == c.h
  {
  }

  /** The extra block counts as zero. */
  lemma ExtraBlock(v: Variant, f: Compress, c: Ctx, block: seq<Byte>)
    ensures Block(v, f, c.(t0 := Word(v) - BlockBits(v), t1 := Word(v) - 1), block).h
            == f(c.h, block, Lo(v, 0), Hi(v, 0))
  {
    DivRem(Word(v), Word(v), 1, 0);
  }

  lemma SpillParts(v: Variant, ub: Byte, n: nat, ptr: nat, full: bool, total: nat)
    requires n < 8 && ptr < BlockBytes(v) && !FitsOneBlock(v, 8 * ptr + n)
    ensures var first, second := FirstSpill(v, ub, n, ptr), SecondSpill(v, full, Hi(v, total), Lo(v, total));
            && Tail(v, ub, n, ptr, full, total) == first + second
            && |first| == BlockBytes(v) - ptr && |second| == BlockBytes(v)
  {
    hide Word, LengthField, PadByte, ZeroBytes;
  }

  /** An extra block after a finished one. */
  lemma AddBlock(v: Variant, f: Compress, iv: Chain, padded: seq<Byte>, total: nat, k: nat, d: Ctx, block: seq<Byte>)
    requires At(v, k) <= |padded| && d.h == Reference(v, f, iv, padded, total, k) && d.pend == []
    requires |block| == BlockBytes(v) && At(v, k) + BlockBytes(v) == |padded|
    requires block == padded[At(v, k)..] && Counter(v, total, k) == 0
    ensures |padded| == At(v, k + 1)
    ensures Feed(v, f, d.(t0 := Word(v) - BlockBits(v), t1 := Word(v) - 1), block).h
            == Reference(v, f, iv, padded, total, k + 1)
  {
    hide Block, Counter, Word, Feed, Reference, BlockBytes, BlockBits;
    var d' := d.(t0 := Word(v) - BlockBits(v), t1 := Word(v) - 1);
    FeedExact(v, f, d', block);
    ExtraBlock(v, f, d, block);
    assert d'.pend + block == block;
    ReferenceNext(v, f, iv, padded, total, k, block);
  }

  lemma CloseLong(v: Variant, f: Compress, iv: Chain, msg: seq<Byte>, k: nat, c: Ctx, ub: Byte, n: nat, full: bool,
                  tail: seq<Byte>)
    requires Holds(v, f, iv, msg, k, c) && n < 8 && 8 * |msg| + n < Word(v) * Word(v) && |c.pend| < BlockBytes(v)
    requires !FitsOneBlock(v, 8 * |c.pend| + n) && tail == Tail(v, ub, n, |c.pend|, full, 8 * |msg| + n)
    ensures |msg + tail| == At(v, k + 2)
    ensures Closed(v, f, c, ub, n, full) == Reference(v, f, iv, msg + tail, 8 * |msg| + n, k + 2)
  {
    hide Biased, Counter, Word, FirstSpill, SecondSpill, Feed, Tail, Reference, Holds, BlockBits, BlockBytes,
         Counts, FitsOneBlock, Hi, Lo, At;
    NextBlock(v, k);
    HeldFacts(v, f, iv, msg, k, c, [], 8 * |msg|);
    var total, ptr := 8 * |msg| + n, |c.pend|;
    var first, second := FirstSpill(v, ub, n, ptr), SecondSpill(v, full, Hi(v, total), Lo(v, total));
    SpillParts(v, ub, n, ptr, full, total);
    FinishBlock(v, f, iv, msg, k, c, n, first, tail);
    BiasedBuffer(v, c, 8 * ptr + n);
    LastCounter(v, k, 8 * ptr + n);
    var at := At(v, k + 1);
    assert at == At(v, k) + BlockBytes(v) == |msg| + |first|;
    assert second == (msg + tail)[at..];
    AddBlock(v, f, iv, msg + tail, total, k + 1, Feed(v, f, Biased(v, c, 8 * ptr + n), first), second);
  }

  /** The padding rule is met by the bytes that closing adds. */
  lemma TailBits(v: Variant, msg: seq<Byte>, ub: Byte, n: nat, ptr: nat, full: bool, k: nat)
    requires n < 8 && ptr < BlockBytes(v) && |msg| == At(v, k) + ptr && InField(v, 8 * |msg| + n)
    ensures AllBits(msg + Tail(v, ub, n, ptr, full, 8 * |msg| + n))
            == Padding(v, AllBits(msg) + BitsOf(ub, 8)[..n], full)
  {
    hide AllBits, BitsOf, Zeros, MarkedPad, SpilledPad, LengthField, Word, WordBytes, BlockBits, BlockBytes, Hi, Lo,
         Tail, Padding, FitsOneBlock, At, LengthAt, PadCount, InField;
    var total := 8 * |msg| + n;
    var len := LengthField(v, Hi(v, total), Lo(v, total));
    FieldBits(v, total);
    var zeros := PadZeros(v, total, ptr, n, k);
    var bits, mark := BitsOf(ub, 8)[..n], [if full then 1 else 0];
    var pad := EitherPad(v, ub, n, ptr, full, zeros);
    TailIs(v, msg, ub, n, ptr, full, total, pad, len);
    PaddedParts(msg, pad, len, bits, zeros, mark);
    PaddingIs(v, AllBits(msg) + bits, full, total, zeros);
  }

  lemma PaddedParts(msg: seq<Byte>, pad: seq<Byte>, len: seq<Byte>, bits: seq<Bit>, zeros: nat, mark: seq<Bit>)
    requires AllBits(pad) == bits + [1] + Zeros(zeros) + mark
    ensures AllBits(msg + pad + len) == AllBits(msg) + bits + [1] + Zeros(zeros) + mark + AllBits(len)
  {
    hide AllBits, Zeros;
    AllBitsConcat(msg + pad, len);
    AllBitsConcat(msg, pad);
    Regroup(AllBits(msg), bits, [1], Zeros(zeros), mark);
  }

  /** The number fits the length field. */
  predicate InField(v: Variant, total: nat) {
    total < Word(v) * Word(v)
  }

  lemma EitherPad(v: Variant, ub: Byte, n: nat, ptr: nat, full: bool, zeros: nat) returns (pad: seq<Byte>)
    requires n < 8 && ptr < BlockBytes(v) && (FitsOneBlock(v, 8 * ptr + n) ==> ptr < LengthAt(v))
    requires zeros == 8 * LengthAt(v) - 2 - 8 * ptr - n + (if FitsOneBlock(v, 8 * ptr + n) then 0 else BlockBits(v))
    ensures pad
      == if FitsOneBlock(v, 8 * ptr + n) then MarkedPad(v, ub, n, ptr, full) else SpilledPad(v, ub, n, ptr, full)
    ensures AllBits(pad) == BitsOf(ub, 8)[..n] + [1] + Zeros(zeros) + [if full then 1 else 0]
  {
    hide AllBits, BitsOf, Zeros, MarkedPad, SpilledPad, BlockBits, BlockBytes;
    if FitsOneBlock(v, 8 * ptr + n) {
      MarkedPadBits(v, ub, n, ptr, full);
      pad := MarkedPad(v, ub, n, ptr, full);
    } else {
      SpilledPadBits(v, ub, n, ptr, full);
      pad := SpilledPad(v, ub, n, ptr, full);
    }
  }

  lemma Regroup(a: seq<Bit>, b: seq<Bit>, c: seq<Bit>, d: seq<Bit>, e: seq<Bit>)
    ensures a + (b + c + d + e) == a + b + c + d + e
  {
  }

  lemma TailIs(v: Variant, msg: seq<Byte>, ub: Byte, n: nat, ptr: nat, full: bool, total: nat, pad: seq<Byte>,
               len: seq<Byte>)
    requires n < 8 && ptr < BlockBytes(v) && (FitsOneBlock(v, 8 * ptr + n) ==> ptr < LengthAt(v))
    requires len == LengthField(v, Hi(v, total), Lo(v, total))
    requires pad
      == if FitsOneBlock(v, 8 * ptr + n) then MarkedPad(v, ub, n, ptr, full) else SpilledPad(v, ub, n, ptr, full)
    ensures msg + Tail(v, ub, n, ptr, full, total) == msg + pad + len
  {
    hide MarkedPad, SpilledPad, LengthField, Word, BlockBytes, FitsOneBlock, LengthAt;
  }

  lemma PaddingIs(v: Variant, msg: seq<Bit>, full: bool, total: nat, zeros: nat)
    requires zeros == PadCount(v, total) && |msg| == total
    ensures Padding(v, msg, full)
            == msg + [1] + Zeros(zeros) + [if full then 1 else 0] + BitsOf(total, 16 * WordBytes(v))
  {
    hide BitsOf, Zeros, PadCount;
  }

  /** The number of zeros that closing adds is the one of the padding rule. */
  lemma PadZeros(v: Variant, total: nat, ptr: nat, n: nat, k: nat) returns (zeros: nat)
    requires n < 8 && ptr < BlockBytes(v) && total == 8 * (At(v, k) + ptr) + n
    ensures PadCount(v, total) == zeros
    ensures zeros == 8 * LengthAt(v) - 2 - 8 * ptr - n + (if FitsOneBlock(v, 8 * ptr + n) then 0 else BlockBits(v))
    ensures FitsOneBlock(v, 8 * ptr + n) ==> ptr < LengthAt(v)
  {
    zeros := 8 * LengthAt(v) - 2 - 8 * ptr - n + (if FitsOneBlock(v, 8 * ptr + n) then 0 else BlockBits(v));
    assert total == BlockBits(v) * k + (8 * ptr + n);
    ZeroCount(v, total, k, 8 * ptr + n, zeros);
  }

  lemma FieldBits(v: Variant, total: nat)
    requires InField(v, total)
    ensures AllBits(LengthField(v, Hi(v, total), Lo(v, total))) == BitsOf(total, 16 * WordBytes(v))
  {
    hide AllBits, BitsOf, Word;
    LengthBits(v, total);
  }

  lemma ZeroCount(v: Variant, total: nat, k: nat, bitLen: nat, zeros: nat)
    requires total == BlockBits(v) * k + bitLen && bitLen < BlockBits(v) && zeros < BlockBits(v)
    requires zeros == BlockBits(v) - 2 - 16 * WordBytes(v) - bitLen
          || zeros == 2 * BlockBits(v) - 2 - 16 * WordBytes(v) - bitLen
    ensures PadCount(v, total) == zeros
  {
    var w := BlockBits(v);
    var x := w - 2 - 16 * WordBytes(v) - total;
    if x == zeros - w * k {
      assert x == (0 - k) * w + zeros;
      DivRem(x, w, 0 - k, zeros);
    } else {
      assert x == (0 - k - 1) * w + zeros;
      DivRem(x, w, 0 - k - 1, zeros);
    }
  }

  /** For any message shorter than the length field allows, closing after any sequence
      of updates gives the chaining value of the specification over the padded message. */
  lemma BlakeCorrect(v: Variant, f: Compress, iv: Chain, msg: seq<Byte>, ub: Byte, n: nat, full: bool)
    returns (padded: seq<Byte>, blocks: nat)
    requires n < 8 && 8 * |msg| + n < Word(v) * Word(v)
    ensures AllBits(padded) == Padding(v, AllBits(msg) + BitsOf(ub, 8)[..n], full)
    ensures |padded| == At(v, blocks)
    ensures Closed(v, f, Feed(v, f, Init(iv), msg), ub, n, full)
            == Reference(v, f, iv, padded, 8 * |msg| + n, blocks)
  {
    hide AllBits, BitsOf, Word, Feed, Closed, Tail, Reference, Padding, Counts;
    var k := |msg| / BlockBytes(v);
    MessageHeld(v, f, iv, msg, k);
    var c := Feed(v, f, Init(iv), msg);
    var total := 8 * |msg| + n;
    TailBits(v, msg, ub, n, |c.pend|, full, k);
    padded := msg + Tail(v, ub, n, |c.pend|, full, total);
    if FitsOneBlock(v, 8 * |c.pend| + n) {
      CloseShort(v, f, iv, msg, k, c, ub, n, full);
      blocks := k + 1;
    } else {
      CloseLong(v, f, iv, msg, k, c, ub, n, full, Tail(v, ub, n, |c.pend|, full, total));
      blocks := k + 2;
    }
  }

  /** `padded` is the padded message, in `blocks` blocks. */
  ghost predicate PaddedTo(v: Variant, msg: seq<Byte>, ub: Byte, n: nat, full: bool, padded: seq<Byte>, blocks: nat)
    requires n < 8
  {
    AllBits(padded) == Padding(v, AllBits(msg) + BitsOf(ub, 8)[..n], full) && |padded| == At(v, blocks)
  }

  /** `out` is what the specification assigns to a message of bytes and `n` more bits. */
  ghost predicate IsHash(v: Variant, f: Compress, iv: Chain, msg: seq<Byte>, ub: Byte, n: nat, full: bool, out: Chain)
    requires n < 8
  {
    exists padded, blocks ::
      PaddedTo(v, msg, ub, n, full, padded, blocks) && out == Reference(v, f, iv, padded, 8 * |msg| + n, blocks)
  }

  /** The specification assigns at most one value. */
  lemma HashUnique(v: Variant, f: Compress, iv: Chain, msg: seq<Byte>, ub: Byte, n: nat, full: bool, a: Chain, b: Chain)
    requires n < 8 && IsHash(v, f, iv, msg, ub, n, full, a) && IsHash(v, f, iv, msg, ub, n, full, b)
    ensures a == b
  {
    hide AllBits, BitsOf, Padding, Reference;
    var p, j: nat :| PaddedTo(v, msg, ub, n, full, p, j) && a == Reference(v, f, iv, p, 8 * |msg| + n, j);
    var q, k: nat :| PaddedTo(v, msg, ub, n, full, q, k) && b == Reference(v, f, iv, q, 8 * |msg| + n, k);
    BitsDetermineBytes(p, q);
    assert j == k;
  }
}

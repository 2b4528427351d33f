/** The streaming layer of CubeHash (src/cubehash.c) over 32-byte blocks. */
module CubeContext {
  import opened Bits
  import opened CubeHash
  import Blake

  const BLOCK := 32

  // ---------------------------------------------------------------- the specification

  /** A little-endian word of a block. */
  function LeWord(b: seq<Byte>, at: nat): Word
    requires at + 4 <= |b|
  {
    (b[at] as bv32) | (b[at + 1] as bv32 << 8) | (b[at + 2] as bv32 << 16) | (b[at + 3] as bv32 << 24)
  }

  /** `INPUT_BLOCK`: a block mixed into the first eight words. */
  function Input(x: State, b: seq<Byte>): State
    requires |b| == BLOCK
  {
    x.(lo := x.lo.(x0 := Xor(x.lo.x0, LeWord(b, 0)), x1 := Xor(x.lo.x1, LeWord(b, 4)),
                   x2 := Xor(x.lo.x2, LeWord(b, 8)), x3 := Xor(x.lo.x3, LeWord(b, 12)),
                   x4 := Xor(x.lo.x4, LeWord(b, 16)), x5 := Xor(x.lo.x5, LeWord(b, 20)),
                   x6 := Xor(x.lo.x6, LeWord(b, 24)), x7 := Xor(x.lo.x7, LeWord(b, 28))))
  }

  /** The state after the first `k` blocks of `msg`. */
  function Absorbed(iv: State, msg: seq<Byte>, k: nat): State
    requires BLOCK * k <= |msg|
  {
    if k == 0 then iv else Rounds(Input(Absorbed(iv, msg, k - 1), msg[BLOCK * (k - 1)..BLOCK * k]), 16)
  }

  /** A one and the fewest zeros that fill a block. */
  function Padding(msg: seq<Bit>): seq<Bit> {
    msg + [1] + Zeros((8 * BLOCK - 1 - |msg|) % (8 * BLOCK))
  }

  /** Finalization: flip the last bit of the last word, then ten times sixteen rounds. */
  function Finalized(x: State): State {
    Rounds(x.(hi := x.hi.(xf := Xor(x.hi.xf, 1))), 160)
  }

  /** Blocks depend on their own bytes only. */
  lemma {:induction false} AbsorbedPrefix(iv: State, a: seq<Byte>, b: seq<Byte>, k: nat)
    requires BLOCK * k <= |a|
    ensures Absorbed(iv, a + b, k) == Absorbed(iv, a, k)
  {
    hide Rounds, Input;
    if k > 0 {
      AbsorbedPrefix(iv, a, b, k - 1);
      assert (a + b)[BLOCK * (k - 1)..BLOCK * k] == a[BLOCK * (k - 1)..BLOCK * k];
    }
  }

  // ---------------------------------------------------------------- the context

  class Context {
    const iv: State
    const unroll: nat
    const buf: array<Byte>
    var ptr: nat
    var x: State
    ghost var msg: seq<Byte>

    /** All full blocks of the message are absorbed, the rest is buffered. */
    ghost predicate Valid()
      reads this, buf
    {
      && unroll in {2, 4, 8, 16}
      && buf.Length == BLOCK && ptr == |msg| % BLOCK
      && x == Absorbed(iv, msg, |msg| / BLOCK)
      && buf[..ptr] == msg[|msg| - ptr..]
    }

    constructor (iv: State, unroll: nat)
      requires unroll in {2, 4, 8, 16}
      ensures Valid() && fresh(buf) && this.iv == iv && msg == []
    {
      this.iv, this.unroll, x, ptr, msg := iv, unroll, iv, 0, [];
      buf := new Byte[BLOCK](_ => 0);
    }

    /** `k` blocks are absorbed, and the rest of the message is in the buffer. */
    ghost predicate Holds(k: nat)
      reads this, buf
    {
      && unroll in {2, 4, 8, 16}
      && buf.Length == BLOCK && ptr <= BLOCK && |msg| == BLOCK * k + ptr
      && x == Absorbed(iv, msg, k)
      && buf[..ptr] == msg[|msg| - ptr..]
    }

    method Fill(chunk: seq<Byte>, ghost k: nat)
      requires Holds(k) && ptr + |chunk| <= BLOCK
      modifies this`ptr, this`msg, buf
      ensures Holds(k) && msg == old(msg) + chunk && ptr == old(ptr) + |chunk|
    {
      hide Absorbed;
      forall i | 0 <= i < |chunk| {
        buf[ptr + i] := chunk[i];
      }
      ptr := ptr + |chunk|;
      AbsorbedPrefix(iv, msg, chunk, k);
      msg := msg + chunk;
      assert buf[..ptr] == msg[|msg| - ptr..];
    }

    method Flush(ghost k: nat)
      requires Holds(k) && ptr == BLOCK
      modifies this`ptr, this`x
      ensures Holds(k + 1) && ptr == 0
    {
      hide Rounds, Input, Absorbed;
      assert buf[..] == msg[BLOCK * k..BLOCK * (k + 1)];
      NextBlock(iv, msg, k);
      x := Input(x, buf[..]);
      x := SixteenRounds(x, unroll);
      ptr := 0;
      assert buf[..0] == msg[|msg|..];
    }

    /** The body of the loop: buffers a chunk and absorbs the buffer once it is full. */
    method Chunk(chunk: seq<Byte>)
      requires Valid() && ptr + |chunk| <= BLOCK
      modifies this`ptr, this`x, this`msg, buf
      ensures Valid() && msg == old(msg) + chunk
    {
      hide Absorbed;
      ghost var k := |msg| / BLOCK;
      Fill(chunk, k);
      if ptr == BLOCK {
        Flush(k);
        DivRem(|msg|, BLOCK, k + 1, ptr);
      } else {
        DivRem(|msg|, BLOCK, k, ptr);
      }
    }

    lemma PtrInBlock()
      requires Valid()
      ensures ptr < BLOCK
    {
    }

    /** `cubehash_core`: absorbs `data` in chunks. */
    method Update(data: seq<Byte>)
      requires Valid()
      modifies this`ptr, this`x, this`msg, buf
      ensures Valid() && msg == old(msg) + data
    {
      hide Absorbed, Valid;
      PtrInBlock();
      if |data| < BLOCK - ptr {
        Chunk(data);
        return;
      }
      var pos := 0;
      assert data[..0] == [];
      while pos < |data|
        invariant pos <= |data| && Valid() && msg == old(msg) + data[..pos]
      {
        PtrInBlock();
        var clen := BLOCK - ptr;
        if clen > |data| - pos {
          clen := |data| - pos;
        }
        Chunk(data[pos..pos + clen]);
        assert data[..pos + clen] == data[..pos] + data[pos..pos + clen];
        pos := pos + clen;
      }
      assert data[..pos] == data;
    }

    /** `cubehash_close` up to the output of the words. */
    method Close(ub: Byte, n: nat) returns (out: State, ghost padded: seq<Byte>)
      requires Valid() && n < 8
      modifies this`ptr, this`x, this`msg, buf
      ensures AllBits(padded) == Padding(AllBits(old(msg)) + BitsOf(ub, 8)[..n])
      ensures |padded| % BLOCK == 0 && out == x == Finalized(Absorbed(iv, padded, |padded| / BLOCK))
    {
      hide Rounds, Input, Absorbed, AllBits, BitsOf, Padding, Blake.PadByte;
      var at := ptr;
      ghost var k := |msg| / BLOCK;
      assert |msg| == BLOCK * k + at && at < BLOCK;
      var tail := [Blake.PadByte(ub, n)] + Blake.ZeroBytes(BLOCK - 1 - at);
      PaddedBits(msg, ub, n, at);
      Fill(tail, k);
      padded := msg;
      DivRem(|padded|, BLOCK, k + 1, 0);
      assert buf[..] == padded[BLOCK * k..BLOCK * (k + 1)];
      NextBlock(iv, padded, k);
      x := Input(x, buf[..]);
      ghost var start := x;
      for i := 0 to 11
        invariant i == 0 ==> x == start
        invariant i > 0 ==> x == Rounds(Marked(Rounds(start, 16)), 16 * (i - 1))
      {
        ghost var was := x;
        x := SixteenRounds(x, unroll);
        if i == 0 {
          x := x.(hi := x.hi.(xf := Xor(x.hi.xf, 1)));
          NoRounds(x);
        } else {
          RoundsAdd(Marked(Rounds(start, 16)), 16 * (i - 1), 16);
        }
      }
      out := x;
    }
  }

  ghost function Marked(x: State): State {
    x.(hi := x.hi.(xf := Xor(x.hi.xf, 1)))
  }

  lemma NoRounds(x: State)
    ensures Rounds(x, 0) == x
  {
  }

  lemma NextBlock(iv: State, msg: seq<Byte>, k: nat)
    requires BLOCK * (k + 1) <= |msg|
    ensures Absorbed(iv, msg, k + 1) == Rounds(Input(Absorbed(iv, msg, k), msg[BLOCK * k..BLOCK * (k + 1)]), 16)
  {
    hide Rounds, Input;
  }

  lemma PaddedBits(msg: seq<Byte>, ub: Byte, n: nat, ptr: nat)
    requires n < 8 && ptr == |msg| % BLOCK
    ensures AllBits(msg + ([Blake.PadByte(ub, n)] + Blake.ZeroBytes(BLOCK - 1 - ptr)))
            == Padding(AllBits(msg) + BitsOf(ub, 8)[..n])
  {
    hide AllBits, BitsOf, Zeros, Blake.PadByte, Blake.ZeroBytes, Padding;
    var tail := [Blake.PadByte(ub, n)] + Blake.ZeroBytes(BLOCK - 1 - ptr);
    AllBitsConcat(msg, tail);
    Blake.PadThenZeros(ub, n, BLOCK - 1 - ptr);
    var zeros := 7 - n + 8 * (BLOCK - 1 - ptr);
    var a, b := AllBits(msg), BitsOf(ub, 8)[..n];
    ZeroCount(|msg|, n, ptr, zeros);
    Join(a, b, [1], Zeros(zeros));
    PaddingIs(a + b, zeros);
  }

  lemma Join(a: seq<Bit>, b: seq<Bit>, c: seq<Bit>, d: seq<Bit>)
    ensures a + (b + c + d) == a + b + c + d
  {
  }

  lemma ZeroCount(len: nat, n: nat, ptr: nat, zeros: nat)
    requires n < 8 && ptr == len % BLOCK && zeros == 7 - n + 8 * (BLOCK - 1 - ptr)
    ensures (8 * BLOCK - 1 - (8 * len + n)) % (8 * BLOCK) == zeros
  {
    DivRem(8 * BLOCK - 1 - (8 * len + n), 8 * BLOCK, 0 - len / BLOCK, zeros);
  }

  lemma PaddingIs(msg: seq<Bit>, zeros: nat)
    requires zeros == (8 * BLOCK - 1 - |msg|) % (8 * BLOCK)
    ensures Padding(msg) == msg + [1] + Zeros(zeros)
  {
  }
}

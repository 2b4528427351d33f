/** The BLAKE context (src/blake.c) as a mutable object with a fixed buffer. */
module BlakeContext {
  import opened Bits
  import opened Blake

  class Context {
    const v: Variant
    const f: Compress
    const buf: array<Byte>
    var ptr: nat
    var h: Chain
    var t0: nat
    var t1: nat

    ghost predicate Valid()
      reads this
    {
      buf.Length == BlockBytes(v) && ptr < buf.Length && t0 < Word(v) && t1 < Word(v)
    }

    ghost function View(): Ctx
      requires Valid()
      reads this, buf
    {
      Ctx(h, t0, t1, buf[..ptr])
    }

    /** `blake32_init` and `blake64_init`. */
    constructor (v: Variant, f: Compress, iv: Chain)
      ensures this.v == v && this.f == f && Valid() && fresh(buf) && View() == Init(iv)
    {
      this.v, this.f, h := v, f, iv;
      buf := new Byte[BlockBytes(v)](_ => 0);
      t0, t1, ptr := 0, 0, 0;
    }

    /** Appends `data[pos..pos + n]` to the buffer. */
    method Copy(data: seq<Byte>, pos: nat, n: nat)
      requires buf.Length == BlockBytes(v) && ptr + n <= buf.Length && pos + n <= |data|
      modifies this`ptr, buf
      ensures ptr == old(ptr) + n && buf[..ptr] == old(buf[..ptr]) + data[pos..pos + n]
    {
      forall i | 0 <= i < n {
        buf[ptr + i] := data[pos + i];
      }
      ptr := ptr + n;
    }

    /** Counts and compresses the full buffer. */
    method CompressBuffer()
      requires buf.Length == BlockBytes(v) && ptr == buf.Length && t0 < Word(v) && t1 < Word(v)
      modifies this`ptr, this`h, this`t0, this`t1
      ensures Valid() && View() == Block(v, f, Ctx(old(h), old(t0), old(t1), []), buf[..])
    {
      t0 := (t0 + BlockBits(v)) % Word(v);
      if t0 < BlockBits(v) {
        t1 := (t1 + 1) % Word(v);
      }
      h := f(h, buf[..], t0, t1);
      ptr := 0;
    }

    /** `blake32` and `blake64`: absorbs `data` in chunks. */
    method Update(data: seq<Byte>)
      requires Valid()
      modifies this`ptr, this`h, this`t0, this`t1, buf
      ensures Valid() && View() == Feed(v, f, old(View()), data)
    {
      hide Block, Word, BlockBytes, BlockBits;
      if |data| < buf.Length - ptr {
        Copy(data, 0, |data|);
        assert data[0..|data|] == data;
        return;
      }
      ghost var start := View();
      var pos := 0;
      assert data[0..] == data;
      while pos < |data|
        invariant pos <= |data| && Valid()
        invariant Feed(v, f, View(), data[pos..]) == Feed(v, f, start, data)
      {
        ghost var c, rest := View(), data[pos..];
        var clen := buf.Length - ptr;
        if clen > |data| - pos {
          clen := |data| - pos;
        }
        Copy(data, pos, clen);
        pos := pos + clen;
        assert rest[..clen] == data[pos - clen..pos] && rest[clen..] == data[pos..];
        if ptr == buf.Length {
          assert buf[..] == c.pend + rest[..clen];
          CompressBuffer();
          BlockIgnoresBuffer(v, f, c, [], c.pend + rest[..clen]);
        } else {
          assert rest[..clen] == rest;
        }
      }
      assert data[pos..] == [];
      assert View().pend + [] == View().pend;
    }

    /** `blake32_close` and `blake64_close` up to the output of the chaining value. */
    method Close(ub: Byte, n: nat, full: bool) returns (out: Chain)
      requires Valid() && n < 8
      modifies this`ptr, this`h, this`t0, this`t1, buf
      ensures Valid() && out == h && out == Closed(v, f, old(View()), ub, n, full)
    {
      hide Feed, MarkedPad, LengthField, PadByte, Block;
      ghost var c := View();
      var at := ptr;
      var bitLen := 8 * at + n;
      var tl, th := (t0 + bitLen) % Word(v), t1;
      if at == 0 && n == 0 {
        t0, t1 := Word(v) - BlockBits(v), Word(v) - 1;
      } else if t0 == 0 {
        t0, t1 := Word(v) - BlockBits(v) + bitLen, (t1 + Word(v) - 1) % Word(v);
      } else {
        t0 := (t0 + Word(v) - (BlockBits(v) - bitLen)) % Word(v);
      }
      assert View() == Biased(v, c, bitLen);
      if FitsOneBlock(v, bitLen) {
        Update(MarkedPad(v, ub, n, at, full) + LengthField(v, th, tl));
      } else {
        Update(FirstSpill(v, ub, n, at));
        t0, t1 := Word(v) - BlockBits(v), Word(v) - 1;
        Update(SecondSpill(v, full, th, tl));
      }
      out := h;
    }
  }

  /** Hashing a message that arrives in pieces: the result depends on their
      concatenation only, and is the specified one. */
  method HashPieces(v: Variant, f: Compress, iv: Chain, pieces: seq<seq<Byte>>, ub: Byte, n: nat, full: bool)
    returns (out: Chain)
    requires n < 8 && 8 * |Joined(pieces)| + n < Word(v) * Word(v)
    ensures IsHash(v, f, iv, Joined(pieces), ub, n, full, out)
  {
    hide Feed, Closed, Reference, Padding, AllBits, BitsOf, Word;
    var ctx := new Context(v, f, iv);
    FeedNothing(v, f, iv);
    assert pieces[..0] == [];
    for i := 0 to |pieces|
      invariant ctx.Valid() && fresh(ctx) && fresh(ctx.buf)
      invariant ctx.View() == Feed(v, f, Init(iv), Joined(pieces[..i]))
    {
      ctx.Update(pieces[i]);
      FeedConcat(v, f, Init(iv), Joined(pieces[..i]), pieces[i]);
      assert pieces[..i + 1][..i] == pieces[..i];
    }
    assert pieces[..|pieces|] == pieces;
    out := ctx.Close(ub, n, full);
    ghost var padded, blocks := BlakeCorrect(v, f, iv, Joined(pieces), ub, n, full);
    assert PaddedTo(v, Joined(pieces), ub, n, full, padded, blocks);
  }

  function Joined(pieces: seq<seq<Byte>>): seq<Byte> {
    if pieces == [] then [] else Joined(pieces[..|pieces| - 1]) + pieces[|pieces| - 1]
  }

  lemma FeedNothing(v: Variant, f: Compress, iv: Chain)
    ensures Feed(v, f, Init(iv), []) == Init(iv)
  {
  }
}

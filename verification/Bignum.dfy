/** The number codecs of CBigNum (src/bignum.h) over the sign-magnitude big-endian MPI
    format: machine integers and the compact difficulty encoding. */
module Bignum {
  import opened Bits

  // ---------------------------------------------------------------- magnitudes

  /** The number a big-endian byte string denotes. */
  function Value(b: seq<Byte>): nat {
    if b == [] then 0 else Value(b[..|b| - 1]) * 256 + b[|b| - 1]
  }

  /** The shortest big-endian byte string of a number. */
  function Magnitude(n: nat): seq<Byte> {
    if n == 0 then [] else Magnitude(n / 256) + [n % 256]
  }

  lemma {:induction false} MagnitudeValue(n: nat)
    ensures Value(Magnitude(n)) == n
    ensures n > 0 ==> Magnitude(n) != [] && Magnitude(n)[0] != 0
  {
    if n > 0 {
      MagnitudeValue(n / 256);
      assert Magnitude(n)[..|Magnitude(n)| - 1] == Magnitude(n / 256);
    }
  }

  lemma {:induction false} ValueMagnitude(b: seq<Byte>)
    requires b == [] || b[0] != 0
    ensures Magnitude(Value(b)) == b
  {
    if b != [] {
      var n := |b| - 1;
      ValueMagnitude(b[..n]);
      if n > 0 {
        assert b[..n][0] == b[0];
        NonzeroValue(b[..n]);
      }
      var v := Value(b[..n]);
      assert (v * 256 + b[n]) / 256 == v && (v * 256 + b[n]) % 256 == b[n];
      assert b == b[..n] + [b[n]];
    }
  }

  lemma {:induction false} NonzeroValue(b: seq<Byte>)
    requires b != [] && b[0] != 0
    ensures Value(b) > 0
  {
    if |b| > 1 {
      assert b[..|b| - 1][0] == b[0];
      NonzeroValue(b[..|b| - 1]);
    }
  }

  lemma {:induction false} LeadingZero(b: seq<Byte>)
    ensures Value([0] + b) == Value(b)
  {
    if b != [] {
      assert ([0] + b)[..|b|] == [0] + b[..|b| - 1];
      LeadingZero(b[..|b| - 1]);
    } else {
      assert [0] + b == [0];
      assert [0][..0] == [];
    }
  }

  /** 256 to the `k`. */
  ghost function Weight(k: nat): (w: nat)
    ensures w >= 1
  {
    if k == 0 then 1 else 256 * Weight(k - 1)
  }

  lemma {:induction false} ValueBound(b: seq<Byte>)
    ensures Value(b) < Weight(|b|)
  {
    if b != [] {
      ValueBound(b[..|b| - 1]);
    }
  }

  lemma {:induction false} ValueConcat(a: seq<Byte>, b: seq<Byte>)
    ensures Value(a + b) == Value(a) * Weight(|b|) + Value(b)
  {
    if b == [] {
      assert a + b == a;
    } else {
      var n := |b| - 1;
      assert (a + b)[..|a + b| - 1] == a + b[..n];
      ValueConcat(a, b[..n]);
      assert Value(a) * Weight(n) * 256 == Value(a) * (256 * Weight(n));
    }
  }

  /** The leading `k` bytes of a number are its quotient, the others its remainder. */
  lemma ValueSplit(b: seq<Byte>, k: nat)
    requires k <= |b|
    ensures Value(b[..k]) == Value(b) / Weight(|b| - k)
    ensures Value(b[k..]) == Value(b) % Weight(|b| - k)
  {
    hide Value, Weight;
    assert b == b[..k] + b[k..];
    ValueConcat(b[..k], b[k..]);
    ValueBound(b[k..]);
    DivRem(Value(b), Weight(|b| - k), Value(b[..k]), Value(b[k..]));
  }

  // ---------------------------------------------------------------- the MPI format

  function WithSign(n: nat, negative: bool): int {
    if negative then 0 - n else n
  }

  /** A magnitude with room for the sign in its top bit, and the sign put there. */
  function Signed(m: seq<Byte>, negative: bool): seq<Byte> {
    if m == [] then []
    else if m[0] >= 128 then [if negative then 128 else 0] + m
    else [if negative then m[0] + 128 else m[0]] + m[1..]
  }

  /** `BN_bn2mpi` without its length prefix: the magnitude, with a zero byte before it
      when its top bit is set, and the sign in the top bit. */
  function Mpi(x: int): seq<Byte> {
    Signed(Magnitude(Abs(x)), x < 0)
  }

  /** A byte string without its sign. */
  function Unsigned(b: seq<Byte>): seq<Byte> {
    if b == [] then [] else [b[0] % 128] + b[1..]
  }

  predicate IsNegative(b: seq<Byte>) {
    b != [] && b[0] >= 128
  }

  /** `BN_mpi2bn` after its length prefix. */
  function FromMpi(b: seq<Byte>): int {
    WithSign(Value(Unsigned(b)), IsNegative(b))
  }

  /** The byte strings that are the MPI form of a number. */
  predicate Canonical(b: seq<Byte>) {
    b == [] || b[0] % 128 != 0 || (|b| >= 2 && b[1] >= 128)
  }

  /** Signing and removing the sign. */
  lemma SignedFacts(m: seq<Byte>, negative: bool)
    requires m == [] || m[0] != 0
    ensures Canonical(Signed(m, negative)) && (m != [] ==> (IsNegative(Signed(m, negative)) <==> negative))
    ensures Unsigned(Signed(m, negative)) == if m != [] && m[0] >= 128 then [0] + m else m
  {
  }

  lemma UnsignedFacts(b: seq<Byte>)
    requires Canonical(b)
    ensures exists m: seq<Byte> :: (m == [] || m[0] != 0) && (m == [] <==> b == [])
              && Signed(m, IsNegative(b)) == b && (Unsigned(b) == m || Unsigned(b) == [0] + m)
  {
    if b == [] {
      assert Signed([], IsNegative(b)) == b;
    } else if b[0] % 128 == 0 {
      var m := b[1..];
      assert Signed(m, IsNegative(b)) == b && Unsigned(b) == [0] + m;
    } else {
      var m := [b[0] % 128] + b[1..];
      assert m[1..] == b[1..];
      assert Signed(m, IsNegative(b)) == b;
    }
  }

  /** The MPI form determines the number. */
  lemma MpiCanonical(x: int)
    ensures Canonical(Mpi(x)) && FromMpi(Mpi(x)) == x
  {
    hide Magnitude, Value, Signed, Unsigned, Canonical, IsNegative;
    MagnitudeValue(Abs(x));
    MagnitudeOfZero();
    var m := Magnitude(Abs(x));
    SignedFacts(m, x < 0);
    LeadingZero(m);
    if x == 0 {
      EmptyIsPositive([]);
    }
  }

  lemma MagnitudeOfZero()
    ensures Magnitude(0) == [] && Value([]) == 0
  {
  }

  /** Every canonical byte string is the MPI form of the number it denotes. */
  lemma CanonicalMpi(b: seq<Byte>)
    requires Canonical(b)
    ensures Mpi(FromMpi(b)) == b
  {
    hide Magnitude, Value, Signed, Unsigned, Canonical, IsNegative;
    UnsignedFacts(b);
    var m: seq<Byte> :| (m == [] || m[0] != 0) && (m == [] <==> b == [])
              && Signed(m, IsNegative(b)) == b && (Unsigned(b) == m || Unsigned(b) == [0] + m);
    LeadingZero(m);
    ValueMagnitude(m);
    if m != [] {
      NonzeroValue(m);
    } else {
      MagnitudeOfZero();
      EmptyIsPositive(b);
    }
  }

  lemma EmptyIsPositive(b: seq<Byte>)
    requires b == []
    ensures !IsNegative(b) && Signed([], false) == b && Signed([], true) == b
  {
  }

  // ---------------------------------------------------------------- machine integers

  const TWO64 := 0x1_0000_0000_0000_0000
  const TOP := 0x100_0000_0000_0000  // weight of the top byte of a 64-bit number

  /** Appending a byte to a nonzero number appends it to its MPI form. */
  lemma MpiAppend(hi: nat, c: Byte, negative: bool)
    requires hi > 0
    ensures Mpi(WithSign(hi * 256 + c, negative)) == Mpi(WithSign(hi, negative)) + [c]
  {
    var m := Magnitude(hi);
    assert (hi * 256 + c) / 256 == hi && (hi * 256 + c) % 256 == c;
    assert Magnitude(hi * 256 + c) == m + [c];
    hide Magnitude;
    MagnitudeValue(hi);
    SignedAppend(m, c, negative);
  }

  lemma SignedAppend(m: seq<Byte>, c: Byte, negative: bool)
    requires m != []
    ensures Signed(m + [c], negative) == Signed(m, negative) + [c]
  {
    assert (m + [c])[1..] == m[1..] + [c];
  }

  /** The first byte that is not zero. */
  lemma MpiOfByte(c: Byte, negative: bool)
    requires c > 0
    ensures Mpi(WithSign(c, negative))
            == if c >= 128 then [if negative then 128 else 0] + [c] else [if negative then c + 128 else c]
  {
    assert c / 256 == 0 && Magnitude(c) == [c];
    hide Magnitude;
  }

  lemma MpiOfZero()
    ensures Mpi(0) == []
  {
  }

  lemma TopByte(lo: nat, scale: nat, next: nat)
    requires next >= 1 && scale >= 1 && 256 * next * scale == TWO64 && lo < 256 * next
    ensures lo * scale / TOP == lo / next < 256
    ensures lo * scale * 256 % TWO64 == lo % next * (scale * 256)
  {
    var q, r := lo / next, lo % next;
    assert next * scale == TOP;
    assert lo == q * next + r;
    assert lo * scale == q * TOP + r * scale by {
      assert lo * scale == q * next * scale + r * scale;
      assert q * next * scale == q * (next * scale);
    }
    assert r * scale < TOP by {
      assert (r + 1) * scale <= next * scale;
    }
    DivRem(lo * scale, TOP, q, r * scale);
    DivRem(lo * scale * 256, TWO64, q, r * scale * 256);
    assert r * scale * 256 == r * (scale * 256);
    MulGrows(q - 255, next);
    assert (q - 255) * next == q * next - 255 * next;
  }

  /** What remains to be written: `n` is the low part of `orig`, shifted to the top. */
  ghost predicate Shifted(orig: nat, hi: nat, lo: nat, scale: nat, n: nat, left: nat) {
    && scale >= 1 && Weight(left) * scale == TWO64 && lo < Weight(left)
    && orig == hi * Weight(left) + lo && n == lo * scale
  }

  /** One step of the writing loop. */
  lemma ShiftOne(orig: nat, hi: nat, lo: nat, scale: nat, n: nat, left: nat) returns (top: nat)
    requires Shifted(orig, hi, lo, scale, n, left) && left > 0
    ensures top == n / TOP < 256
    ensures Shifted(orig, hi * 256 + top, lo % Weight(left - 1), scale * 256, n * 256 % TWO64, left - 1)
  {
    var next := Weight(left - 1);
    assert Weight(left) == 256 * next;
    assert 256 * next * scale == TWO64;
    TopByte(lo, scale, next);
    top := lo / next;
    assert next * (scale * 256) == 256 * next * scale;
    assert orig == (hi * 256 + top) * next + lo % next by {
      assert hi * (256 * next) == hi * 256 * next;
      assert lo == top * next + lo % next;
      assert (hi * 256 + top) * next == hi * 256 * next + top * next;
    }
  }

  lemma ShiftStart(orig: nat)
    requires orig < TWO64
    ensures Shifted(orig, 0, orig, 1, orig, 8)
  {
    WeightOf8();
  }

  /** The loop of `setint64` and `setuint64`: the bytes of a number below 2^64, sign
      included, without leading zeros. */
  method WriteBytes(orig: nat, negative: bool) returns (p: seq<Byte>)
    requires orig < TWO64
    ensures p == Mpi(WithSign(orig, negative))
  {
    hide Mpi, Shifted, Weight;
    p := [];
    var n: nat, leading := orig, true;
    ghost var hi: nat, lo: nat, scale: nat := 0, orig, 1;
    MpiOfZero();
    ShiftStart(orig);
    for i := 0 to 8
      invariant Shifted(orig, hi, lo, scale, n, 8 - i)
      invariant leading <==> hi == 0
      invariant p == Mpi(WithSign(hi, negative))
    {
      ghost var top := ShiftOne(orig, hi, lo, scale, n, 8 - i);
      ghost var was := hi;
      var c: Byte := n / TOP;
      n := n * 256 % TWO64;
      hi, lo, scale := hi * 256 + top, lo % Weight(7 - i), scale * 256;
      if leading {
        if c == 0 {
          continue;
        }
        MpiOfByte(c, negative);
        if c >= 128 {
          p := p + [if negative then 128 else 0];
        } else if negative {
          c := c + 128;
        }
        leading := false;
      } else {
        MpiAppend(was, c, negative);
      }
      p := p + [c];
    }
    ShiftEnd(orig, hi, lo, scale, n);
  }

  lemma ShiftEnd(orig: nat, hi: nat, lo: nat, scale: nat, n: nat)
    requires Shifted(orig, hi, lo, scale, n, 0)
    ensures hi == orig
  {
  }

  /** `setint64`, whose increments around the negation keep the least number in range. */
  method SetInt64(sn: int) returns (x: int)
    requires -0x8000_0000_0000_0000 <= sn < 0x8000_0000_0000_0000
    ensures x == sn
  {
    var n: nat := if sn < 0 then -(sn + 1) + 1 else sn;
    var p := WriteBytes(n, sn < 0);
    x := FromMpi(p);
    MpiCanonical(sn);
  }

  /** `setuint64`. */
  method SetUint64(n: nat) returns (x: int)
    requires n < TWO64
    ensures x == n
  {
    var p := WriteBytes(n, false);
    x := FromMpi(p);
    MpiCanonical(n);
  }

  /** `getuint64`: the low 64 bits of the magnitude. */
  method GetUint64(x: int) returns (n: nat)
    ensures n == Abs(x) % TWO64
  {
    hide Mpi, FromMpi, Value, Weight, Unsigned;
    MpiCanonical(x);
    var b := Unsigned(Mpi(x));
    MagnitudeOfMpi(x);
    n := 0;
    var i, scale: nat := 0, 1;
    EmptyParts();
    assert b[|b|..] == [];
    while i < 8 && i < |b|
      invariant i <= 8 && i <= |b|
      invariant scale == Weight(i)
      invariant n == Value(b[|b| - i..])
    {
      var j := |b| - 1 - i;
      assert b[j..] == [b[j]] + b[j + 1..];
      ValueConcat([b[j]], b[j + 1..]);
      OneByte(b[j], i);
      n := n + b[j] * scale;
      scale := scale * 256;
      i := i + 1;
    }
    ValueSplit(b, |b| - i);
    LowBytes(b, i);
  }

  lemma EmptyParts()
    ensures Weight(0) == 1 && Value([]) == 0
  {
  }

  lemma OneByte(c: Byte, k: nat)
    ensures Value([c]) == c && Weight(k + 1) == Weight(k) * 256
  {
    assert [c][..0] == [];
  }

  lemma LowBytes(b: seq<Byte>, i: nat)
    requires i <= |b| && (i == 8 || i == |b| < 8)
    ensures Value(b) % Weight(i) == Value(b) % TWO64
  {
    hide Value, Weight;
    WeightOf8();
    if i == |b| {
      ValueBound(b);
      WeightGrows(i, 8);
      DivRem(Value(b), Weight(i), 0, Value(b));
      DivRem(Value(b), TWO64, 0, Value(b));
    }
  }

  lemma WeightOf8()
    ensures Weight(8) == TWO64
  {
  }

  lemma {:induction false} WeightGrows(i: nat, j: nat)
    requires i <= j
    ensures Weight(i) <= Weight(j)
  {
    if i < j {
      WeightGrows(i, j - 1);
    }
  }

  lemma MagnitudeOfMpi(x: int)
    ensures Value(Unsigned(Mpi(x))) == Abs(x)
  {
    hide Magnitude, Value, Signed, Unsigned, Canonical, IsNegative;
    MagnitudeValue(Abs(x));
    MagnitudeOfZero();
    SignedFacts(Magnitude(Abs(x)), x < 0);
    LeadingZero(Magnitude(Abs(x)));
  }

  // ---------------------------------------------------------------- compact form

  function ByteAt(b: seq<Byte>, i: nat): Byte {
    if i < |b| then b[i] else 0
  }

  /** Up to three leading bytes, aligned to the left. */
  function Lead(b: seq<Byte>): nat {
    ByteAt(b, 0) * 0x1_0000 + ByteAt(b, 1) * 0x100 + ByteAt(b, 2)
  }

  const TWO24 := 0x100_0000

  /** `GetCompact`: the shifted size keeps eight bits. */
  function GetCompact(x: int): nat {
    var b := Mpi(x);
    |b| % 256 * TWO24 + Lead(b)
  }

  /** The bytes `SetCompact` builds. */
  function CompactBytes(compact: nat): seq<Byte> {
    seq(compact / TWO24, i =>
      if i == 0 then compact / 0x1_0000 % 256
      else if i == 1 then compact / 0x100 % 256
      else if i == 2 then compact % 256
      else 0)
  }

  function SetCompact(compact: nat): int {
    FromMpi(CompactBytes(compact))
  }

  /** A byte string whose bytes after the third are zero. */
  function Truncated(b: seq<Byte>): (r: seq<Byte>)
    ensures |r| == |b|
    ensures forall i :: 0 <= i < |b| ==> r[i] == if i < 3 then b[i] else 0
  {
    seq(|b|, i => if 0 <= i < 3 && i < |b| then b[i] else 0)
  }

  lemma CompactParts(size: nat, b0: Byte, b1: Byte, b2: Byte)
    ensures var c := size * TWO24 + (b0 * 0x1_0000 + b1 * 0x100 + b2);
            c / TWO24 == size && c / 0x1_0000 % 256 == b0 && c / 0x100 % 256 == b1 && c % 256 == b2
  {
    var c := size * TWO24 + (b0 * 0x1_0000 + b1 * 0x100 + b2);
    DivRem(c, TWO24, size, b0 * 0x1_0000 + b1 * 0x100 + b2);
    DivRem(c, 0x1_0000, size * 256 + b0, b1 * 0x100 + b2);
    DivRem(size * 256 + b0, 256, size, b0);
    DivRem(c, 0x100, (size * 256 + b0) * 256 + b1, b2);
    DivRem((size * 256 + b0) * 256 + b1, 256, size * 256 + b0, b1);
  }

  lemma CompactBytesOfCompact(x: int)
    requires |Mpi(x)| <= 255
    ensures CompactBytes(GetCompact(x)) == Truncated(Mpi(x))
  {
    hide Mpi;
    var b := Mpi(x);
    CompactParts(|b|, ByteAt(b, 0), ByteAt(b, 1), ByteAt(b, 2));
  }

  /** Decoding the compact form keeps the sign, the size and the three leading bytes, and
      encoding the result again gives the same word. */
  lemma CompactRoundTrip(x: int)
    requires |Mpi(x)| <= 255
    ensures Mpi(SetCompact(GetCompact(x))) == Truncated(Mpi(x))
    ensures GetCompact(SetCompact(GetCompact(x))) == GetCompact(x)
  {
    hide Mpi, FromMpi, Truncated, CompactBytes;
    CompactBytesOfCompact(x);
    MpiCanonical(x);
    TruncatedFacts(Mpi(x));
    CanonicalMpi(Truncated(Mpi(x)));
  }

  lemma TruncatedFacts(b: seq<Byte>)
    requires Canonical(b)
    ensures Canonical(Truncated(b)) && |Truncated(b)| == |b| && Lead(Truncated(b)) == Lead(b)
    ensures IsNegative(Truncated(b)) <==> IsNegative(b)
    ensures Unsigned(Truncated(b)) == Truncated(Unsigned(b))
  {
    hide Truncated;
    TruncatedUnsigned(b);
  }

  lemma TruncatedUnsigned(b: seq<Byte>)
    ensures Unsigned(Truncated(b)) == Truncated(Unsigned(b))
  {
    hide Truncated;
    var u, v := Unsigned(Truncated(b)), Truncated(Unsigned(b));
    assert |u| == |b| && |v| == |b|;
    forall i | 0 <= i < |b| ensures u[i] == v[i] {
      UnsignedAt(b, i);
      UnsignedAt(Truncated(b), i);
    }
  }

  lemma UnsignedAt(b: seq<Byte>, i: nat)
    requires i < |b|
    ensures |Unsigned(b)| == |b| && Unsigned(b)[i] == if i == 0 then b[0] % 128 else b[i]
  {
  }

  /** In numbers: the magnitude is rounded down to a multiple of the weight of its third
      MPI byte. */
  lemma CompactRounds(x: int)
    requires |Mpi(x)| <= 255
    ensures var w := Weight(if |Mpi(x)| <= 3 then 0 else |Mpi(x)| - 3);
            SetCompact(GetCompact(x)) == WithSign(Abs(x) / w * w, x < 0)
  {
    hide Mpi, Truncated, CompactBytes, Value, Weight, Lead, Unsigned, Canonical, IsNegative;
    var b := Mpi(x);
    CompactBytesOfCompact(x);
    MpiCanonical(x);
    MagnitudeOfMpi(x);
    TruncatedFacts(b);
    TruncatedValue(Unsigned(b));
    MpiSign(x);
    UnsignedLength(b);
    EmptyParts();
  }

  lemma UnsignedLength(b: seq<Byte>)
    ensures |Unsigned(b)| == |b|
  {
  }

  lemma MpiSign(x: int)
    ensures IsNegative(Mpi(x)) <==> x < 0
  {
    hide Magnitude, Signed, IsNegative;
    MagnitudeValue(Abs(x));
    MagnitudeOfZero();
    SignedFacts(Magnitude(Abs(x)), x < 0);
    EmptyIsPositive([]);
  }

  lemma TruncatedValue(b: seq<Byte>)
    ensures var w := Weight(if |b| <= 3 then 0 else |b| - 3);
            Value(Truncated(b)) == Value(b) / w * w
  {
    hide Value, Weight, Truncated;
    var t := Truncated(b);
    TruncatedParts(b);
    if |b| <= 3 {
      EmptyParts();
    } else {
      ValueConcat(b[..3], t[3..]);
      ZeroValue(t[3..]);
      ValueSplit(b, 3);
    }
  }

  lemma TruncatedParts(b: seq<Byte>)
    ensures var t := Truncated(b);
      |t| == |b| && if |b| <= 3 then t == b else t == b[..3] + t[3..] && forall i :: 0 <= i < |b| - 3 ==> t[3..][i] == 0
  {
    if |b| > 3 {
      assert Truncated(b)[..3] == b[..3];
    }
  }

  lemma {:induction false} ZeroValue(b: seq<Byte>)
    requires forall i :: 0 <= i < |b| ==> b[i] == 0
    ensures Value(b) == 0
  {
    if b != [] {
      ZeroValue(b[..|b| - 1]);
    }
  }

  /** The size of a canonical byte string bounds its number from both sides. */
  lemma SizeBounds(b: seq<Byte>)
    requires Canonical(b) && !IsNegative(b) && b != []
    ensures Value(b) < 128 * Weight(|b| - 1)
    ensures |b| >= 2 ==> Value(b) >= 128 * Weight(|b| - 2)
  {
    hide Value, Weight;
    FirstByte(b);
    OneByte(0, |b| - 1);
    MulAtMost(b[0], 127, Weight(|b| - 1));
    if |b| >= 2 {
      FirstByte(b[1..]);
      OneByte(0, |b| - 2);
      if b[0] == 0 {
        MulAtMost(128, b[1], Weight(|b| - 2));
      } else {
        MulAtMost(1, b[0], Weight(|b| - 1));
      }
    }
  }

  lemma FirstByte(b: seq<Byte>)
    requires b != []
    ensures Value(b) == b[0] * Weight(|b| - 1) + Value(b[1..])
    ensures Value(b[1..]) < Weight(|b| - 1)
  {
    hide Value, Weight;
    assert b == [b[0]] + b[1..];
    ValueConcat([b[0]], b[1..]);
    OneByte(b[0], 0);
    ValueBound(b[1..]);
  }

  lemma MulAtMost(a: nat, b: nat, n: nat)
    requires a <= b
    ensures a * n <= b * n
  {
  }

  lemma MpiOfNat(x: nat)
    ensures Canonical(Mpi(x)) && !IsNegative(Mpi(x)) && Value(Mpi(x)) == x
  {
    MpiCanonical(x);
    MpiSign(x);
    MagnitudeOfMpi(x);
    hide Mpi, Value;
    assert Unsigned(Mpi(x)) == Mpi(x);
  }

  lemma MpiSizeMonotone(x: nat, y: nat)
    requires x <= y
    ensures |Mpi(x)| <= |Mpi(y)|
  {
    hide Mpi, Value, Weight, Canonical, IsNegative;
    MpiOfNat(x);
    MpiOfNat(y);
    MpiOfZero();
    EmptyParts();
    if |Mpi(y)| < |Mpi(x)| && y > 0 {
      if Mpi(y) == [] {
        assert false;
      }
      SizeBounds(Mpi(y));
      SizeBounds(Mpi(x));
      WeightGrows(|Mpi(y)| - 1, |Mpi(x)| - 2);
    }
  }

  /** The three leading bytes as a number. */
  lemma LeadValue(b: seq<Byte>)
    ensures Lead(b) < TWO24
    ensures |b| >= 3 ==> Lead(b) == Value(b) / Weight(|b| - 3)
    ensures |b| < 3 ==> Lead(b) == Value(b) * Weight(3 - |b|)
  {
    if |b| >= 3 {
      ValueSplit(b, 3);
      var t := b[..3];
      assert t[..2][..1][..0] == [] && t[..2][..1][0] == b[0] && t[..2][1] == b[1] && t[2] == b[2];
      assert Value(t) == Lead(b);
    } else {
      assert Weight(1) == 256 && Weight(2) == 0x1_0000 && Weight(3) == TWO24;
      if |b| == 2 {
        assert b[..1][..0] == [] && b[..1][0] == b[0];
        assert Value(b[..1]) == b[0];
      }
    }
  }

  /** The compact word is monotone in the number. */
  lemma CompactMonotone(x: nat, y: nat)
    requires x <= y && |Mpi(y)| <= 255
    ensures GetCompact(x) <= GetCompact(y)
  {
    hide Mpi, Value, Weight, Canonical, IsNegative, Lead;
    MpiSizeMonotone(x, y);
    MpiOfNat(x);
    MpiOfNat(y);
    LeadValue(Mpi(x));
    LeadValue(Mpi(y));
    var n := |Mpi(x)|;
    if n == |Mpi(y)| {
      if n >= 3 {
        DivMonotone(x, y, Weight(n - 3));
      } else {
        MulAtMost(x, y, Weight(3 - n));
      }
    }
  }

  lemma DivMonotone(x: nat, y: nat, n: nat)
    requires x <= y && n >= 1
    ensures x / n <= y / n
  {
    var d := x / n - y / n;
    assert x == x / n * n + x % n && y == y / n * n + y % n;
    assert d * n == x / n * n - y / n * n;
    MulGrows(d, n);
  }

  // ---------------------------------------------------------------- little endian vectors

  function Reversed<T>(s: seq<T>): (r: seq<T>)
    ensures |r| == |s| && forall i :: 0 <= i < |s| ==> r[i] == s[|s| - 1 - i]
  {
    seq(|s|, i requires 0 <= i < |s| => s[|s| - 1 - i])
  }

  /** `setvch`. */
  function SetVch(v: seq<Byte>): int {
    FromMpi(Reversed(v))
  }

  /** `getvch`. */
  function GetVch(x: int): seq<Byte> {
    Reversed(Mpi(x))
  }

  /** `getvch` and `setvch` invert each other, on vectors without redundant top bytes. */
  lemma VchRoundTrip(x: int, v: seq<Byte>)
    ensures SetVch(GetVch(x)) == x
    ensures GetVch(SetVch(v)) == v <==> Canonical(Reversed(v))
  {
    hide Mpi, FromMpi, Canonical;
    MpiCanonical(x);
    assert Reversed(GetVch(x)) == Mpi(x);
    MpiCanonical(SetVch(v));
    assert Reversed(GetVch(SetVch(v))) == Mpi(SetVch(v));
    if Canonical(Reversed(v)) {
      CanonicalMpi(Reversed(v));
      assert GetVch(SetVch(v)) == v;
    }
  }
}

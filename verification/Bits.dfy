/** Big-endian bit and byte strings of natural numbers. */
module Bits {

  type Bit = n: nat | n < 2
  type Byte = n: nat | n < 256

  function Abs(x: int): nat {
    if x < 0 then -x else x
  }

  function Pow2(k: nat): (r: nat)
    ensures r >= 1
  {
    if k == 0 then 1 else 2 * Pow2(k - 1)
  }

  lemma Pow2Of8()
    ensures Pow2(8) == 256
  {
  }

  /** The low `k` bits of `n`, most significant first. */
  function BitsOf(n: nat, k: nat): (r: seq<Bit>)
    ensures |r| == k
    decreases k
  {
    if k == 0 then [] else BitsOf(n / 2, k - 1) + [n % 2]
  }

  /** The low `k` bytes of `n`, most significant first. */
  function BytesOf(n: nat, k: nat): (r: seq<Byte>)
    ensures |r| == k
    decreases k
  {
    if k == 0 then [] else BytesOf(n / 256, k - 1) + [n % 256]
  }

  function Zeros(k: nat): (r: seq<Bit>)
    ensures |r| == k && forall i :: 0 <= i < k ==> r[i] == 0
  {
    seq(k, _ => 0)
  }

  /** All bits of a byte string. */
  function AllBits(bytes: seq<Byte>): (r: seq<Bit>)
    ensures |r| == 8 * |bytes|
  {
    if bytes == [] then [] else AllBits(bytes[..|bytes| - 1]) + BitsOf(bytes[|bytes| - 1], 8)
  }

  lemma {:induction false} AllBitsConcat(a: seq<Byte>, b: seq<Byte>)
    ensures AllBits(a + b) == AllBits(a) + AllBits(b)
  {
    hide BitsOf;
    if b == [] {
      assert a + b == a;
    } else {
      var n := |b| - 1;
      var c := a + b;
      assert c[..|c| - 1] == a + b[..n] && c[|c| - 1] == b[n];
      AllBitsConcat(a, b[..n]);
      assert AllBits(c) == AllBits(a) + AllBits(b[..n]) + BitsOf(b[n], 8);
    }
  }

  lemma DivRem(x: int, n: int, q: int, r: int)
    requires n > 0 && x == q * n + r && 0 <= r < n
    ensures x / n == q && x % n == r
  {
    var d := x / n - q;
    assert d * n + x % n == r;
    MulGrows(d, n);
  }

  /** The quotient and the remainder of a division. */
  lemma Quotient(x: nat, d: nat) returns (q: nat, r: nat)
    requires d > 0
    ensures q == x / d && r == x % d && x == q * d + r && r < d
  {
    q, r := x / d, x % d;
  }

  lemma MulGrows(d: int, n: int)
    requires n > 0
    ensures d >= 1 ==> d * n >= n
    ensures d <= -1 ==> d * n <= -n
  {
  }

  lemma Halves(n: nat, q: nat, p: nat, r: nat)
    requires n == q * (2 * p) + r
    ensures n / 2 == q * p + r / 2 && n % 2 == r % 2
  {
    var h := q * p;
    assert n == 2 * h + r;
  }

  /** The high and the low bits of a number with quotient `q` and remainder `r`. */
  lemma {:induction false} BitsSplit(n: nat, m: nat, j: nat, q: nat, r: nat)
    requires n == q * Pow2(j) + r && r < Pow2(j)
    ensures BitsOf(n, m + j) == BitsOf(q, m) + BitsOf(r, j)
    decreases j
  {
    if j > 0 {
      Halves(n, q, Pow2(j - 1), r);
      BitsSplit(n / 2, m, j - 1, q, r / 2);
    }
  }

  lemma LastBit(n: nat, k: nat)
    requires k > 0
    ensures BitsOf(n, k) == BitsOf(n / 2, k - 1) + [n % 2]
  {
  }

  lemma {:induction false} BitsOfZero(k: nat)
    ensures BitsOf(0, k) == Zeros(k)
  {
    if k > 0 {
      BitsOfZero(k - 1);
    }
  }

  /** The bits of a byte string that encodes `n`. */
  lemma {:induction false} BitsOfBytes(n: nat, k: nat)
    ensures AllBits(BytesOf(n, k)) == BitsOf(n, 8 * k)
  {
    hide Pow2, BitsOf;
    if k == 0 {
      assert BitsOf(n, 0) == [];
    } else {
      var rest := BytesOf(n / 256, k - 1);
      assert BytesOf(n, k)[..k - 1] == rest;
      BitsOfBytes(n / 256, k - 1);
      Pow2Of8();
      BitsSplit(n, 8 * (k - 1), 8, n / 256, n % 256);
    }
  }

  lemma {:induction false} AllBitsOfZeros(m: nat, bytes: seq<Byte>)
    requires |bytes| == m && forall i :: 0 <= i < m ==> bytes[i] == 0
    ensures AllBits(bytes) == Zeros(8 * m)
  {
    if m > 0 {
      AllBitsOfZeros(m - 1, bytes[..m - 1]);
      BitsOfZero(8);
    }
  }

  /** Distinct byte strings of equal length have distinct bits. */
  lemma {:induction false} BitsDetermineNumber(a: nat, b: nat, k: nat)
    requires a < Pow2(k) && b < Pow2(k) && BitsOf(a, k) == BitsOf(b, k)
    ensures a == b
  {
    if k > 0 {
      var x, y := BitsOf(a, k), BitsOf(b, k);
      assert x[k - 1] == a % 2 && y[k - 1] == b % 2;
      assert x[..k - 1] == BitsOf(a / 2, k - 1) && y[..k - 1] == BitsOf(b / 2, k - 1);
      BitsDetermineNumber(a / 2, b / 2, k - 1);
    }
  }

  lemma {:induction false} BitsDetermineBytes(a: seq<Byte>, b: seq<Byte>)
    requires AllBits(a) == AllBits(b)
    ensures a == b
  {
    hide Pow2, BitsOf;
    if a != [] {
      var n := |a| - 1;
      assert |b| == |a|;
      var x, y := AllBits(a), AllBits(b);
      assert x[..8 * n] == AllBits(a[..n]) && y[..8 * n] == AllBits(b[..n]);
      assert x[8 * n..] == BitsOf(a[n], 8) && y[8 * n..] == BitsOf(b[n], 8);
      BitsDetermineBytes(a[..n], b[..n]);
      Pow2Of8();
      BitsDetermineNumber(a[n], b[n], 8);
      assert a == a[..n] + [a[n]] && b == b[..n] + [b[n]];
    }
  }

  lemma {:induction false} Pow2Sum(a: nat, b: nat)
    ensures Pow2(a + b) == Pow2(a) * Pow2(b)
  {
    if a > 0 {
      Pow2Sum(a - 1, b);
    }
  }

  lemma Pow2Of32And64()
    ensures Pow2(32) == 0x1_0000_0000 && Pow2(64) == 0x1_0000_0000_0000_0000
  {
    hide Pow2;
    Pow2Of8();
    Pow2Sum(8, 8);
    Pow2Sum(16, 16);
    Pow2Sum(32, 32);
  }

  lemma {:induction false} BitsOfPow2(m: nat)
    ensures BitsOf(Pow2(m), m + 1) == [1] + Zeros(m)
  {
    if m > 0 {
      BitsOfPow2(m - 1);
      assert Pow2(m) / 2 == Pow2(m - 1) && Pow2(m) % 2 == 0;
      assert [1] + Zeros(m - 1) + [0] == [1] + Zeros(m);
    }
  }

  /** Setting the last bit of an even byte. */
  lemma SetLastBit(x: Byte)
    requires x % 2 == 0
    ensures BitsOf(x + 1, 8) == BitsOf(x, 8)[7 := 1]
  {
    hide BitsOf;
    LastBit(x, 8);
    LastBit(x + 1, 8);
    assert (x + 1) / 2 == x / 2;
  }

  lemma SetLastBitOfAll(bytes: seq<Byte>)
    requires bytes != [] && bytes[|bytes| - 1] % 2 == 0
    ensures AllBits(bytes[|bytes| - 1 := bytes[|bytes| - 1] + 1]) == AllBits(bytes)[8 * |bytes| - 1 := 1]
  {
    var n := |bytes| - 1;
    var r := bytes[n := bytes[n] + 1];
    SetLastBit(bytes[n]);
    hide BitsOf;
    assert r[..n] == bytes[..n];
  }
}

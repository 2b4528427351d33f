/** `relay_inv` (src/dions.cpp): extended Euclid on 32-bit integers. */
module ModularInverse {
  import opened Bits

  newtype Int32 = x: int | -0x8000_0000 <= x < 0x8000_0000

  // ---------------------------------------------------------------- divisors

  ghost function Gcd(a: nat, b: nat): nat
    decreases a
  {
    if a == 0 then b else Gcd(b % a, a)
  }

  ghost predicate Divides(d: nat, n: int) {
    exists k: int :: n == k * d
  }

  lemma DividesBy(d: nat, n: int, k: int)
    requires n == k * d
    ensures Divides(d, n)
  {
  }

  /** A divisor of two numbers divides their combinations. */
  lemma DividesCombination(d: nat, a: int, b: int, m: int)
    requires Divides(d, a) && Divides(d, b)
    ensures Divides(d, a + m * b)
  {
    var j, k: int :| a == j * d && b == k * d;
    assert a + m * b == (j + m * k) * d by {
      assert m * b == m * k * d;
    }
    DividesBy(d, a + m * b, j + m * k);
  }

  /** `Gcd` is the greatest common divisor: it divides both numbers and every common divisor
      divides it. */
  lemma {:induction false} GcdIsGreatest(a: nat, b: nat, d: nat)
    ensures Divides(Gcd(a, b), a) && Divides(Gcd(a, b), b)
    ensures Divides(d, a) && Divides(d, b) ==> Divides(d, Gcd(a, b))
    decreases a
  {
    if a == 0 {
      DividesBy(b, 0, 0);
      DividesBy(b, b, 1);
    } else {
      var q := b / a;
      assert b % a == b + (0 - q) * a;
      assert b == b % a + q * a;
      GcdIsGreatest(b % a, a, d);
      DividesCombination(Gcd(a, b), b % a, a, q);
      if Divides(d, a) && Divides(d, b) {
        DividesCombination(d, b, a, 0 - q);
      }
    }
  }

  // ---------------------------------------------------------------- the loop

  /** `a` times `x` is `u`, up to a multiple of `y`. */
  ghost predicate Represents(a: int, u: int, x: int, y: int) {
    exists k: int :: a * x + k * y == u
  }

  /** What every iteration keeps. */
  ghost predicate Euclid(u: int, v: int, a: int, c: int, x: nat, y: nat) {
    && u >= 0 && v > 0
    && Represents(c, u, x, y) && Represents(a, v, x, y)
    && Gcd(u, v) == Gcd(x, y)
    && (a <= 0 <= c || c <= 0 <= a)
    && Abs(c) * v + Abs(a) * u == y
  }

  lemma RepresentsStep(a: int, v: int, c: int, u: int, q: int, x: int, y: int)
    requires Represents(a, v, x, y) && Represents(c, u, x, y)
    ensures Represents(a - q * c, v - q * u, x, y)
  {
    var j, k: int :| a * x + j * y == v && c * x + k * y == u;
    assert (a - q * c) * x + (j - q * k) * y == v - q * u by {
      assert q * u == q * (c * x + k * y) == q * c * x + q * k * y;
      assert (a - q * c) * x == a * x - q * c * x;
      assert (j - q * k) * y == j * y - q * k * y;
    }
  }

  lemma AbsStep(a: int, c: int, q: nat)
    requires a <= 0 <= c || c <= 0 <= a
    ensures Abs(a - q * c) == Abs(a) + q * Abs(c)
    ensures c <= 0 <= a - q * c || a - q * c <= 0 <= c
    ensures q * Abs(c) == Abs(q * c)
  {
    assert c >= 0 ==> q * c >= 0;
    assert c <= 0 ==> q * c <= 0;
  }

  /** One iteration with quotient `q` and remainder `w`. */
  lemma EuclidStep(u: int, v: int, a: int, c: int, q: nat, w: nat, x: nat, y: nat)
    requires y > 0 && u > 0 && Euclid(u, v, a, c, x, y) && v == q * u + w && w < u
    ensures Euclid(w, u, c, a - q * c, x, y)
    ensures Abs(q * c) <= Abs(a - q * c) <= y && Abs(c) <= y
  {
    hide Represents, Abs;
    DivRem(v, u, q, w);
    assert w == v - q * u;
    RepresentsStep(a, v, c, u, q, x, y);
    AbsStep(a, c, q);
    WeightsStep(Abs(a), Abs(c), q, u, v, w, y);
  }

  lemma WeightsStep(a: nat, c: nat, q: nat, u: nat, v: nat, w: nat, y: nat)
    requires u > 0 && v > 0 && v == q * u + w && c * v + a * u == y
    ensures (a + q * c) * u + c * w == y && a + q * c <= y && c <= y
  {
    assert c * v == c * (q * u) + c * w;
    assert c * (q * u) == q * c * u;
    assert (a + q * c) * u == a * u + q * c * u;
    Bounded(a + q * c, u, c * w, y);
    Bounded(c, v, a * u, y);
  }

  lemma Bounded(s: nat, w: int, rest: int, y: int)
    requires w > 0 && rest >= 0 && s * w + rest == y
    ensures s <= y
  {
    assert s * w >= s;
  }

  lemma EuclidStart(x: int, y: int)
    requires x > 0 && y > 0
    ensures Euclid(x, y, 0, 1, x, y)
  {
    assert 1 * x + 0 * y == x;
    assert 0 * x + 1 * y == y;
  }

  /** The remainder of C, which takes the sign of its dividend. */
  function Remainder(a: Int32, y: Int32): (r: Int32)
    requires y > 0
    ensures a >= 0 ==> 0 <= r < y && Divides(y as nat, r as int - a as int)
    ensures a < 0 ==> -y < r <= 0 && Divides(y as nat, r as int - a as int)
  {
    var b, n := a as int, y as int;
    if a >= 0 then
      DividesBy(n, b % n - b, 0 - b / n);
      (b % n) as Int32
    else
      DividesBy(n, (0 - (0 - b) % n) - b, (0 - b) / n);
      (0 - (0 - b) % n) as Int32
  }

  /** `relay_inv`: the result is reduced, and times `x` it is the greatest common divisor
      modulo `y`. No intermediate value leaves the range of the arguments, as the type of the
      variables requires. */
  method RelayInverse(x: Int32, y: Int32) returns (r: Int32)
    requires x > 0 && y > 0
    ensures 0 <= r < y
    ensures Divides(y as nat, r as int * x as int - Gcd(x as nat, y as nat))
  {
    hide Euclid, Gcd, Divides, Represents, Abs;
    var u, v, c, a := x, y, 1 as Int32, 0 as Int32;
    var t: Int32;
    var first := true;
    EuclidStart(x as int, y as int);
    while first || u != 0
      invariant Euclid(u as int, v as int, a as int, c as int, x as int, y as int)
      invariant u >= 0 && (first ==> u > 0)
      decreases u, first
    {
      first := false;
      PositiveParts(u as int, v as int, a as int, c as int, x as int, y as int);
      var q := v / u;
      ghost var w := v as int % u as int;
      assert v as int == q as int * u as int + w;
      EuclidStep(u as int, v as int, a as int, c as int, q as int, w, x as int, y as int);
      AbsBound(q as int * c as int, y as int);
      AbsBound(a as int - q as int * c as int, y as int);
      t := c;
      c := a - q * c;
      a := t;
      t := u;
      u := v - q * u;
      v := t;
    }
    r := Remainder(a, y);
    EuclidEnd(v as int, a as int, c as int, x as int, y as int, r as int);
    if r < 0 {
      EuclidEnd(v as int, a as int, c as int, x as int, y as int, r as int + y as int);
      r := y + r;
    }
  }

  lemma AbsBound(a: int, y: int)
    requires Abs(a) <= y
    ensures -y <= a <= y
  {
  }

  lemma PositiveParts(u: int, v: int, a: int, c: int, x: nat, y: nat)
    requires Euclid(u, v, a, c, x, y)
    ensures u >= 0 && v > 0
  {
  }

  lemma EndParts(v: int, a: int, c: int, x: nat, y: nat)
    requires Euclid(0, v, a, c, x, y)
    ensures v == Gcd(x, y) && Represents(a, v, x, y)
  {
    hide Represents, Abs;
  }

  /** When the loop ends, `a` inverts `x` up to the greatest common divisor. */
  lemma EuclidEnd(v: int, a: int, c: int, x: nat, y: nat, r: int)
    requires Euclid(0, v, a, c, x, y)
    requires Divides(y, r - a) || Divides(y, r - y - a)
    ensures Divides(y, r * x - Gcd(x, y))
  {
    hide Euclid, Gcd;
    EndParts(v, a, c, x, y);
    var k: int :| a * x + k * y == v;
    if Divides(y, r - a) {
      var j: int :| r - a == j * y;
      Reduced(v, a, x, y, r, j, k);
    } else {
      var j: int :| r - y - a == j * y;
      Reduced(v, a, x, y, r, j + 1, k);
    }
  }

  lemma Reduced(v: int, a: int, x: int, y: nat, r: int, j: int, k: int)
    requires r == a + j * y && a * x + k * y == v
    ensures Divides(y, r * x - v)
  {
    assert r * x - v == (j * x - k) * y by {
      assert r * x == a * x + j * x * y;
      assert (j * x - k) * y == j * x * y - k * y;
    }
    DividesBy(y, r * x - v, j * x - k);
  }

  /** For coprime arguments it is the inverse. */
  lemma CoprimeInverse(x: int, y: int, r: int)
    requires x > 0 && y > 1 && Gcd(x, y) == 1 && Divides(y, r * x - Gcd(x, y))
    ensures r * x % y == 1
  {
    var k: int :| r * x - 1 == k * y;
    DivRem(r * x, y, k, 1);
  }
}

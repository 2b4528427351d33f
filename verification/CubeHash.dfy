/** The round function of CubeHash (src/cubehash.c): two rounds without word swaps
    compute two rounds of the "CubeHash specification (2.B.1)", swaps included. */
module CubeHash {

  type Word = bv32

  function Add(a: Word, b: Word): Word { a + b }
  function Xor(a: Word, b: Word): Word { a ^ b }
  function Rot7(a: Word): Word { a.RotateLeft(7) }
  function Rot11(a: Word): Word { a.RotateLeft(11) }

  /** Sixteen words, named by the last four bits of their index. */
  datatype Half = Half(
    x0: Word, x1: Word, x2: Word, x3: Word, x4: Word, x5: Word, x6: Word, x7: Word,
    x8: Word, x9: Word, xa: Word, xb: Word, xc: Word, xd: Word, xe: Word, xf: Word)

  /** The state words: x_0jklm in `lo` and x_1jklm in `hi`. */
  datatype State = State(lo: Half, hi: Half)

  // ---------------------------------------------------------------- the specification

  /** Word-wise sum, exclusive or and rotations. */
  function Sum(a: Half, b: Half): Half {
    Half(Add(a.x0, b.x0), Add(a.x1, b.x1), Add(a.x2, b.x2), Add(a.x3, b.x3),
         Add(a.x4, b.x4), Add(a.x5, b.x5), Add(a.x6, b.x6), Add(a.x7, b.x7),
         Add(a.x8, b.x8), Add(a.x9, b.x9), Add(a.xa, b.xa), Add(a.xb, b.xb),
         Add(a.xc, b.xc), Add(a.xd, b.xd), Add(a.xe, b.xe), Add(a.xf, b.xf))
  }

  function Mix(a: Half, b: Half): Half {
    Half(Xor(a.x0, b.x0), Xor(a.x1, b.x1), Xor(a.x2, b.x2), Xor(a.x3, b.x3),
         Xor(a.x4, b.x4), Xor(a.x5, b.x5), Xor(a.x6, b.x6), Xor(a.x7, b.x7),
         Xor(a.x8, b.x8), Xor(a.x9, b.x9), Xor(a.xa, b.xa), Xor(a.xb, b.xb),
         Xor(a.xc, b.xc), Xor(a.xd, b.xd), Xor(a.xe, b.xe), Xor(a.xf, b.xf))
  }

  function Turn7(a: Half): Half {
    Half(Rot7(a.x0), Rot7(a.x1), Rot7(a.x2), Rot7(a.x3), Rot7(a.x4), Rot7(a.x5), Rot7(a.x6), Rot7(a.x7),
         Rot7(a.x8), Rot7(a.x9), Rot7(a.xa), Rot7(a.xb), Rot7(a.xc), Rot7(a.xd), Rot7(a.xe), Rot7(a.xf))
  }

  function Turn11(a: Half): Half {
    Half(Rot11(a.x0), Rot11(a.x1), Rot11(a.x2), Rot11(a.x3), Rot11(a.x4), Rot11(a.x5), Rot11(a.x6), Rot11(a.x7),
         Rot11(a.x8), Rot11(a.x9), Rot11(a.xa), Rot11(a.xb), Rot11(a.xc), Rot11(a.xd), Rot11(a.xe), Rot11(a.xf))
  }

  /** Words exchanged with those whose index differs in bit 8, 4, 2 or 1. */
  function Swap8(a: Half): Half {
    Half(a.x8, a.x9, a.xa, a.xb, a.xc, a.xd, a.xe, a.xf,
         a.x0, a.x1, a.x2, a.x3, a.x4, a.x5, a.x6, a.x7)
  }

  function Swap4(a: Half): Half {
    Half(a.x4, a.x5, a.x6, a.x7, a.x0, a.x1, a.x2, a.x3,
         a.xc, a.xd, a.xe, a.xf, a.x8, a.x9, a.xa, a.xb)
  }

  function Swap2(a: Half): Half {
    Half(a.x2, a.x3, a.x0, a.x1, a.x6, a.x7, a.x4, a.x5,
         a.xa, a.xb, a.x8, a.x9, a.xe, a.xf, a.xc, a.xd)
  }

  function Swap1(a: Half): Half {
    Half(a.x1, a.x0, a.x3, a.x2, a.x5, a.x4, a.x7, a.x6,
         a.x9, a.x8, a.xb, a.xa, a.xd, a.xc, a.xf, a.xe)
  }

  /** One round: the ten steps of the specification. */
  function Round(x: State): State {
    var hi1 := Sum(x.lo, x.hi);         // 1. add x_0jklm into x_1jklm
    var lo2 := Turn7(x.lo);             // 2. rotate x_0jklm by 7
    var lo3 := Swap8(lo2);              // 3. swap x_00klm with x_01klm
    var lo4 := Mix(lo3, hi1);           // 4. xor x_1jklm into x_0jklm
    var hi5 := Swap2(hi1);              // 5. swap x_1jk0m with x_1jk1m
    var hi6 := Sum(lo4, hi5);           // 6. add x_0jklm into x_1jklm
    var lo7 := Turn11(lo4);             // 7. rotate x_0jklm by 11
    var lo8 := Swap4(lo7);              // 8. swap x_0j0lm with x_0j1lm
    var lo9 := Mix(lo8, hi6);           // 9. xor x_1jklm into x_0jklm
    State(lo9, Swap1(hi6))              // 10. swap x_1jkl0 with x_1jkl1
  }

  function Rounds(x: State, n: nat): State {
    if n == 0 then x else Round(Rounds(x, n - 1))
  }

  // ---------------------------------------------------------------- swap-free rounds

  /** Where the words are after a round in which the swaps are left out. */
  function Arranged(x: State): State {
    State(Swap4(Swap8(x.lo)), Swap1(Swap2(x.hi)))
  }

  /** `ROUND_EVEN`: a round on words that stay in place. */
  method RoundEven(s: State) returns (t: State)
    ensures t == Arranged(Round(s))
  {
    hide Add, Xor, Rot7, Rot11;
    var x0, x1, x2, x3, x4, x5, x6, x7, x8, x9, xa, xb, xc, xd, xe, xf :=
      s.lo.x0, s.lo.x1, s.lo.x2, s.lo.x3, s.lo.x4, s.lo.x5, s.lo.x6, s.lo.x7,
      s.lo.x8, s.lo.x9, s.lo.xa, s.lo.xb, s.lo.xc, s.lo.xd, s.lo.xe, s.lo.xf;
    var xg, xh, xi, xj, xk, xl, xm, xn, xo, xp, xq, xr, xs, xt, xu, xv :=
      s.hi.x0, s.hi.x1, s.hi.x2, s.hi.x3, s.hi.x4, s.hi.x5, s.hi.x6, s.hi.x7,
      s.hi.x8, s.hi.x9, s.hi.xa, s.hi.xb, s.hi.xc, s.hi.xd, s.hi.xe, s.hi.xf;
    xg := Add(x0, xg); x0 := Rot7(x0); xh := Add(x1, xh); x1 := Rot7(x1);
    xi := Add(x2, xi); x2 := Rot7(x2); xj := Add(x3, xj); x3 := Rot7(x3);
    xk := Add(x4, xk); x4 := Rot7(x4); xl := Add(x5, xl); x5 := Rot7(x5);
    xm := Add(x6, xm); x6 := Rot7(x6); xn := Add(x7, xn); x7 := Rot7(x7);
    xo := Add(x8, xo); x8 := Rot7(x8); xp := Add(x9, xp); x9 := Rot7(x9);
    xq := Add(xa, xq); xa := Rot7(xa); xr := Add(xb, xr); xb := Rot7(xb);
    xs := Add(xc, xs); xc := Rot7(xc); xt := Add(xd, xt); xd := Rot7(xd);
    xu := Add(xe, xu); xe := Rot7(xe); xv := Add(xf, xv); xf := Rot7(xf);
    x8 := Xor(x8, xg); x9 := Xor(x9, xh); xa := Xor(xa, xi); xb := Xor(xb, xj);
    xc := Xor(xc, xk); xd := Xor(xd, xl); xe := Xor(xe, xm); xf := Xor(xf, xn);
    x0 := Xor(x0, xo); x1 := Xor(x1, xp); x2 := Xor(x2, xq); x3 := Xor(x3, xr);
    x4 := Xor(x4, xs); x5 := Xor(x5, xt); x6 := Xor(x6, xu); x7 := Xor(x7, xv);
    xi := Add(x8, xi); x8 := Rot11(x8); xj := Add(x9, xj); x9 := Rot11(x9);
    xg := Add(xa, xg); xa := Rot11(xa); xh := Add(xb, xh); xb := Rot11(xb);
    xm := Add(xc, xm); xc := Rot11(xc); xn := Add(xd, xn); xd := Rot11(xd);
    xk := Add(xe, xk); xe := Rot11(xe); xl := Add(xf, xl); xf := Rot11(xf);
    xq := Add(x0, xq); x0 := Rot11(x0); xr := Add(x1, xr); x1 := Rot11(x1);
    xo := Add(x2, xo); x2 := Rot11(x2); xp := Add(x3, xp); x3 := Rot11(x3);
    xu := Add(x4, xu); x4 := Rot11(x4); xv := Add(x5, xv); x5 := Rot11(x5);
    xs := Add(x6, xs); x6 := Rot11(x6); xt := Add(x7, xt); x7 := Rot11(x7);
    xc := Xor(xc, xi); xd := Xor(xd, xj); xe := Xor(xe, xg); xf := Xor(xf, xh);
    x8 := Xor(x8, xm); x9 := Xor(x9, xn); xa := Xor(xa, xk); xb := Xor(xb, xl);
    x4 := Xor(x4, xq); x5 := Xor(x5, xr); x6 := Xor(x6, xo); x7 := Xor(x7, xp);
    x0 := Xor(x0, xu); x1 := Xor(x1, xv); x2 := Xor(x2, xs); x3 := Xor(x3, xt);
    t := State(Half(x0, x1, x2, x3, x4, x5, x6, x7, x8, x9, xa, xb, xc, xd, xe, xf),
               Half(xg, xh, xi, xj, xk, xl, xm, xn, xo, xp, xq, xr, xs, xt, xu, xv));
  }

  /** `ROUND_ODD`: a round on words arranged as `RoundEven` leaves them, which restores
      their order. */
  method RoundOdd(s: State, ghost x: State) returns (t: State)
    requires s == Arranged(x)
    ensures t == Round(x)
  {
    hide Add, Xor, Rot7, Rot11;
    var x0, x1, x2, x3, x4, x5, x6, x7, x8, x9, xa, xb, xc, xd, xe, xf :=
      s.lo.x0, s.lo.x1, s.lo.x2, s.lo.x3, s.lo.x4, s.lo.x5, s.lo.x6, s.lo.x7,
      s.lo.x8, s.lo.x9, s.lo.xa, s.lo.xb, s.lo.xc, s.lo.xd, s.lo.xe, s.lo.xf;
    var xg, xh, xi, xj, xk, xl, xm, xn, xo, xp, xq, xr, xs, xt, xu, xv :=
      s.hi.x0, s.hi.x1, s.hi.x2, s.hi.x3, s.hi.x4, s.hi.x5, s.hi.x6, s.hi.x7,
      s.hi.x8, s.hi.x9, s.hi.xa, s.hi.xb, s.hi.xc, s.hi.xd, s.hi.xe, s.hi.xf;
    xj := Add(xc, xj); xc := Rot7(xc); xi := Add(xd, xi); xd := Rot7(xd);
    xh := Add(xe, xh); xe := Rot7(xe); xg := Add(xf, xg); xf := Rot7(xf);
    xn := Add(x8, xn); x8 := Rot7(x8); xm := Add(x9, xm); x9 := Rot7(x9);
    xl := Add(xa, xl); xa := Rot7(xa); xk := Add(xb, xk); xb := Rot7(xb);
    xr := Add(x4, xr); x4 := Rot7(x4); xq := Add(x5, xq); x5 := Rot7(x5);
    xp := Add(x6, xp); x6 := Rot7(x6); xo := Add(x7, xo); x7 := Rot7(x7);
    xv := Add(x0, xv); x0 := Rot7(x0); xu := Add(x1, xu); x1 := Rot7(x1);
    xt := Add(x2, xt); x2 := Rot7(x2); xs := Add(x3, xs); x3 := Rot7(x3);
    x4 := Xor(x4, xj); x5 := Xor(x5, xi); x6 := Xor(x6, xh); x7 := Xor(x7, xg);
    x0 := Xor(x0, xn); x1 := Xor(x1, xm); x2 := Xor(x2, xl); x3 := Xor(x3, xk);
    xc := Xor(xc, xr); xd := Xor(xd, xq); xe := Xor(xe, xp); xf := Xor(xf, xo);
    x8 := Xor(x8, xv); x9 := Xor(x9, xu); xa := Xor(xa, xt); xb := Xor(xb, xs);
    xh := Add(x4, xh); x4 := Rot11(x4); xg := Add(x5, xg); x5 := Rot11(x5);
    xj := Add(x6, xj); x6 := Rot11(x6); xi := Add(x7, xi); x7 := Rot11(x7);
    xl := Add(x0, xl); x0 := Rot11(x0); xk := Add(x1, xk); x1 := Rot11(x1);
    xn := Add(x2, xn); x2 := Rot11(x2); xm := Add(x3, xm); x3 := Rot11(x3);
    xp := Add(xc, xp); xc := Rot11(xc); xo := Add(xd, xo); xd := Rot11(xd);
    xr := Add(xe, xr); xe := Rot11(xe); xq := Add(xf, xq); xf := Rot11(xf);
    xt := Add(x8, xt); x8 := Rot11(x8); xs := Add(x9, xs); x9 := Rot11(x9);
    xv := Add(xa, xv); xa := Rot11(xa); xu := Add(xb, xu); xb := Rot11(xb);
    x0 := Xor(x0, xh); x1 := Xor(x1, xg); x2 := Xor(x2, xj); x3 := Xor(x3, xi);
    x4 := Xor(x4, xl); x5 := Xor(x5, xk); x6 := Xor(x6, xn); x7 := Xor(x7, xm);
    x8 := Xor(x8, xp); x9 := Xor(x9, xo); xa := Xor(xa, xr); xb := Xor(xb, xq);
    xc := Xor(xc, xt); xd := Xor(xd, xs); xe := Xor(xe, xv); xf := Xor(xf, xu);
    t := State(Half(x0, x1, x2, x3, x4, x5, x6, x7, x8, x9, xa, xb, xc, xd, xe, xf),
               Half(xg, xh, xi, xj, xk, xl, xm, xn, xo, xp, xq, xr, xs, xt, xu, xv));
  }

  lemma RoundsAdd(x: State, m: nat, n: nat)
    ensures Rounds(Rounds(x, m), n) == Rounds(x, m + n)
  {
    hide Round;
  }

  /** `SIXTEEN_ROUNDS`, for any of the unroll settings 2, 4, 8 and 16. */
  method SixteenRounds(s: State, unroll: nat) returns (t: State)
    requires unroll in {2, 4, 8, 16}
    ensures t == Rounds(s, 16)
  {
    hide Round, Arranged;
    t := s;
    for j := 0 to 16 / unroll
      invariant t == Rounds(s, j * unroll)
    {
      ghost var start := t;
      for i := 0 to unroll / 2
        invariant t == Rounds(start, 2 * i)
      {
        ghost var x := t;
        t := RoundEven(t);
        t := RoundOdd(t, Round(x));
        assert Rounds(start, 2 * i + 2) == Round(Round(Rounds(start, 2 * i)));
      }
      RoundsAdd(s, j * unroll, unroll);
      assert (j + 1) * unroll == j * unroll + unroll;
    }
  }
}

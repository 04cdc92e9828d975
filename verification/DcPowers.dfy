/** Square roots and integer powers of dc numbers. */
module DcPowers {
  import opened Arith
  import opened DcDigits
  import opened DcBlk
  import opened DcAdd
  import opened DcMult
  import opened DcDivide

  // ---- square root ----------------------------------------------------------

  /** r is the square root of p, rounded down. */
  predicate IsRoot(r: int, p: int) {
    0 <= r && r * r <= p < (r + 1) * (r + 1)
  }

  lemma FourProducts(x: int, y: int)
    ensures 4 * (x * y) <= (x + y) * (x + y)
  {
    assert (x - y) * (x - y) >= 0;
    assert (x + y) * (x + y) - (x - y) * (x - y) == 4 * (x * y);
  }

  /** A Newton step never falls below the root. */
  lemma NewtonAbove(p: int, r: int, q: int, h: int)
    requires 0 < r && 0 <= q && p < (q + 1) * r
    requires q + r <= 2 * h + 1
    ensures p < (h + 1) * (h + 1)
  {
    FourProducts(q + 1, r);
    SquareMono(q + 1 + r, 2 * (h + 1));
    assert (2 * (h + 1)) * (2 * (h + 1)) == 4 * ((h + 1) * (h + 1));
  }

  lemma SquareMono(a: int, b: int)
    requires 0 <= a <= b
    ensures a * a <= b * b
  {
    MulMono(a, b, a);
    MulMono(a, b, b);
  }

  /** When the step does not go down, r is the root. */
  lemma NewtonStops(p: int, r: int, q: int, h: int)
    requires 0 < r && q * r <= p && 2 * h <= q + r && r <= h
    ensures r * r <= p
  {
    MulMono(r, q, r);
  }

  /** The top digit, or two when there is an even number of them, as a number. */
  function LeadPair(p: seq<int>): int
    requires p != []
  {
    if |p| % 2 == 1 then p[|p| - 1] else p[|p| - 1] * 100 + p[|p| - 2]
  }

  /** A number is its leading pair of digits above an even number of digits. */
  lemma LeadPairValue(p: seq<int>)
    requires p != []
    ensures var m := 2 * ((|p| + 1) / 2 - 1); Val(p) == Val(p[..m]) + LeadPair(p) * Pow100(m)
  {
    hide Val, Pow100;
    var m := 2 * ((|p| + 1) / 2 - 1);
    TopSplitVal(p);
    if |p| % 2 == 1 {
      assert m == |p| - 1;
    } else {
      var a, b := p[m + 1], p[m];
      assert m + 1 == |p| - 1;
      ValSnoc(p, m);
      PowSucc(m);
      MulSum(a * 100, b, Pow100(m));
      MulAssoc(a, 100, Pow100(m));
    }
  }

  /** A number whose square exceeds the leading pair, over zeros, has a square above p. */
  lemma SeedAbove(p: seq<int>, c: int, s: int)
    requires Plain(p) && p != []
    requires c == LeadPair(p)
    requires 0 < s && c < s * s
    ensures var e := Pow100((|p| + 1) / 2 - 1); Val(p) < (s * e) * (s * e)
  {
    var n := (|p| + 1) / 2 - 1;
    var e := Pow100(n);
    var low := p[..2 * n];
    PlainBounds(low);
    PowSum(n, n);
    LeadPairValue(p);
    hide Val, Pow100;
    SeedArith(Val(low), c, s, e, Pow100(2 * n));
  }

  lemma TopSplitVal(p: seq<int>)
    requires p != []
    ensures Val(p) == Val(p[..|p| - 1]) + p[|p| - 1] * Pow100(|p| - 1)
  {
  }

  lemma SeedArith(low: int, c: int, s: int, e: int, e2: int)
    requires 0 <= low < e2 && e2 == e * e && c + 1 <= s * s && 0 < e
    ensures low + c * e2 < (s * e) * (s * e)
  {
    MulMono(c + 1, s * s, e2);
    MulSum(c, 1, e2);
    assert (s * s) * (e * e) == (s * e) * (s * e);
  }

  lemma ScaledDigit(n: nat, d: int)
    ensures Val(seq(n, _ => 0) + [d]) == d * Pow100(n)
  {
    var z := seq(n, _ => 0);
    AllZero(z);
    ValPush(z, d);
  }

  method TopPair(p: Blk) returns (c: int)
    requires Plain(p.s) && p.s != []
    modifies p`rd
    ensures c == LeadPair(p.s)
    ensures 0 <= c <= 9999
  {
    p.Fsfile();
    c := p.Sbackc();
    assert Digit(p.s[|p.s| - 1]);
    if |p.s| % 2 != 1 {
      var d := p.Sbackc();
      assert Digit(p.s[|p.s| - 2]);
      c := c * 100 + d;
    }
  }

  /** One more than the root of c0, by taking away odd numbers (lines 1076-1079). */
  method OddSeed(c0: int) returns (c: int)
    requires 0 <= c0 <= 9999
    ensures 1 <= c <= 100 && c0 < c * c
  {
    c := c0;
    var nn := 1;
    c := c - nn;
    ghost var j := 0;
    while c >= 0
      invariant nn == 2 * j + 1 && 0 <= j && j * j <= c0
      invariant c == c0 - (j + 1) * (j + 1)
      decreases c + nn
    {
      OddSquare(j);
      j := j + 1;
      nn := nn + 2;
      c := c - nn;
    }
    c := (nn + 1) / 2;
    if j >= 100 {
      SquareMono(100, j);
    }
  }

  /** n zeros with c written on top, carried into one more digit when c is 100 (lines 1080-1087). */
  method PutTop(r: Blk, n: nat, c: int)
    requires r.s == seq(n, _ => 0) && 0 < n && 1 <= c <= 100
    modifies r
    ensures Plain(r.s) && r.s != [] && r.s[|r.s| - 1] != 0
    ensures Val(r.s) == c * Pow100(n - 1)
  {
    hide Val, Pow100;
    assert r.s[..n - 1] == seq(n - 1, _ => 0);
    ScaledDigit(n - 1, c);
    ScaledDigit(n, 1);
    PowSucc(n - 1);
    r.Fsfile();
    r.Backc();
    if c >= 100 {
      r.Salterc(c - 100);
      r.Sputc(1);
      assert r.s == seq(n, _ => 0) + [1];
    } else {
      r.Salterc(c);
      assert r.s == seq(n - 1, _ => 0) + [c];
    }
  }

  /** The first approximation: one more than the root of the leading digits, over zeros. */
  method Seed(p: Blk) returns (r: Blk)
    requires Plain(p.s) && p.s != []
    modifies p`rd
    ensures fresh(r) && Normal(r.s) && 0 < Val(r.s)
    ensures Val(p.s) < Val(r.s) * Val(r.s)
  {
    hide Val, Pow100, LeadPair;
    var c0 := TopPair(p);
    var n := (|p.s| + 1) / 2;
    r := new Blk();
    r.s := seq(n, _ => 0);  // salloc, zero, seekc
    var c := OddSeed(c0);
    SeedAbove(p.s, c0, c);
    PutTop(r, n, c);
    TopBounds(r.s);
  }

  lemma OddSquare(j: int)
    ensures (j + 2) * (j + 2) == (j + 1) * (j + 1) + 2 * j + 3
    ensures (j + 1) * (j + 1) == j * j + 2 * j + 1
  {
  }

  /** The mean of r and p/r (lines 1089-1095). */
  method NewtonStep(p: Blk, r: Blk, divxyz: Blk, sqtemp: Blk) returns (q: Blk)
    requires divxyz !in {p, r, sqtemp} && r != p && sqtemp !in {p, r} && sqtemp.s == [2]
    requires Normal(p.s) && Normal(r.s) && 0 < Val(p.s) && 0 < Val(r.s)
    modifies r`rd, divxyz, sqtemp`rd
    ensures fresh(q) && Normal(q.s) && 0 <= Val(q.s)
    ensures Val(p.s) < (Val(q.s) + 1) * (Val(q.s) + 1)
    ensures Val(q.s) >= Val(r.s) ==> Val(r.s) * Val(r.s) <= Val(p.s)
  {
    TwoIsTwo();
    hide Val, Pow100, IsQuotient, Normal, Number;
    NormalAgain(r.s);
    NormalAgain(p.s);
    var q1, rem := Div(p, r, divxyz);
    ghost var qv, rv := Val(q1.s), Val(rem.s);
    NormalAgain(q1.s);
    var s := Add(q1, r);
    NormalAgain(s.s);
    q, rem := Div(s, sqtemp, divxyz);
    NewtonFacts(Val(p.s), Val(r.s), qv, rv, Val(q.s), Val(rem.s));
  }

  /** The test that ends the iteration: the sign of q - r (lines 1096-1103). */
  method NotBelow(q: Blk, r: Blk) returns (stop: bool)
    requires Normal(q.s) && Normal(r.s)
    modifies q`rd
    ensures stop <==> Val(q.s) >= Val(r.s)
  {
    hide Val, Pow100;
    var s := r.Copy();
    Chsign(s);
    var t := Add(s, q);
    SignIsTop(t.s);
    TopNegativeIff(t.s);
    t.Fsfile();
    var nn := 0;
    if !t.Sfbeg() {
      nn := t.Sbackc();
    }
    stop := nn >= 0;
  }

  lemma NewtonFacts(p: int, r: int, q: int, rem: int, h: int, rem': int)
    requires 0 < p && 0 < r && IsQuotient(p, r, q, rem) && IsQuotient(q + r, 2, h, rem')
    ensures 0 <= h && p < (h + 1) * (h + 1)
    ensures h >= r ==> r * r <= p
  {
    MulSum(q, 1, r);
    QuotientNonneg(p, r, q, rem);
    QuotientNonneg(q + r, 2, h, rem');
    NewtonAbove(p, r, q, h);
    if h >= r {
      NewtonStops(p, r, q, h);
    }
  }

  lemma TopNegativeIff(s: seq<int>)
    requires Number(s)
    ensures s != [] ==> (s[|s| - 1] < 0 <==> Negative(s))
  {
    assert !Negative(s) && s != [] ==> Digit(s[|s| - 1]);
  }

  /** The root, rounded down, by Newton's method from above. */
  method Dcsqrt(p: Blk, divxyz: Blk, sqtemp: Blk) returns (r: Blk)
    requires divxyz !in {p, sqtemp} && sqtemp != p && sqtemp.s == [2]
    requires Normal(p.s) && 0 < Val(p.s)
    modifies p`rd, divxyz, sqtemp`rd
    ensures fresh(r) && Normal(r.s) && IsRoot(Val(r.s), Val(p.s))
  {
    SignIsTop(p.s);
    ZeroIsEmpty(p.s);
    hide Val, Pow100;
    r := Seed(p);
    SquareMono(Val(r.s), Val(r.s) + 1);
    while true
      invariant fresh(r) && Normal(r.s) && 0 < Val(r.s)
      invariant Val(p.s) < (Val(r.s) + 1) * (Val(r.s) + 1)
      decreases Val(r.s)
    {
      var q := NewtonStep(p, r, divxyz, sqtemp);
      var stop := NotBelow(q, r);
      if stop {
        break;
      }
      RootPositive(Val(p.s), Val(q.s));
      r := q;
    }
  }

  lemma RootPositive(p: int, h: int)
    requires 0 <= h && 0 < p < (h + 1) * (h + 1)
    ensures 0 < h
  {
  }

  lemma TwoIsTwo()
    ensures Val([2]) == 2 && Normal([2]) && Plain([2])
  {
    assert [2][..0] == [];
  }

  lemma QuotientNonneg(a: int, b: int, q: int, r: int)
    requires 0 <= a && 0 < b && a == q * b + r && Abs(r) < b && (r != 0 ==> 0 <= r)
    ensures 0 <= q
  {
    if q < 0 {
      MulMono(q, -1, b);
    }
  }

  // ---- powers ---------------------------------------------------------------

  function Power(b: int, n: nat): int {
    if n == 0 then 1 else b * Power(b, n - 1)
  }

  lemma {:induction false} PowerSquare(b: int, n: nat)
    ensures Power(b * b, n) == Power(b, 2 * n)
  {
    if n > 0 {
      PowerSquare(b, n - 1);
      assert Power(b, 2 * n) == b * Power(b, 2 * n - 1) == b * (b * Power(b, 2 * n - 2));
      MulAssoc(b, b, Power(b, 2 * n - 2));
    }
  }

  /** Halving the exponent and squaring the base keeps the value still to be multiplied in. */
  lemma PowerHalves(b: int, r: int, n: nat, h: nat, odd: int)
    requires n == 2 * h + odd && (odd == 0 || odd == 1)
    ensures r * Power(b, n) == (if odd == 1 then b * r else r) * Power(b * b, h)
  {
    PowerSquare(b, h);
    if odd == 1 {
      assert Power(b, n) == b * Power(b, 2 * h);
      MulAssoc(r, b, Power(b, 2 * h));
    }
  }

  /** What dcexp answers for a negative exponent (lines 1150-1164). */
  function Reciprocal(base: seq<int>): seq<int> {
    if |base| == 1 && base[0] <= 1 then base else []
  }

  /** Half the exponent, and whether it was odd. */
  method Halve(e: Blk, divxyz: Blk, sqtemp: Blk) returns (e1: Blk, odd: bool)
    requires divxyz !in {e, sqtemp} && sqtemp.s == [2] && Plain(e.s) && |e.s| != 0 && 0 <= Val(e.s)
    modifies divxyz, sqtemp`rd
    ensures fresh(e1) && Plain(e1.s) && 0 <= Val(e1.s)
    ensures Val(e.s) == 2 * Val(e1.s) + if odd then 1 else 0
    ensures Val(e1.s) < Val(e.s) || (Val(e1.s) == Val(e.s) == 0 && |e1.s| == 0)
  {
    TwoIsTwo();
    hide Val, Pow100, Normal, Number;
    PlainNumber(e.s);
    var rem;
    e1, rem := Div(e, sqtemp, divxyz);
    HalfFacts(Val(e.s), Val(e1.s), Val(rem.s));
    ZeroIsEmpty(rem.s);
    ZeroIsEmpty(e1.s);
    NonnegPlain(e1.s);
    odd := |rem.s| != 0;
  }

  /** The squaring loop (lines 1133-1149). */
  method PowerLoop(base: Blk, e0: Blk, divxyz: Blk, sqtemp: Blk) returns (r: Blk)
    requires divxyz !in {base, e0, sqtemp} && sqtemp !in {base, e0} && sqtemp.s == [2]
    requires Normal(base.s) && Plain(e0.s)
    modifies divxyz, sqtemp`rd
    ensures fresh(r) && Normal(r.s)
    ensures 0 <= Val(e0.s) && Val(r.s) == Power(Val(base.s), Val(e0.s))
  {
    TwoIsTwo();
    PlainBounds(e0.s);
    EmptyValue();
    hide Val, Pow100, Normal, Number;
    r := new Blk();
    r.Sputc(1);
    OneIsOne();
    var p := base.Copy();
    var e := e0.Copy();
    while |e.s| != 0
      invariant fresh(r) && fresh(p) && fresh(e) && r != p
      invariant Normal(r.s) && Normal(p.s) && Plain(e.s) && 0 <= Val(e.s)
      invariant Val(r.s) * Power(Val(p.s), Val(e.s)) == Power(Val(base.s), Val(e0.s))
      decreases Val(e.s), |e.s|
    {
      NormalAgain(r.s);
      NormalAgain(p.s);
      var e1, odd := Halve(e, divxyz, sqtemp);
      PowerHalves(Val(p.s), Val(r.s), Val(e.s), Val(e1.s), if odd then 1 else 0);
      e := e1;
      if odd {
        r := Mult(p, r);
      }
      var t := p.Copy();
      p := Mult(p, t);
    }
  }

  lemma OneIsOne()
    ensures Val([1]) == 1 && Normal([1])
  {
    assert [1][..0] == [];
  }

  lemma PlainNumber(s: seq<int>)
    requires Plain(s)
    ensures Number(s)
  {
    if s != [] { assert Digit(s[|s| - 1]); }
  }

  lemma NonnegPlain(s: seq<int>)
    requires Normal(s) && 0 <= Val(s)
    ensures Plain(s)
  {
    SignIsTop(s);
  }

  lemma HalfFacts(a: int, q: int, r: int)
    requires 0 <= a && IsQuotient(a, 2, q, r)
    ensures a == 2 * q + r && 0 <= q && (r == 0 || r == 1) && (q < a || a == 0)
  {
    QuotientNonneg(a, 2, q, r);
  }

  /** The end of dcexp for a negative exponent (lines 1150-1164). */
  method Invert(base: Blk, r: Blk, ghost e: int)
    requires base != r && Normal(base.s) && Normal(r.s) && e > 0 && Val(r.s) == Power(Val(base.s), e)
    modifies base`rd, r
    ensures r.s == Reciprocal(base.s) && Normal(r.s)
  {
    hide Val, Power;
    ZeroIsEmpty(base.s);
    if |base.s| == 0 {
      PowerOfZero(e);
      ZeroIsEmpty(r.s);
    } else if |base.s| > 1 {
      r.Create();
    } else {
      base.Rewind();
      var d := base.Sgetc();
      r.Create();
      if d <= 1 {
        r.Sputc(d);
      }
    }
  }

  /** base to the power ex, by squaring; a negative exponent has its own, mostly truncated, answer. */
  method Dcexp(base: Blk, ex: Blk, divxyz: Blk, sqtemp: Blk) returns (r: Blk)
    requires divxyz !in {base, ex, sqtemp} && sqtemp !in {base, ex} && sqtemp.s == [2]
    requires Normal(base.s) && Number(ex.s)
    modifies base`rd, divxyz, sqtemp`rd
    ensures fresh(r) && Normal(r.s)
    ensures Val(ex.s) >= 0 ==> Val(r.s) == Power(Val(base.s), Val(ex.s))
    ensures Val(ex.s) < 0 ==> r.s == Reciprocal(base.s)
    ensures Val(ex.s) < 0 ==> Val(r.s) == if Val(base.s) == 1 then 1 else if base.s == [-1] then -1 else 0
  {
    hide Val, Pow100;
    var e := ex.Copy();
    e.Fsfile();
    SignIsTop(e.s);
    TopNegativeIff(e.s);
    var c := 0;
    if !e.Sfbeg() {
      c := e.Sbackc();
    }
    if c < 0 {
      Chsign(e);
      SignIsTop(e.s);
    }
    hide Normal, Number;
    r := PowerLoop(base, e, divxyz, sqtemp);
    if c < 0 {
      Invert(base, r, Val(e.s));
      ReciprocalIs(base.s);
    }
  }

  lemma PowerOfZero(n: nat)
    ensures n > 0 ==> Power(0, n) == 0
  {
  }

  lemma {:induction false} PowerSmall(b: int, n: nat)
    ensures b == 1 ==> Power(b, n) == 1
    ensures b == -1 ==> Power(b, n) == if n % 2 == 0 then 1 else -1
    ensures Abs(b) >= 2 && n > 0 ==> Abs(Power(b, n)) >= 2
  {
    if n > 0 {
      PowerSmall(b, n - 1);
      var x := Power(b, n - 1);
      if Abs(b) >= 2 {
        assert Abs(x) >= 1;
        MulMono(2, Abs(b), Abs(x));
        assert Abs(b * x) == Abs(b) * Abs(x);
      }
    }
  }

  /** For a negative exponent dcexp gives the reciprocal cut to an integer, except of minus one:
      the form add leaves always goes wrong, the form chsign leaves for every even exponent. */
  lemma ReciprocalExact(base: seq<int>, n: nat)
    requires Normal(base) && Val(base) != 0 && n > 0
    ensures var pw, v := Power(Val(base), n), Val(Reciprocal(base));
      IsQuotient(1, pw, v, 1 - v * pw) <==> !(Val(base) == -1 && (base == MINUS_ONE_SUM || n % 2 == 0))
  {
    var b, v := Val(base), Val(Reciprocal(base));
    PowerSmall(b, n);
    OneIsOne();
    EmptyValue();
    SignIsTop(base);
    assert [-1][..0] == [];
    if |base| == 1 {
      assert base == [base[0]] && base[..0] == [];
      assert b == base[0];
    } else {
      LongerThanOne(base);
    }
    if Abs(b) >= 2 {
      assert v == 0;
    }
  }

  /** Only in the form add leaves does minus one take two digits. */
  lemma LongerThanOne(s: seq<int>)
    requires Normal(s) && |s| > 1
    ensures Abs(Val(s)) >= 2 || (Val(s) == -1 && s == MINUS_ONE_SUM)
  {
    SignIsTop(s);
    if s != MINUS_ONE_SUM {
      if Negative(s) {
        NegativeBounds(s);
      } else {
        TopBounds(s);
        PowMono(1, |s| - 1);
      }
    } else {
      MinusOneSum();
    }
  }

  lemma MinusOneSum()
    ensures Val(MINUS_ONE_SUM) == -1
  {
    assert MINUS_ONE_SUM[..1] == [99] && [99][..0] == [];
    assert Val([99]) == 99;
    assert Pow100(1) == 100;
  }

  /** Below zero the code leaves one for the base one, minus one for the base -1 stored in one digit, and
      zero for every other base, zero among them. */
  lemma ReciprocalIs(base: seq<int>)
    requires Normal(base)
    ensures Val(Reciprocal(base)) == if Val(base) == 1 then 1 else if base == [-1] then -1 else 0
  {
    EmptyValue();
    SignIsTop(base);
    assert [-1][..0] == [];
    if |base| == 1 {
      assert base == [base[0]] && base[..0] == [];
    } else if base != [] {
      LongerThanOne(base);
    }
  }

  /** dcexp(-1, -2) leaves -1 where the reciprocal of (-1)^2 is 1. */
  lemma ReciprocalCounterexample()
    ensures Normal([-1]) && Val(Reciprocal([-1])) == -1 && IsQuotient(1, Power(-1, 2), 1, 0)
  {
    assert [-1][..0] == [];
    PowerSmall(-1, 2);
  }
}

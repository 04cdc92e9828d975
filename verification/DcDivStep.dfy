/** One turn of dc's division loop: guess a digit, subtract its product, fold the top digit down. */
module DcDivStep {
  import opened Arith
  import opened DcDigits
  import opened DcEstimate
  import opened DcDiv

  predicate Divisor(d: seq<int>) {
    Plain(d) && d != [] && d[|d| - 1] != 0
  }

  /** The working dividend while quotient digit off is still to be found: plain digits under a
      top digit that may have absorbed a hundred, and less than 118 divisors at that digit. */
  predicate Working(s: seq<int>, d: seq<int>, off: nat) {
    && |s| == off + |d| + 1
    && Plain(s[..|s| - 1])
    && 0 <= s[|s| - 1] <= 117
    && Val(s) < DIGIT_LIMIT * (Val(d) * Pow100(off))
  }

  lemma LeadsTimes(c: int, magic: bool, y: int, g: int, e: int)
    requires Leads(c, magic, y, g) && 0 < e
    ensures Leads(c, magic, y * e, g * e)
  {
    MulMonoStrict(0, g, e);
    MulMono(c * g, y, e);
    MulAssoc(c, g, e);
    MulMonoStrict(25 * y, (25 * (c + 1) + 1) * g, e);
    MulAssoc(25, y, e);
    MulAssoc(25 * (c + 1) + 1, g, e);
    if !magic {
      MulMonoStrict(y, (c + 1) * g, e);
      MulAssoc(c + 1, g, e);
    }
  }

  lemma ScaleTimes(k: int, d: int, e: int)
    ensures (k * 100 * d) * e == k * 100 * (d * e)
  {
    MulAssoc(k * 100, d, e);
  }

  /** The hypotheses the estimate needs, from the digits it is made of. */
  lemma EstimateHolds(s: seq<int>, d: seq<int>, off: nat)
    requires Divisor(d) && Working(s, d, off)
    ensures FromTop(d, 0) > 0 && FromTop(d, 1) >= 0 && FromTop(d, 2) >= 0
    ensures var (c, magic) := LeadScaled(d);
      var k, de, u, td := Scale(magic), Val(d) * Pow100(off), Pow100(|d| - 1 + off), LeadThree(s);
      && 0 <= td
      && Leads(c, magic, k * 100 * de, u)
      && k * td * u <= k * 100 * Val(s) < k * (td + 1) * u
      && k * 100 * Val(s) < DIGIT_LIMIT * (k * 100 * de)
  {
    LeadsDivisor(d);
    LeadBounds(s);
    hide Val, Pow100, LeadScaled, Leads;
    var (c, magic) := LeadScaled(d);
    var k, e := Scale(magic), Pow100(off);
    LeadsTimes(c, magic, k * 100 * Val(d), Pow100(|d| - 1), e);
    ScaleTimes(k, Val(d), e);
    PowSum(|d| - 1, off);
    PowSucc(|d| - 1 + off);
    LeadNonneg(s);
    CancelHundred(LeadThree(s), Val(s), Pow100(|d| - 1 + off), Pow100(|s| - 1), k);
  }

  lemma LeadNonneg(s: seq<int>)
    requires s != [] && Plain(s[..|s| - 1]) && s[|s| - 1] >= 0
    ensures 0 <= LeadThree(s)
  {
    assert |s| > 1 ==> Digit(s[..|s| - 1][|s| - 2]);
    assert |s| > 2 ==> Digit(s[..|s| - 1][|s| - 3]);
  }

  lemma CancelHundred(td: int, v: int, u: int, p: int, k: int)
    requires p == 100 * u && (k == 1 || k == 8)
    requires td * p <= 10000 * v < (td + 1) * p
    ensures k * td * u <= k * 100 * v < k * (td + 1) * u
  {
    MulAssoc(td, 100, u);
    MulAssoc(td + 1, 100, u);
    MulAssoc(k, td, u);
    MulAssoc(k, td + 1, u);
  }

  lemma InnerGuess(s: seq<int>, d: seq<int>, off: nat)
    requires Divisor(d) && Working(s, d, off)
    ensures FromTop(d, 0) > 0 && FromTop(d, 1) >= 0 && FromTop(d, 2) >= 0
    ensures var (c, magic) := LeadScaled(d);
      var q, de := Estimate(LeadThree(s), c, magic, false).0, Val(d) * Pow100(off);
      0 <= q < DIGIT_LIMIT && q * de <= Val(s) && 100 * (Val(s) - q * de) < DIGIT_LIMIT * de
  {
    hide Val, Pow100, LeadScaled, Leads, Estimate, LeadThree, Working;
    EstimateHolds(s, d, off);
    var (c, magic) := LeadScaled(d);
    var k, de := Scale(magic), Val(d) * Pow100(off);
    EstimateInner(LeadThree(s), c, magic, k * 100 * Val(s), k * 100 * de, Pow100(|d| - 1 + off));
    MulAssoc(Estimate(LeadThree(s), c, magic, false).0, k * 100, de);
  }

  lemma CancelScale(k: int, hi: int, lo: int, y: int, v: int)
    requires k == 1 || k == 8
    requires lo * (k * 100 * y) <= k * 100 * v < hi * (k * 100 * y)
    ensures lo * y <= v < hi * y
  {
    MulAssoc(hi, k * 100, y);
    MulAssoc(lo, k * 100, y);
    MulAssoc(k * 100, hi, y);
    MulAssoc(k * 100, lo, y);
  }

  lemma LastGuess(s: seq<int>, d: seq<int>)
    requires Divisor(d) && Working(s, d, 0)
    ensures FromTop(d, 0) > 0 && FromTop(d, 1) >= 0 && FromTop(d, 2) >= 0
    ensures var (c, magic) := LeadScaled(d);
      var (q, under) := Estimate(LeadThree(s), c, magic, true);
      && 0 <= q <= DIGIT_LIMIT
      && Val(s) < (q + if under then 2 else 1) * Val(d)
      && (if under then q else q - 1) * Val(d) <= Val(s)
  {
    EstimateHolds(s, d, 0);
    assert Val(d) * Pow100(0) == Val(d);
    hide Val, Pow100, LeadScaled, Leads, Estimate, LeadThree, Working;
    var (c, magic) := LeadScaled(d);
    var k, y := Scale(magic), Val(d);
    EstimateLast(LeadThree(s), c, magic, k * 100 * Val(s), k * 100 * y, Pow100(|d| - 1));
    var (q, under) := Estimate(LeadThree(s), c, magic, true);
    var hi, lo := q + if under then 2 else 1, if under then q else q - 1;
    CancelScale(k, hi, lo, y, Val(s));
  }

  // ---- what the subtraction leaves ------------------------------------------

  /** s less v at digit off, and whether that borrowed past the top of s. */
  predicate Reduced(s: seq<int>, v: int, off: nat, t: seq<int>, c: int) {
    && |t| == |s| > 0 && 0 <= c <= 1
    && Plain(t[..|t| - 1])
    && t[|t| - 1] <= 117
    && (if c == 0 then t[|t| - 1] >= 0 else t[|t| - 1] < 100)
    && Val(t) - c * Pow100(|s|) == Val(s) - v * Pow100(off)
  }

  lemma SubtractMeaning(s: seq<int>, x: seq<int>, m: nat, off: nat)
    requires |s| == off + m + 1 && Plain(s[..|s| - 1]) && 0 <= s[|s| - 1] <= 117
    requires |x| > m && Plain(x[..m]) && 0 <= x[m] <= DIGIT_LIMIT
    ensures var (t, c) := Subtracted(s, x, off, m + 1);
      Reduced(s, Val(x[..m + 1]), off, t, c)
  {
    hide Val, Pow100;
    SubtractedPlain(s, x, off, m);
    SubtractedValue(s, x, off, m + 1);
    assert s[..off + m + 1] == s;
    var (r, c) := Subtracted(s, x, off, m);
    var (t, c') := Subtracted(s, x, off, m + 1);
    assert t[..|t| - 1] == r;
  }

  lemma TopSplit(t: seq<int>)
    requires t != [] && Plain(t[..|t| - 1])
    ensures var p := Pow100(|t| - 1);
      t[|t| - 1] * p <= Val(t) < (t[|t| - 1] + 1) * p && Pow100(|t|) == 100 * p
  {
    var n := |t| - 1;
    PlainBounds(t[..n]);
    MulSum(t[n], 1, Pow100(n));
  }

  lemma BorrowIsSign(s: seq<int>, v: int, off: nat, t: seq<int>, c: int)
    requires Reduced(s, v, off, t, c)
    ensures c == 1 <==> Val(s) < v * Pow100(off)
  {
    hide Val, Pow100;
    TopSplit(t);
    var top, p := t[|t| - 1], Pow100(|t| - 1);
    if c == 1 {
      MulMono(top + 1, 100, p);
    } else {
      MulMono(0, top, p);
    }
  }

  /** Divisor times a power stays below one unit of the top digit of the working dividend. */
  lemma DivisorUnit(d: seq<int>, off: nat)
    requires Divisor(d)
    ensures 0 < Val(d) * Pow100(off) < Pow100(off + |d|)
  {
    TopBounds(d);
    PowSum(|d|, off);
    MulMonoStrict(Val(d), Pow100(|d|), Pow100(off));
    MulMonoStrict(0, Val(d), Pow100(off));
  }

  /** The top digit a quotient digit before the last leaves is 0 or 1. */
  lemma TopSmall(t: seq<int>, u: int)
    requires t != [] && Plain(t[..|t| - 1]) && 0 <= t[|t| - 1]
    requires 100 * Val(t) < DIGIT_LIMIT * u && u <= Pow100(|t| - 1)
    ensures t[|t| - 1] <= 1
    ensures t[|t| - 1] == 1 && |t| > 1 ==> t[|t| - 2] <= 17
  {
    hide Val, Pow100;
    TopSplit(t);
    var n := |t| - 1;
    if t[n] >= 2 {
      MulMono(2, t[n], Pow100(n));
    }
    if t[n] == 1 && n > 0 {
      SecondSmall(t);
    }
  }

  lemma SecondSmall(t: seq<int>)
    requires |t| > 1 && Plain(t[..|t| - 1]) && t[|t| - 1] == 1
    requires 100 * Val(t) < DIGIT_LIMIT * Pow100(|t| - 1)
    ensures t[|t| - 2] <= 17
  {
    hide Val, Pow100;
    var n := |t| - 1;
    var low := t[..n];
    PlainPrefix(low, n - 1);
    TopSplit(low);
    ValSnoc(t, n);
    assert t[..n + 1] == t;
    if low[n - 1] >= 18 {
      MulMono(18, low[n - 1], Pow100(n - 1));
    }
  }

  /** The working dividend once its top digit is folded into the one below. */
  function Folded(t: seq<int>): seq<int>
    requires |t| > 1
  {
    if t[|t| - 1] != 0 then t[..|t| - 2] + [t[|t| - 2] + 100] else t[..|t| - 1]
  }

  lemma FoldKeeps(t: seq<int>)
    requires |t| > 1 && Plain(t[..|t| - 1]) && 0 <= t[|t| - 1] <= 1
    requires t[|t| - 1] == 1 ==> t[|t| - 2] <= 17
    ensures var f := Folded(t);
      && Val(f) == Val(t) && |f| == |t| - 1 && Plain(f[..|f| - 1]) && 0 <= f[|f| - 1] <= 117
  {
    var n := |t| - 1;
    var f := Folded(t);
    PlainPrefix(t[..n], n - 1);
    assert f[..n - 1] == t[..n][..n - 1];
    assert Digit(t[..n][n - 1]);
    if t[n] != 0 {
      ValSnoc(t, n - 1);
      MulSum(t[n - 1], 100, Pow100(n - 1));
    }
  }

  /** A digit before the last leaves a working dividend for the next, one place down. */
  lemma InnerStep(s: seq<int>, d: seq<int>, off: nat, t: seq<int>, c: int, q: int)
    requires Divisor(d) && Working(s, d, off) && off > 0
    requires FromTop(d, 0) > 0 && FromTop(d, 1) >= 0 && FromTop(d, 2) >= 0
    requires var (lead, magic) := LeadScaled(d); q == Estimate(LeadThree(s), lead, magic, false).0
    requires Reduced(s, q * Val(d), off, t, c)
    ensures 0 <= q < DIGIT_LIMIT && c == 0
    ensures 0 <= t[|t| - 1] <= 1 && (t[|t| - 1] == 1 ==> t[|t| - 2] <= 17)
    ensures Working(Folded(t), d, off - 1)
    ensures Val(Folded(t)) == Val(s) - q * (Val(d) * Pow100(off))
  {
    hide Val, Pow100, LeadScaled, Estimate, LeadThree;
    InnerGuess(s, d, off);
    var de := Val(d) * Pow100(off);
    MulAssoc(q, Val(d), Pow100(off));
    BorrowIsSign(s, q * Val(d), off, t, c);
    DivisorUnit(d, off);
    TopSmall(t, de);
    FoldKeeps(t);
    PowSucc(off - 1);
    MulAssoc(Val(d), 100, Pow100(off - 1));
  }

  /** Where the last turn of the loop leaves things: v was what was left to divide. */
  predicate Finished(v: int, d: seq<int>, s: seq<int>, dig: int, under: bool, divcarry: int) {
    var r := v - dig * Val(d);
    && |s| == |d| + 1 && Plain(s[..|d|]) && 0 <= s[|d|] <= 117 && 0 <= dig <= DIGIT_LIMIT
    && (if divcarry == 0 then
          0 <= r < (if under then 2 else 1) * Val(d) && Val(s) == r && s[|d|] <= 1
        else
          divcarry == 1 && !under && -Val(d) <= r < 0 && s[|d|] == 99 && Val(s) == r + Pow100(|d| + 1))
  }

  lemma LastStep(s: seq<int>, d: seq<int>, t: seq<int>, c: int, q: int, under: bool)
    requires Divisor(d) && Working(s, d, 0)
    requires FromTop(d, 0) > 0 && FromTop(d, 1) >= 0 && FromTop(d, 2) >= 0
    requires var (lead, magic) := LeadScaled(d); (q, under) == Estimate(LeadThree(s), lead, magic, true)
    requires Reduced(s, q * Val(d), 0, t, c)
    ensures Finished(Val(s), d, t, q, under, c)
  {
    hide Val, Pow100, LeadScaled, Estimate, LeadThree;
    LastGuess(s, d);
    PowZero(Val(d), q * Val(d));
    DivisorUnit(d, 0);
    BorrowIsSign(s, q * Val(d), 0, t, c);
    LastTop(t, Val(s) - q * Val(d), c, Val(d), under);
    MulSum(q, if under then 2 else 1, Val(d));
    MulSum(q, -1, Val(d));
  }

  lemma PowZero(a: int, b: int)
    ensures a * Pow100(0) == a && b * Pow100(0) == b
  {
  }

  lemma LastTop(t: seq<int>, r: int, c: int, y: int, under: bool)
    requires |t| > 1 && Plain(t[..|t| - 1]) && t[|t| - 1] <= 117 && 0 < y < Pow100(|t| - 1)
    requires Val(t) - c * Pow100(|t|) == r && (c == 0 || c == 1)
    requires if c == 0 then t[|t| - 1] >= 0 else t[|t| - 1] < 100
    requires -y <= r < 2 * y
    requires c == 1 <==> r < 0
    ensures t[|t| - 1] <= 1 || (c == 1 && t[|t| - 1] == 99)
    ensures c == 1 ==> t[|t| - 1] == 99
  {
    hide Val, Pow100;
    TopSplit(t);
    var top, p := t[|t| - 1], Pow100(|t| - 1);
    if c == 0 {
      if top >= 2 { MulMono(2, top, p); }
    } else {
      if top <= 98 { MulMono(top + 1, 99, p); }
    }
  }
}

/** How dc guesses a quotient digit from the leading digits, and how far off it can be.
    X and Y stand for the rest of the dividend and for the divisor under the digit being
    guessed, both times the scale, and U for the weight of the last leading digit. */
module DcEstimate {
  import opened Arith

  /** The most a quotient digit can come to before the final carry pass. */
  const DIGIT_LIMIT := 118

  /** The guess of lines 872-884: the digit, and whether it was lowered by one. */
  function Estimate(td: int, c: int, magic: bool, last: bool): (int, bool)
    requires c > 0
  {
    var td' := if last then td + 1 else td;
    var cc := if last then c else c + 1;
    var t := if magic then td' * 8 else td';
    if magic && t / cc > 0 && t % cc < 8 then (t / cc - 1, true) else (t / cc, false)
  }

  function Scale(magic: bool): int {
    if magic then 8 else 1
  }

  /** c is the scaled leading digits of Y. */
  predicate Leads(c: int, magic: bool, Y: int, U: int) {
    && 800 <= c && 0 < U
    && c * U <= Y
    && 25 * Y < (25 * (c + 1) + 1) * U
    && (!magic ==> Y < (c + 1) * U)
  }

  lemma DivMod(t: int, n: int)
    requires n > 0
    ensures t == (t / n) * n + t % n && 0 <= t % n < n
  {
  }

  lemma GuessBelow(q: int, t: int, c: int, X: int, Y: int, U: int)
    requires 0 <= q && 0 < U && 0 <= c
    requires t * U <= X
    requires 25 * Y < (25 * (c + 1) + 1) * U
    requires 25 * (q * (c + 1)) + q <= 25 * t
    ensures q * Y <= X
  {
    MulMono(25 * Y, (25 * (c + 1) + 1) * U, q);
    MulAssoc(q, 25 * (c + 1) + 1, U);
    MulSum(25 * (c + 1), 1, q);
    MulAssoc(q, 25, c + 1);
    MulMono(25 * (q * (c + 1)) + q, 25 * t, U);
    MulAssoc(25, t, U);
    MulAssoc(q, 25, Y);
  }

  /** A guess that falls short of t by at most c + 15 leaves less than 1.18 Y. */
  lemma GuessRemainder(q: int, t: int, c: int, X: int, Y: int, U: int)
    requires 0 <= q && 0 < c && 0 < U && 0 <= Y
    requires X < t * U && c * U <= Y && t <= q * (c + 1) + c + 16
    ensures c * (X - q * Y) < (q + c + 16) * Y
  {
    var w := q * (c + 1) + c + 16;
    MulMono(t, w, U);
    MulMonoStrict(X, w * U, c);
    MulAssoc(c, w, U);
    MulAssoc(w, c, U);
    assert w >= 0 by { MulMono(0, q, c + 1); }
    MulMono(c * U, Y, w);
    MulSum(q * c, q + c + 16, Y);
    assert w == q * c + (q + c + 16) by { MulSum(c, 1, q); }
    MulAssoc(c, q, Y);
    MulDiff(X, q * Y, c);
  }

  lemma ScaleDown(c: int, D: int, k: int, Y: int)
    requires 0 < c && 0 <= Y && c * D < k * Y && 100 * k <= DIGIT_LIMIT * c
    ensures 100 * D < DIGIT_LIMIT * Y
  {
    MulMono(100 * k, DIGIT_LIMIT * c, Y);
    MulAssoc(100, k, Y);
    MulAssoc(DIGIT_LIMIT, c, Y);
    MulAssoc(c, DIGIT_LIMIT, Y);
    MulAssoc(c, 100, D);
    MulAssoc(100, c, D);
    CancelLt(100 * D, DIGIT_LIMIT * Y, c);
  }

  lemma GuessClose(q: int, t: int, c: int, X: int, Y: int, U: int)
    requires 0 <= q < DIGIT_LIMIT && 800 <= c && 0 < U && 0 <= Y
    requires X < t * U && c * U <= Y
    requires t <= q * (c + 1) + c + 16
    ensures 100 * (X - q * Y) < DIGIT_LIMIT * Y
  {
    GuessRemainder(q, t, c, X, Y, U);
    ScaleDown(c, X - q * Y, q + c + 16, Y);
  }

  lemma GuessSmall(q: int, X: int, Y: int)
    requires q * Y <= X < DIGIT_LIMIT * Y && 0 < Y
    ensures q < DIGIT_LIMIT
  {
    CancelLt(q, DIGIT_LIMIT, Y);
  }

  lemma LeadsPositive(c: int, magic: bool, Y: int, U: int)
    requires Leads(c, magic, Y, U)
    ensures 0 < Y
  {
    MulMono(800, c, U);
  }

  /** The raw quotient of the leading digits is at most one over the limit. */
  lemma RawGuessSmall(q: int, t: int, c: int, X: int, Y: int, U: int, slack: int)
    requires 800 <= c && 0 < U && 0 <= slack <= 8
    requires t * U <= X + slack * U && X < DIGIT_LIMIT * Y
    requires 25 * Y < (25 * (c + 1) + 1) * U
    requires q * c <= t
    ensures q <= DIGIT_LIMIT + 1
  {
    var b := 118 * (25 * (c + 1) + 1) + 200;
    MulSum(118 * (25 * (c + 1) + 1), 200, U);
    MulAssoc(118, 25 * (c + 1) + 1, U);
    MulMono(slack, 8, U);
    assert 25 * (t * U) < b * U;
    MulAssoc(25, t, U);
    CancelLt(25 * t, b, U);
    if q >= 120 {
      MulMono(120, q, c);
    }
  }

  /** A digit before the last: never too big, and what is left is under 1.18 of the divisor. */
  lemma EstimateInner(td: int, c: int, magic: bool, X: int, Y: int, U: int)
    requires 0 <= td && Leads(c, magic, Y, U)
    requires Scale(magic) * td * U <= X < Scale(magic) * (td + 1) * U
    requires X < DIGIT_LIMIT * Y
    ensures var q := Estimate(td, c, magic, false).0;
      0 <= q < DIGIT_LIMIT && q * Y <= X && 100 * (X - q * Y) < DIGIT_LIMIT * Y
  {
    var k, t := Scale(magic), Scale(magic) * td;
    var (q, under) := Estimate(td, c, magic, false);
    DivMod(t, c + 1);
    var q0, r := t / (c + 1), t % (c + 1);
    assert q0 >= 0;
    LeadsPositive(c, magic, Y, U);
    RawGuessSmall(q0, t, c, X, Y, U, 0) by { MulSum(c, 1, q0); }
    MulSum(q, 1, c + 1);
    if magic {
      assert 25 * (q * (c + 1)) + q <= 25 * t;
      GuessBelow(q, t, c, X, Y, U);
    } else {
      MulMono(Y, (c + 1) * U, q);
      MulAssoc(q, c + 1, U);
      MulMono(q * (c + 1), t, U);
    }
    GuessSmall(q, X, Y);
    GuessClose(q, t + k, c, X, Y, U);
  }

  lemma LastNotSmall(q0: int, t: int, c: int, X: int, Y: int, U: int)
    requires 0 <= q0 && 0 < U && X < t * U && c * U <= Y && t < (q0 + 1) * c
    ensures X < (q0 + 1) * Y
  {
    MulMono(t, (q0 + 1) * c, U);
    MulAssoc(q0 + 1, c, U);
    MulMono(c * U, Y, q0 + 1);
  }

  lemma LastNotBig(b: int, t: int, c: int, magic: bool, X: int, Y: int, U: int)
    requires Leads(c, magic, Y, U) && b <= DIGIT_LIMIT
    requires 0 <= X && t * U <= X
    requires b * c <= if magic then t - 792 else t - b
    ensures b * Y <= X
  {
    LeadsPositive(c, magic, Y, U);
    if b < 0 {
      MulMono(b, 0, Y);
    } else {
      MulSum(c, 1, b);
      if magic {
        GuessBelow(b, t, c, X, Y, U);
      } else {
        MulMono(Y, (c + 1) * U, b);
        MulAssoc(b, c + 1, U);
        MulMono(b * (c + 1), t, U);
      }
    }
  }

  lemma LastRaw(td: int, c: int, magic: bool, X: int, Y: int, U: int)
    requires 0 <= td && Leads(c, magic, Y, U)
    requires Scale(magic) * td * U <= X < Scale(magic) * (td + 1) * U
    requires X < DIGIT_LIMIT * Y
    ensures var q0 := Scale(magic) * (td + 1) / c; 0 <= q0 <= DIGIT_LIMIT + 1 && 0 <= X < (q0 + 1) * Y
  {
    var k, t := Scale(magic), Scale(magic) * (td + 1);
    DivMod(t, c);
    var q0 := t / c;
    assert q0 >= 0;
    assert Scale(magic) * td == t - k;
    assert 0 <= X by { MulMono(0, t - k, U); }
    MulDiff(t, k, U);
    RawGuessSmall(q0, t, c, X, Y, U, k);
    LastNotSmall(q0, t, c, X, Y, U) by { MulSum(q0, 1, c); }
  }

  /** The last digit: right or one too big, or, when it was lowered, right or one too small. */
  lemma EstimateLast(td: int, c: int, magic: bool, X: int, Y: int, U: int)
    requires 0 <= td && Leads(c, magic, Y, U)
    requires Scale(magic) * td * U <= X < Scale(magic) * (td + 1) * U
    requires X < DIGIT_LIMIT * Y
    ensures var (q, under) := Estimate(td, c, magic, true);
      && 0 <= q <= DIGIT_LIMIT
      && X < (q + if under then 2 else 1) * Y
      && (if under then q else q - 1) * Y <= X
  {
    LastRaw(td, c, magic, X, Y, U);
    LeadsPositive(c, magic, Y, U);
    var k, t := Scale(magic), Scale(magic) * (td + 1);
    var (q, under) := Estimate(td, c, magic, true);
    DivMod(t, c);
    var q0 := t / c;
    var b := if under then q else q - 1;
    if q0 == 0 {
      MulMono(b, 0, Y);
    } else {
      MulDiff(q0, 1, c);
      assert Scale(magic) * td == t - k;
      LastNotBig(b, t - k, c, magic, X, Y, U);
      GuessSmall(b, X, Y);
    }
  }
}

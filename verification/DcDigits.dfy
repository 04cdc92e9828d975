/** The numbers of dc: little-endian strings of base-100 digits. A negative
    number is the hundred's complement of its magnitude, with a digit -1 on top. */
module DcDigits {
  import opened Arith

  /** A signed C char, the only thing a digit buffer can hold. */
  type Char = x: int | -128 <= x < 128

  function Pow100(n: nat): (p: nat)
    ensures p >= 1
  {
    if n == 0 then 1 else 100 * Pow100(n - 1)
  }

  /** The integer a digit string stands for, whatever its digits are. */
  function Val(s: seq<int>): int {
    if s == [] then 0 else Val(s[..|s| - 1]) + s[|s| - 1] * Pow100(|s| - 1)
  }

  predicate Digit(d: int) {
    0 <= d <= 99
  }

  /** A string of plain digits: a number that is not negative, perhaps with zeros on top. */
  predicate Plain(s: seq<int>) {
    forall i :: 0 <= i < |s| ==> Digit(s[i])
  }

  predicate Negative(s: seq<int>) {
    |s| > 0 && s[|s| - 1] == -1
  }

  /** Plain digits below a top digit that may be -1. */
  predicate Number(s: seq<int>) {
    if Negative(s) then Plain(s[..|s| - 1]) else Plain(s)
  }

  /** The form every operation leaves its result in: no zero on top, and no 99
      under a top -1, except in [99, -1], which add yields for minus one. */
  predicate Normal(s: seq<int>) {
    && Number(s)
    && (s != [] ==> s[|s| - 1] != 0)
    && (Negative(s) && |s| > 2 ==> s[|s| - 2] != 99)
  }

  const MINUS_ONE_SUM: seq<int> := [99, -1]

  /** Normal, and minus one is [-1]: the one string dc has for each integer. */
  predicate Canonical(s: seq<int>) {
    Normal(s) && s != MINUS_ONE_SUM
  }

  // ---- values of slices -------------------------------------------------

  lemma EmptyValue()
    ensures Val([]) == 0
  {
  }

  lemma ValSnoc(s: seq<int>, n: nat)
    requires n < |s|
    ensures Val(s[..n + 1]) == Val(s[..n]) + s[n] * Pow100(n)
  {
    assert s[..n + 1][..n] == s[..n];
  }

  lemma {:induction false} ValConcat(a: seq<int>, b: seq<int>)
    ensures Val(a + b) == Val(a) + Pow100(|a|) * Val(b)
  {
    if b == [] {
      assert a + b == a;
    } else {
      var k := |b| - 1;
      ValConcat(a, b[..k]);
      assert (a + b)[..|a + b| - 1] == a + b[..k];
      PowSum(|a|, k);
      MulAssoc(b[k], Pow100(|a|), Pow100(k));
      MulAssoc(Pow100(|a|), b[k], Pow100(k));
      MulSum(Val(b[..k]), b[k] * Pow100(k), Pow100(|a|));
    }
  }

  lemma {:induction false} PowSum(m: nat, n: nat)
    ensures Pow100(m + n) == Pow100(m) * Pow100(n)
  {
    if n > 0 {
      PowSum(m, n - 1);
      assert Pow100(m) * (100 * Pow100(n - 1)) == 100 * (Pow100(m) * Pow100(n - 1));
    }
  }

  lemma PowSucc(n: nat)
    ensures Pow100(n + 1) == 100 * Pow100(n)
  {
  }

  lemma ValPush(s: seq<int>, d: int)
    ensures Val(s + [d]) == Val(s) + d * Pow100(|s|)
  {
    assert (s + [d])[..|s|] == s;
  }

  lemma PowMono(m: nat, n: nat)
    requires m <= n
    ensures Pow100(m) <= Pow100(n)
  {
  }

  lemma ValSplit(s: seq<int>, k: nat)
    requires k <= |s|
    ensures Val(s) == Val(s[..k]) + Pow100(k) * Val(s[k..])
  {
    assert s == s[..k] + s[k..];
    ValConcat(s[..k], s[k..]);
  }

  lemma {:induction false} PlainBounds(s: seq<int>)
    requires Plain(s)
    ensures 0 <= Val(s) < Pow100(|s|)
  {
    if s != [] {
      var n := |s| - 1;
      PlainBounds(s[..n]);
      assert Digit(s[n]);
      MulMono(0, s[n], Pow100(n));
      MulMono(s[n], 99, Pow100(n));
    }
  }

  /** The sign of a number can be read off its top digit. */
  lemma SignIsTop(s: seq<int>)
    requires Number(s)
    ensures Val(s) < 0 <==> Negative(s)
  {
    if Negative(s) {
      PlainBounds(s[..|s| - 1]);
    } else {
      PlainBounds(s);
    }
  }

  /** A positive normal number of n digits is at least 100 to the n-1. */
  lemma TopBounds(s: seq<int>)
    requires Plain(s) && s != [] && s[|s| - 1] != 0
    ensures Pow100(|s| - 1) <= Val(s) < Pow100(|s|)
  {
    PlainBounds(s);
    PlainBounds(s[..|s| - 1]);
    assert Digit(s[|s| - 1]);
    MulMono(1, s[|s| - 1], Pow100(|s| - 1));
  }

  lemma ZeroIsEmpty(s: seq<int>)
    requires Normal(s)
    ensures Val(s) == 0 <==> s == []
  {
    SignIsTop(s);
    if s != [] && !Negative(s) {
      TopBounds(s);
    }
  }

  lemma DropZeroTop(s: seq<int>)
    requires s != [] && s[|s| - 1] == 0
    ensures Val(s[..|s| - 1]) == Val(s)
  {
  }

  /** A 99 under a top -1 can be dropped. */
  lemma DropNines(s: seq<int>, n: nat)
    requires n + 1 < |s| && s[n] == 99 && s[n + 1] == -1
    ensures Val(s[..n] + [-1]) == Val(s[..n + 2])
  {
    ValSnoc(s, n);
    ValSnoc(s, n + 1);
    var t := s[..n] + [-1];
    assert t[..n] == s[..n];
  }

  lemma {:induction false} AllZero(s: seq<int>)
    requires forall i :: 0 <= i < |s| ==> s[i] == 0
    ensures Val(s) == 0
  {
    if s != [] {
      AllZero(s[..|s| - 1]);
    }
  }

  // ---- one string for each integer --------------------------------------

  lemma {:induction false} PlainUnique(a: seq<int>, b: seq<int>)
    requires Plain(a) && Plain(b) && |a| == |b| && Val(a) == Val(b)
    ensures a == b
  {
    if a != [] {
      var n := |a| - 1;
      PlainBounds(a[..n]);
      PlainBounds(b[..n]);
      DigitGap(Val(a[..n]), a[n], Val(b[..n]), b[n], Pow100(n));
      PlainUnique(a[..n], b[..n]);
      assert a == a[..n] + [a[n]] && b == b[..n] + [b[n]];
    }
  }

  lemma DigitGap(v: int, d: int, w: int, e: int, p: int)
    requires 0 <= v < p && 0 <= w < p && v + d * p == w + e * p
    ensures d == e && v == w
  {
    MulDiff(d, e, p);
    if d > e {
      MulMono(1, d - e, p);
    } else if d < e {
      MulMono(d - e, -1, p);
    }
  }

  /** The magnitude of a negative canonical number fixes its length. */
  lemma NegativeBounds(s: seq<int>)
    requires Canonical(s) && Negative(s) && |s| > 1
    ensures Pow100(|s| - 2) < -Val(s) <= Pow100(|s| - 1)
  {
    var n := |s| - 1;
    var low := s[..n];
    PlainBounds(low);
    PlainBounds(low[..n - 1]);
    assert low[n - 1] <= 98 by {
      assert Digit(low[n - 1]);
      assert |s| == 2 ==> s == [s[0], -1];
    }
    MulMono(low[n - 1], 98, Pow100(n - 1));
  }

  /** Canonical strings and integers are in one-to-one correspondence. */
  lemma CanonicalUnique(a: seq<int>, b: seq<int>)
    requires Canonical(a) && Canonical(b) && Val(a) == Val(b)
    ensures a == b
  {
    SignIsTop(a);
    SignIsTop(b);
    ZeroIsEmpty(a);
    ZeroIsEmpty(b);
    if a != [] {
      SameLength(a, b);
      if Negative(a) {
        var n := |a| - 1;
        PlainUnique(a[..n], b[..n]);
        assert a == a[..n] + [-1] && b == b[..n] + [-1];
      } else {
        PlainUnique(a, b);
      }
    }
  }

  lemma SameLength(a: seq<int>, b: seq<int>)
    requires Canonical(a) && Canonical(b) && Val(a) == Val(b)
    requires a != [] && b != []
    ensures |a| == |b|
  {
    if |a| < |b| {
      LongerIsBigger(a, b);
    } else if |b| < |a| {
      LongerIsBigger(b, a);
    }
  }

  lemma LongerIsBigger(a: seq<int>, b: seq<int>)
    requires Canonical(a) && Canonical(b) && a != [] && |a| < |b|
    ensures Val(a) != Val(b)
  {
    SignIsTop(a);
    SignIsTop(b);
    if Negative(a) && Negative(b) {
      NegativeBounds(b);
      if |a| > 1 {
        NegativeBounds(a);
        PowMono(|a| - 1, |b| - 2);
      } else {
        assert a[..0] == [];
        assert Val(a) == -1;
      }
    } else if !Negative(a) && !Negative(b) {
      TopBounds(a);
      TopBounds(b);
      PowMono(|a|, |b| - 1);
    }
  }
}

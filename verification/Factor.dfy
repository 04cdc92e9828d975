/** factor: trial division by 2, 3, 5, 7 and then along a wheel of the numbers prime to 210. */
module Factor {
  import opened Arith

  const WHSIZ := 48

  /** The wheel: the steps between neighbouring numbers prime to 210, row by row. */
  function Wheel(i: nat): int
    requires i < WHSIZ
  {
    if i < 10 then [2, 10, 2, 4, 2, 4, 6, 2, 6, 4][i]
    else if i < 20 then [2, 4, 6, 6, 2, 6, 4, 2, 6, 4][i - 10]
    else if i < 30 then [6, 8, 4, 2, 4, 2, 4, 8, 6, 4][i - 20]
    else if i < 40 then [6, 2, 4, 6, 2, 6, 6, 4, 2, 4][i - 30]
    else [6, 2, 6, 4, 2, 4, 2, 10][i - 40]
  }

  predicate Divides(m: int, n: int)
    requires m != 0
  {
    n % m == 0
  }

  predicate IsPrime(p: int) {
    2 <= p && forall m :: 2 <= m < p ==> !Divides(m, p)
  }

  /** No number from 2 to d divides n. */
  ghost predicate Sieved(n: int, d: int) {
    forall m :: 2 <= m <= d ==> !Divides(m, n)
  }

  function Product(s: seq<int>): int {
    if s == [] then 1 else Product(s[..|s| - 1]) * s[|s| - 1]
  }

  predicate Primes(s: seq<int>) {
    forall i :: 0 <= i < |s| ==> IsPrime(s[i])
  }

  predicate Sorted(s: seq<int>) {
    forall i, j :: 0 <= i <= j < |s| ==> s[i] <= s[j]
  }

  // ---- divisibility ---------------------------------------------------------

  lemma Multiple(k: int, m: int)
    requires m > 0
    ensures (k * m) % m == 0
  {
    var q, r := (k * m) / m, (k * m) % m;
    assert k * m == q * m + r;
    MulDiff(k, q, m);
    if k - q >= 1 {
      MulMono(1, k - q, m);
    } else if k - q <= -1 {
      MulMono(k - q, -1, m);
    }
  }

  lemma DividesTrans(a: int, b: int, c: int)
    requires a > 0 && b > 0 && Divides(a, b) && Divides(b, c)
    ensures Divides(a, c)
  {
    var j, k := b / a, c / b;
    assert b == j * a && c == k * b;
    MulAssoc(k, j, a);
    Multiple(k * j, a);
  }

  /** The least divisor is prime. */
  lemma LeastIsPrime(n: int, d: int)
    requires 2 <= d && Divides(d, n) && Sieved(n, d - 1)
    ensures IsPrime(d)
  {
    forall m | 2 <= m < d ensures !Divides(m, d) {
      if Divides(m, d) {
        DividesTrans(m, d, n);
      }
    }
  }

  lemma QuotientSieved(n: int, d: int, b: int)
    requires 0 < d && 0 < n && Divides(d, n) && Sieved(n, b)
    ensures Sieved(n / d, b) && 0 < n / d && n == (n / d) * d && (d > 1 ==> n / d < n)
  {
    var q := n / d;
    assert n == q * d;
    forall m | 2 <= m <= b ensures !Divides(m, q) {
      if Divides(m, q) {
        Multiple(d, q);
        assert n == d * q;
        if q > 0 {
          DividesTrans(m, q, n);
        }
      }
    }
    if q <= 0 {
      MulMono(q, 0, d);
    }
    if d > 1 {
      MulMonoStrict(1, d, q);
    }
  }

  /** What is not divided up to its root is prime. */
  lemma RestIsPrime(n: int, d: int)
    requires 1 < n && 1 <= d && Sieved(n, d) && (d - 1) * (d - 1) > n
    ensures IsPrime(n) && n > d
  {
    assert Divides(n, n);
    forall m | 2 <= m < n ensures !Divides(m, n) {
      if Divides(m, n) {
        var k := n / m;
        assert n == k * m;
        assert m > d;
        if k <= 1 {
          MulMono(k, 1, m);
        } else {
          Multiple(m, k);
          assert k > d by { assert n == m * k; assert Divides(k, n); }
          MulMono(d - 1, k, d - 1);
          MulMono(d - 1, m, k);
        }
      }
    }
  }

  // ---- the wheel --------------------------------------------------------------

  predicate Struck(x: int) {
    x % 2 == 0 || x % 3 == 0 || x % 5 == 0 || x % 7 == 0
  }

  /** Where the wheel stands before turn i, modulo 210. */
  function Spot(i: nat): int
    requires i <= WHSIZ
  {
    if i == 0 then -1 else Spot(i - 1) + Wheel(i - 1)
  }

  predicate AllStruck(lo: int, hi: int)
    decreases hi - lo
  {
    lo >= hi || (Struck(lo) && AllStruck(lo + 1, hi))
  }

  /** Turn i goes from s on by w, over numbers that are all struck. */
  predicate Turn(i: nat, s: int, w: int) {
    && i < WHSIZ && w > 0
    && Spot(i) == s && Wheel(i) == w
    && !Struck(s + w) && AllStruck(s + 1, s + w)
  }

  lemma Turns0()
    ensures Turn(0, -1, 2) && Turn(1, 1, 10) && Turn(2, 11, 2) && Turn(3, 13, 4)
    ensures Turn(4, 17, 2) && Turn(5, 19, 4) && Turn(6, 23, 6) && Turn(7, 29, 2)
  {
  }

  lemma Turns1()
    requires Turn(7, 29, 2)
    ensures Turn(8, 31, 6) && Turn(9, 37, 4) && Turn(10, 41, 2) && Turn(11, 43, 4)
    ensures Turn(12, 47, 6) && Turn(13, 53, 6) && Turn(14, 59, 2) && Turn(15, 61, 6)
  {
  }

  lemma Turns2()
    requires Turn(15, 61, 6)
    ensures Turn(16, 67, 4) && Turn(17, 71, 2) && Turn(18, 73, 6) && Turn(19, 79, 4)
    ensures Turn(20, 83, 6) && Turn(21, 89, 8) && Turn(22, 97, 4) && Turn(23, 101, 2)
  {
  }

  lemma Turns3()
    requires Turn(23, 101, 2)
    ensures Turn(24, 103, 4) && Turn(25, 107, 2) && Turn(26, 109, 4) && Turn(27, 113, 8)
    ensures Turn(28, 121, 6) && Turn(29, 127, 4) && Turn(30, 131, 6) && Turn(31, 137, 2)
  {
  }

  lemma Turns4()
    requires Turn(31, 137, 2)
    ensures Turn(32, 139, 4) && Turn(33, 143, 6) && Turn(34, 149, 2) && Turn(35, 151, 6)
    ensures Turn(36, 157, 6) && Turn(37, 163, 4) && Turn(38, 167, 2) && Turn(39, 169, 4)
  {
  }

  lemma Turns5()
    requires Turn(39, 169, 4)
    ensures Turn(40, 173, 6) && Turn(41, 179, 2) && Turn(42, 181, 6) && Turn(43, 187, 4)
    ensures Turn(44, 191, 2) && Turn(45, 193, 4) && Turn(46, 197, 2) && Turn(47, 199, 10)
  {
  }

  ghost predicate GoodTurn(i: nat) {
    exists s, w :: Turn(i, s, w)
  }

  ghost predicate GoodTurns(n: nat) {
    n == 0 || (GoodTurns(n - 1) && GoodTurn(n - 1))
  }

  lemma FirstHalf()
    ensures GoodTurns(24) && Turn(23, 101, 2)
  {
    hide Turn, Spot, Wheel;
    Turns0();
    assert GoodTurns(4);
    assert GoodTurns(8);
    Turns1();
    assert GoodTurns(12);
    assert GoodTurns(16);
    Turns2();
    assert GoodTurns(20);
  }

  lemma WheelClosesUp()
    requires Turn(47, 199, 10)
    ensures Spot(WHSIZ) == 209
  {
    hide AllStruck;
  }

  /** A whole turn of the wheel skips only struck numbers and closes up. */
  lemma WheelIsRight()
    ensures GoodTurns(WHSIZ) && Spot(WHSIZ) == 209
  {
    hide Turn, Spot, Wheel;
    FirstHalf();
    Turns3();
    assert GoodTurns(28);
    assert GoodTurns(32);
    Turns4();
    assert GoodTurns(36);
    assert GoodTurns(40);
    Turns5();
    assert GoodTurns(44);
    WheelClosesUp();
  }

  lemma {:induction false} GoodAt(n: nat, i: nat)
    requires GoodTurns(n) && i < n
    ensures GoodTurn(i)
  {
    if i < n - 1 {
      GoodAt(n - 1, i);
    }
  }

  lemma {:induction false} StruckAt(lo: int, hi: int, x: int)
    requires AllStruck(lo, hi) && lo <= x < hi
    ensures Struck(x)
    decreases hi - lo
  {
    if lo < x {
      StruckAt(lo + 1, hi, x);
    }
  }

  lemma DividesShift(m: int, c: int, t: int, y: int)
    requires m > 0 && m * c == 210 && Divides(m, y)
    ensures Divides(m, 210 * t + y)
  {
    var k := y / m;
    assert y == m * k;
    MulAssoc(m, c, t);
    MulSum(c * t, k, m);
    Multiple(c * t + k, m);
  }

  lemma StruckShift(y: int, t: int)
    requires Struck(y)
    ensures Struck(210 * t + y)
  {
    if y % 2 == 0 {
      DividesShift(2, 105, t, y);
    } else if y % 3 == 0 {
      DividesShift(3, 70, t, y);
    } else if y % 5 == 0 {
      DividesShift(5, 42, t, y);
    } else {
      DividesShift(7, 30, t, y);
    }
  }

  /** From a spot on the wheel, a turn leads to the next number prime to 210. */
  lemma NextOnWheel(t: nat, i: nat, d: int)
    requires i < WHSIZ && d == 210 * t + Spot(i)
    ensures Wheel(i) > 0 && !Struck(d + Wheel(i)) && Spot(i + 1) == Spot(i) + Wheel(i)
    ensures forall x :: d < x < d + Wheel(i) ==> Struck(x)
  {
    hide GoodTurns, AllStruck, Struck, Wheel;
    WheelIsRight();
    GoodAt(WHSIZ, i);
    var w, s := Wheel(i), Spot(i);
    forall x | d < x < d + w ensures Struck(x) {
      StruckAt(s + 1, s + w, s + (x - d));
      StruckShift(s + (x - d), t);
    }
    assert 210 * (0 - t) + (d + w) == s + w;
    if Struck(d + w) {
      StruckShift(d + w, 0 - t);
    }
  }

  /** A struck number past 7 divides nothing that 2, 3, 5 and 7 do not divide. */
  lemma StruckIsOut(x: int, n: int)
    requires x > 0 && Struck(x) && Sieved(n, 7)
    ensures !Divides(x, n)
  {
    if Divides(x, n) {
      if x % 2 == 0 {
        DividesTrans(2, x, n);
      } else if x % 3 == 0 {
        DividesTrans(3, x, n);
      } else if x % 5 == 0 {
        DividesTrans(5, x, n);
      } else {
        DividesTrans(7, x, n);
      }
    }
  }

  lemma StruckBelow(x: int)
    requires !Struck(x) && x > 1
    ensures x > 7
  {
  }

  /** Moving the wheel on from d passes over no divisor of n. */
  lemma SkipKeeps(t: nat, i: nat, d: int, n: int)
    requires i < WHSIZ && d == 210 * t + Spot(i) && d >= 1 && Sieved(n, d) && Sieved(n, 7)
    ensures Wheel(i) > 0 && Sieved(n, d + Wheel(i) - 1)
    ensures d + Wheel(i) > 7 && Spot(i + 1) == Spot(i) + Wheel(i)
  {
    hide Divides, Struck, Wheel, Spot;
    NextOnWheel(t, i, d);
    StruckBelow(d + Wheel(i));
    forall x | d < x < d + Wheel(i) ensures !Divides(x, n) {
      StruckIsOut(x, n);
    }
  }

  // ---- the program --------------------------------------------------------------

  /** The factors printed so far, and what is left to factor. */
  ghost predicate Partial(n0: int, n: int, out: seq<int>, d: int) {
    n > 0 && Product(out) * n == n0 && Primes(out) && Sorted(out) && forall i :: 0 <= i < |out| ==> out[i] <= d
  }

  lemma PrintKeeps(n0: int, n: int, out: seq<int>, d: int)
    requires Partial(n0, n, out, d) && 2 <= d && Sieved(n, d - 1) && Divides(d, n)
    ensures Partial(n0, n / d, out + [d], d) && Sieved(n / d, d - 1) && n / d < n
  {
    LeastIsPrime(n, d);
    QuotientSieved(n, d, d - 1);
    ProductSnoc(out, d);
    hide Product, IsPrime, Sieved, Divides;
    MulAssoc(Product(out), d, n / d);
  }

  lemma ProductSnoc(out: seq<int>, d: int)
    ensures Product(out + [d]) == Product(out) * d
  {
    assert (out + [d])[..|out|] == out;
  }

  /** Print d as long as it divides what is left. */
  method TakeOut(ghost n0: int, n: int, d: int, out: seq<int>) returns (rest: int, printed: seq<int>)
    requires Partial(n0, n, out, d) && 2 <= d && Sieved(n, d - 1)
    ensures Partial(n0, rest, printed, d) && Sieved(rest, d)
  {
    rest, printed := n, out;
    while rest % d == 0
      invariant Partial(n0, rest, printed, d) && Sieved(rest, d - 1)
      decreases rest
    {
      PrintKeeps(n0, rest, printed, d);
      printed := printed + [d];
      rest := rest / d;
    }
  }

  method SmallFactors(n0: int) returns (n: int, out: seq<int>)
    requires n0 > 0
    ensures Partial(n0, n, out, 7) && Sieved(n, 7)
  {
    n, out := TakeOut(n0, n0, 2, []);
    n, out := TakeOut(n0, n, 3, out);
    assert !Divides(2, n);
    Odd(n, 4);
    n, out := TakeOut(n0, n, 5, out);
    assert !Divides(2, n);
    Odd(n, 6);
    n, out := TakeOut(n0, n, 7, out);
  }

  /** Even numbers divide no odd number. */
  lemma Odd(n: int, m: int)
    requires m > 0 && m % 2 == 0 && n % 2 != 0
    ensures !Divides(m, n)
  {
    if Divides(m, n) {
      DividesTrans(2, m, n);
    }
  }

  /** The loop goes round again only while d is no more than a turn past the root. */
  lemma RoundsBound(n0: int, n: int, out: seq<int>, d: int)
    requires Partial(n0, n, out, d) && n0 > 0 && (d - 1) * (d - 1) <= n && d >= 1
    ensures d <= n0 + 1
  {
    if Product(out) < 1 {
      MulMono(Product(out), 0, n);
    } else {
      MulMono(1, Product(out), n);
    }
    if d - 1 > n0 {
      MulMono(1, d - 1, d - 1);
    }
  }

  lemma LastFactor(n0: int, n: int, out: seq<int>, d: int)
    requires Partial(n0, n, out, d) && Sieved(n, d) && d >= 1 && (d - 1) * (d - 1) > n
    ensures var all := if n > 1 then out + [n] else out; Product(all) == n0 && Primes(all) && Sorted(all)
  {
    if n > 1 {
      RestIsPrime(n, d);
      assert (out + [n])[..|out|] == out;
    }
  }

  lemma WheelStart()
    ensures Spot(0) == -1 && Spot(1) == 1 && Spot(WHSIZ) == 209
  {
    WheelIsRight();
  }

  /** Step along the wheel; whether to stop is asked once a turn. */
  method WheelLoop(n0: nat, n: int, out: seq<int>) returns (rest: int, printed: seq<int>)
    requires n0 > 0 && Partial(n0, n, out, 7) && Sieved(n, 7)
    ensures var all := if rest > 1 then printed + [rest] else printed;
      Product(all) == n0 && Primes(all) && Sorted(all)
  {
    hide Primes, Sorted, Product, Wheel, Spot;
    rest, printed := n, out;
    var d, i := 1, 1;
    ghost var t := 0;
    WheelStart();
    while true
      invariant 0 <= t <= n0 + 2 && 0 <= i < WHSIZ && d == 210 * t + Spot(i) && d >= 1
      invariant Partial(n0, rest, printed, if d < 7 then 7 else d) && Sieved(rest, d) && Sieved(rest, 7)
      decreases n0 + 2 - t, WHSIZ - i
    {
      SkipKeeps(t, i, d, rest);
      d := d + Wheel(i);
      rest, printed := TakeOut(n0, rest, d, printed);
      i := i + 1;
      if i >= WHSIZ {
        i := 0;
        t := t + 1;
        if (d - 1) * (d - 1) > rest {
          LastFactor(n0, rest, printed, d);
          return;
        }
        RoundsBound(n0, rest, printed, d);
      }
    }
  }

  /** Print the prime factors of n0, least first. */
  method Factor(n0: nat) returns (out: seq<int>)
    ensures n0 == 0 ==> out == []
    ensures n0 > 0 ==> Product(out) == n0 && Primes(out) && Sorted(out)
  {
    hide Primes, Sorted, Product, Wheel, Spot, Sieved, Partial;
    if n0 == 0 {
      return [];
    }
    var n: int;
    n, out := SmallFactors(n0);
    n, out := WheelLoop(n0, n, out);
    if n > 1 {
      out := out + [n];
    }
  }
}

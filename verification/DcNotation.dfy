/** The decimal notation dc prints numbers in, and the parts its digits come out in. */
module DcNotation {
  import opened Arith
  import opened DcDigits
  import opened DcPowers

  lemma PowerTen(n: nat)
    ensures Power(10, n + 1) == 10 * Power(10, n)
  {
  }

  lemma {:induction false} PowerPairs(n: nat)
    ensures Power(10, 2 * n) == Pow100(n)
  {
    if n > 0 {
      PowerPairs(n - 1);
      PowerTen(2 * n - 1);
      PowerTen(2 * n - 2);
    }
  }

  lemma {:induction false} PowerPositive(n: nat)
    ensures Power(10, n) > 0
  {
    if n > 0 {
      PowerPositive(n - 1);
    }
  }

  lemma ValCons(s: seq<int>, k: nat)
    requires k < |s|
    ensures Val(s[k..]) == s[k] + 100 * Val(s[k + 1..])
  {
    assert s[k..] == [s[k]] + s[k + 1..];
    ValConcat([s[k]], s[k + 1..]);
    assert [s[k]][..0] == [];
    assert Pow100(1) == 100;
  }

  // ---- decimal notation -----------------------------------------------------

  function DecimalDigit(d: int): char
    requires 0 <= d <= 9
  {
    d as char + '0'
  }

  /** c printed with %d. */
  function Decimal(c: int): string
    requires 0 <= c <= 99
  {
    if c < 10 then [DecimalDigit(c)] else [DecimalDigit(c / 10), DecimalDigit(c % 10)]
  }

  /** c printed with two digits. */
  function TwoDigits(c: int): string
    requires 0 <= c <= 99
  {
    [DecimalDigit(c / 10), DecimalDigit(c % 10)]
  }

  /** n in decimal digits; nothing for zero. */
  function Numeral(n: nat): string {
    if n == 0 then "" else Numeral(n / 10) + [DecimalDigit(n % 10)]
  }

  /** The k lowest decimal digits of n. */
  function Padded(n: nat, k: nat): string {
    if k == 0 then "" else Padded(n / 10, k - 1) + [DecimalDigit(n % 10)]
  }

  /** v with its last sc decimal digits after a point. */
  function Notation(v: nat, sc: nat): string
    requires Power(10, sc) > 0
  {
    Numeral(v / Power(10, sc)) + if sc > 0 then "." + Padded(v % Power(10, sc), sc) else ""
  }

  /** A numeral does not start with a zero, and is as long as the number is big. */
  lemma {:induction false} NumeralIs(n: nat)
    requires n > 0
    ensures Numeral(n) != [] && Numeral(n)[0] != '0'
    ensures Power(10, |Numeral(n)| - 1) <= n < Power(10, |Numeral(n)|)
  {
    if n >= 10 {
      NumeralIs(n / 10);
      PowerTen(|Numeral(n / 10)| - 1);
      PowerTen(|Numeral(n / 10)|);
    } else {
      assert Numeral(n / 10) == "" && Numeral(n) == [DecimalDigit(n)];
      assert Power(10, 1) == 10 * Power(10, 0);
    }
  }

  lemma NumeralPair(u: nat, c: int)
    requires u > 0 && 0 <= c <= 99
    ensures Numeral(100 * u + c) == Numeral(u) + TwoDigits(c)
  {
    var n := 100 * u + c;
    assert n / 10 == 10 * u + c / 10 && n % 10 == c % 10;
    assert (n / 10) / 10 == u && (n / 10) % 10 == c / 10;
    assert Numeral(n / 10) == Numeral(u) + [DecimalDigit(c / 10)];
  }

  lemma NumeralTop(c: int)
    requires 0 < c <= 99
    ensures Numeral(c) == Decimal(c)
  {
    assert Numeral(0) == "";
    if c >= 10 {
      assert Numeral(c / 10) == Numeral(0) + [DecimalDigit(c / 10)];
    }
  }

  lemma PaddedPair(u: nat, c: int, k: nat)
    requires 0 <= c <= 99
    ensures Padded(100 * u + c, k + 2) == Padded(u, k) + TwoDigits(c)
  {
    var n := 100 * u + c;
    assert n / 10 == 10 * u + c / 10 && n % 10 == c % 10;
    assert (n / 10) / 10 == u && (n / 10) % 10 == c / 10;
    assert Padded(n / 10, k + 1) == Padded(u, k) + [DecimalDigit(c / 10)];
  }

  /** Zeros stand above a number too short. */
  lemma {:induction false} PaddedShort(v: nat, m: nat, j: nat)
    requires v < Power(10, j)
    ensures Padded(v, m + j) == seq(m, _ => '0') + Padded(v, j)
    decreases m + j
  {
    if j > 0 {
      PowerTen(j - 1);
      PaddedShort(v / 10, m, j - 1);
    } else if m > 0 {
      PaddedShort(0, m - 1, 0);
      assert seq(m, _ => '0') == seq(m - 1, _ => '0') + ['0'];
    }
  }

  /** A digit over a number takes the place above it. */
  lemma {:induction false} PaddedOver(d: nat, v: nat, j: nat)
    requires 0 <= d <= 9 && v < Power(10, j)
    ensures Padded(d * Power(10, j) + v, j + 1) == [DecimalDigit(d)] + Padded(v, j)
  {
    if j > 0 {
      PowerTen(j - 1);
      var p := Power(10, j - 1);
      OverTen(d, p, v);
      PaddedOver(d, v / 10, j - 1);
    }
  }

  lemma OverTen(d: nat, p: int, v: nat)
    requires p > 0
    ensures d * (10 * p) + v >= 0 && (d * (10 * p) + v) / 10 == d * p + v / 10 && (d * (10 * p) + v) % 10 == v % 10
  {
    assert d * (10 * p) == 10 * (d * p);
    assert d * p >= 0;
  }

  // ---- the output in parts, and its folds -----------------------------------

  /** What goes out at once: one character with OUTC, or a text with Bprint and TEST2. */
  datatype Part = Char(x: char) | Text(t: string)

  const FOLD := "\\\n"
  const LINE: int := 70

  /** The text put out, and the columns left on its last line. */
  datatype Page = Page(text: string, count: int)

  /** A character takes one column, and a text counts for two; the line is folded when none is left. */
  function Placed(l: Page, x: Part): Page {
    match x
    case Char(c) => if l.count == 1 then Page(l.text + [c] + FOLD, LINE) else Page(l.text + [c], l.count - 1)
    case Text(t) => if l.count <= 2 then Page(l.text + t + FOLD, LINE) else Page(l.text + t, l.count - 2)
  }

  function Laid(l: Page, ps: seq<Part>): Page {
    if ps == [] then l else Placed(Laid(l, ps[..|ps| - 1]), ps[|ps| - 1])
  }

  lemma LaidSnoc(l: Page, ps: seq<Part>, x: Part)
    ensures Laid(l, ps + [x]) == Placed(Laid(l, ps), x)
  {
    assert (ps + [x])[..|ps|] == ps;
  }

  lemma {:induction false} LaidConcat(l: Page, a: seq<Part>, b: seq<Part>)
    ensures Laid(l, a + b) == Laid(Laid(l, a), b)
  {
    if b == [] {
      assert a + b == a;
    } else {
      LaidConcat(l, a, b[..|b| - 1]);
      assert (a + b)[..|a + b| - 1] == a + b[..|b| - 1];
    }
  }

  function Contents(x: Part): string {
    match x
    case Char(c) => [c]
    case Text(t) => t
  }

  /** The parts without folds. */
  function Joined(ps: seq<Part>): string {
    if ps == [] then "" else Joined(ps[..|ps| - 1]) + Contents(ps[|ps| - 1])
  }

  lemma Regroup(a: string, b: string, c: string)
    ensures a + b + c == a + (b + c) && "" + a == a && a + "" == a
  {
  }

  lemma NoParts()
    ensures Joined([]) == ""
  {
  }

  lemma JoinedSnoc(ps: seq<Part>, x: Part)
    ensures Joined(ps + [x]) == Joined(ps) + Contents(x)
  {
    assert (ps + [x])[..|ps|] == ps;
  }

  lemma {:induction false} JoinedConcat(a: seq<Part>, b: seq<Part>)
    ensures Joined(a + b) == Joined(a) + Joined(b)
  {
    hide Contents, Joined;
    if b == [] {
      assert a + b == a && Joined([]) == "" by { NoParts(); }
      Regroup(Joined(a), "", "");
    } else {
      var n := |b| - 1;
      JoinedConcat(a, b[..n]);
      assert a + b == (a + b[..n]) + [b[n]] && b == b[..n] + [b[n]];
      JoinedSnoc(a + b[..n], b[n]);
      JoinedSnoc(b[..n], b[n]);
      Regroup(Joined(a), Joined(b[..n]), Contents(b[n]));
    }
  }

  lemma JoinedThree(a: seq<Part>, b: seq<Part>, c: seq<Part>)
    ensures Joined(a + b + c) == Joined(a) + Joined(b) + Joined(c)
  {
    hide Joined;
    JoinedConcat(a, b);
    JoinedConcat(a + b, c);
  }

  lemma JoinedOne(x: Part)
    ensures Joined([x]) == Contents(x)
  {
    assert [x][..0] == [];
  }

  /** The columns the parts count for. */
  function Width(ps: seq<Part>): nat {
    if ps == [] then 0 else Width(ps[..|ps| - 1]) + if ps[|ps| - 1].Char? then 1 else 2
  }

  /** No fold comes while there are columns left, and one comes as soon as there are none. */
  lemma {:induction false} FoldsWhenFull(l: Page, ps: seq<Part>)
    requires 0 < l.count
    ensures Width(ps) < l.count ==> Laid(l, ps) == Page(l.text + Joined(ps), l.count - Width(ps))
    ensures ps != [] && Width(ps[..|ps| - 1]) < l.count <= Width(ps) ==>
      Laid(l, ps) == Page(l.text + Joined(ps) + FOLD, LINE)
  {
    if ps != [] {
      FoldsWhenFull(l, ps[..|ps| - 1]);
    }
  }

  // ---- the parts of a number ------------------------------------------------

  /** The digits of s from the top down to k, the top one without a zero before it. */
  function WholeParts(s: seq<int>, k: nat): seq<Part>
    requires Plain(s) && k <= |s|
    decreases |s| - k
  {
    if k == |s| then []
    else WholeParts(s, k + 1) + [Text(if k == |s| - 1 then Decimal(s[k]) else TwoDigits(s[k]))]
  }

  /** The digits of s below n down to k. */
  function PairParts(s: seq<int>, n: nat, k: nat): seq<Part>
    requires Plain(s) && k <= n <= |s|
    decreases n - k
  {
    if k == n then [] else PairParts(s, n, k + 1) + [Text(TwoDigits(s[k]))]
  }

  function Zeros(n: nat): seq<Part> {
    seq(n, _ => Char('0'))
  }

  /** The point, between the two halves of digit c if it goes through it. */
  function SplitParts(c: int): seq<Part>
    requires 0 <= c <= 99
  {
    [Text([DecimalDigit(c / 10)] + "."), Char(DecimalDigit(c % 10))]
  }

  /** All that tenot puts out for s with sc decimals, but for the newline. */
  function Parts(s: seq<int>, sc: nat): seq<Part>
    requires Plain(s)
  {
    var r := (sc + 1) / 2;
    if sc == 0 then WholeParts(s, 0)
    else if 2 * |s| <= sc then [Char('.')] + Zeros(sc - 2 * |s|) + PairParts(s, |s|, 0)
    else if sc % 2 == 0 then WholeParts(s, r) + [Char('.')] + PairParts(s, r, 0)
    else WholeParts(s, r) + SplitParts(s[r - 1]) + PairParts(s, r - 1, 0)
  }

  predicate TopNonzero(s: seq<int>) {
    s == [] || s[|s| - 1] != 0
  }

  lemma NoNumeral()
    ensures Numeral(0) == "" && Joined([]) == "" && forall n :: Padded(n, 0) == ""
  {
  }

  lemma PlainAt(s: seq<int>, k: nat)
    requires Plain(s) && k < |s|
    ensures Digit(s[k])
  {
  }

  lemma {:induction false} WholeIs(s: seq<int>, k: nat)
    requires Plain(s) && TopNonzero(s) && k <= |s|
    ensures Val(s[k..]) >= 0 && (k < |s| ==> Val(s[k..]) > 0)
    ensures Joined(WholeParts(s, k)) == Numeral(Val(s[k..]))
    decreases |s| - k
  {
    hide Val, Numeral, Joined, Decimal, TwoDigits, Plain;
    NoNumeral();
    if k == |s| {
      assert s[k..] == [];
      EmptyValue();
    } else {
      WholeIs(s, k + 1);
      ValCons(s, k);
      var x := WholeParts(s, k + 1);
      assert Digit(s[k]) by { PlainAt(s, k); }
      var t := if k == |s| - 1 then Decimal(s[k]) else TwoDigits(s[k]);
      JoinedConcat(x, [Text(t)]);
      JoinedOne(Text(t));
      if k == |s| - 1 {
        assert s[k + 1..] == [];
        EmptyValue();
        NumeralTop(s[k]);
      } else {
        NumeralPair(Val(s[k + 1..]), s[k]);
      }
    }
  }

  lemma {:induction false} PairsAre(s: seq<int>, n: nat, k: nat)
    requires Plain(s) && k <= n <= |s|
    ensures Val(s[k..n]) >= 0 && Joined(PairParts(s, n, k)) == Padded(Val(s[k..n]), 2 * (n - k))
    decreases n - k
  {
    hide Val, Padded, Joined, TwoDigits, Plain;
    NoNumeral();
    if k == n {
      assert s[k..n] == [];
      EmptyValue();
    } else {
      PairsAre(s, n, k + 1);
      ValCons(s[..n], k);
      assert s[..n][k..] == s[k..n] && s[..n][k + 1..] == s[k + 1..n];
      var x := PairParts(s, n, k + 1);
      assert Digit(s[k]) by { PlainAt(s, k); }
      JoinedConcat(x, [Text(TwoDigits(s[k]))]);
      JoinedOne(Text(TwoDigits(s[k])));
      PaddedPair(Val(s[k + 1..n]), s[k], 2 * (n - k - 1));
    }
  }

  lemma {:induction false} ZerosAre(n: nat)
    ensures Joined(Zeros(n)) == seq(n, _ => '0')
  {
    if n > 0 {
      ZerosAre(n - 1);
      assert Zeros(n)[..n - 1] == Zeros(n - 1);
    }
  }

  /** s at place r. */
  lemma SplitValue(s: seq<int>, r: nat)
    requires Plain(s) && r <= |s|
    ensures 0 <= Val(s[..r]) < Power(10, 2 * r) && Val(s) == Val(s[..r]) + Power(10, 2 * r) * Val(s[r..])
  {
    hide Val, Pow100, Power;
    PowerPairs(r);
    PlainBounds(s[..r]);
    ValConcat(s[..r], s[r..]);
    assert s == s[..r] + s[r..];
  }

  lemma FloorUnique(x: int, b: int, q: int, r: int)
    requires b > 0 && x == b * q + r && 0 <= r < b
    ensures q == x / b
  {
    var k := x / b;
    assert x == b * k + x % b;
    MulDiff(q, k, b);
    if q - k >= 1 {
      MulMono(1, q - k, b);
    } else if q - k <= -1 {
      MulMono(q - k, -1, b);
    }
  }

  lemma NotationIs(v: nat, sc: nat, q: int, r: int)
    requires Power(10, sc) > 0 && v == r + Power(10, sc) * q && 0 <= r < Power(10, sc)
    ensures q >= 0 && Notation(v, sc) == Numeral(q) + if sc > 0 then "." + Padded(r, sc) else ""
  {
    var p := Power(10, sc);
    hide Power, Numeral, Padded;
    FloorUnique(v, p, q, r);
    assert v % p == r by { assert v == p * (v / p) + v % p; }
  }

  lemma WholeOnly(s: seq<int>)
    requires Plain(s) && TopNonzero(s)
    ensures Power(10, 0) > 0 && Val(s) >= 0 && Joined(Parts(s, 0)) == Notation(Val(s), 0)
  {
    hide Val, Notation, Numeral, Padded, Joined, WholeParts, Plain, TopNonzero;
    assert s[0..] == s;
    WholeIs(s, 0);
    NotationIs(Val(s), 0, Val(s), 0);
  }

  lemma ShortParts(s: seq<int>, sc: nat)
    requires Plain(s) && 0 < sc && 2 * |s| <= sc
    ensures Power(10, sc) > 0 && Val(s) >= 0 && Joined(Parts(s, sc)) == Notation(Val(s), sc)
  {
    hide Val, Notation, Power, Pow100, Numeral, Padded, Joined, WholeParts, PairParts, Zeros, Plain, TopNonzero;
    var n := sc - 2 * |s|;
    PowerPositive(sc);
    SplitValue(s, |s|);
    assert s[..|s|] == s && s[0..|s|] == s && s[|s|..] == [];
    EmptyValue();
    PowerMonotone(2 * |s|, sc);
    NotationIs(Val(s), sc, 0, Val(s));
    NoNumeral();
    PairsAre(s, |s|, 0);
    PaddedShort(Val(s), n, 2 * |s|);
    ZerosAre(n);
    JoinedOne(Char('.'));
    JoinedThree([Char('.')], Zeros(n), PairParts(s, |s|, 0));
    Regroup(".", Joined(Zeros(n)), Padded(Val(s), 2 * |s|));
    Regroup("." + Padded(Val(s), sc), "", "");
  }

  lemma {:induction false} PowerMonotone(a: nat, b: nat)
    requires a <= b
    ensures Power(10, a) <= Power(10, b)
  {
    if a < b {
      PowerMonotone(a, b - 1);
      PowerPositive(b - 1);
      PowerTen(b - 1);
    }
  }

  lemma EvenParts(s: seq<int>, sc: nat)
    requires Plain(s) && TopNonzero(s) && 0 < sc < 2 * |s| && sc % 2 == 0
    ensures Power(10, sc) > 0 && Val(s) >= 0 && Joined(Parts(s, sc)) == Notation(Val(s), sc)
  {
    hide Val, Notation, Power, Pow100, Numeral, Padded, Joined, WholeParts, PairParts, Zeros, Plain, TopNonzero;
    var r := sc / 2;
    PowerPositive(sc);
    SplitValue(s, r);
    WholeIs(s, r);
    assert s[0..r] == s[..r];
    PairsAre(s, r, 0);
    NumberNonneg(s);
    NotationIs(Val(s), sc, Val(s[r..]), Val(s[..r]));
    JoinedOne(Char('.'));
    JoinedThree(WholeParts(s, r), [Char('.')], PairParts(s, r, 0));
    Regroup(Numeral(Val(s[r..])), ".", Padded(Val(s[..r]), sc));
  }

  lemma NumberNonneg(s: seq<int>)
    requires Plain(s)
    ensures Val(s) >= 0
  {
    PlainBounds(s);
  }

  /** The digits before the point, when it goes through digit c under u. */
  lemma WholeNumeral(u: nat, c: int)
    requires 0 <= c <= 99
    ensures Numeral(u) + [DecimalDigit(c / 10)] == (if u == 0 && c < 10 then "0" else "") + Numeral(10 * u + c / 10)
  {
    var n := 10 * u + c / 10;
    assert n / 10 == u && n % 10 == c / 10;
  }

  /** The value in the middle digit: its tens belong to the whole, its units are the first decimal. */
  lemma MiddleValue(s: seq<int>, r: nat)
    requires Plain(s) && 0 < r <= |s|
    ensures var c, p, low := s[r - 1], Power(10, 2 * (r - 1)), Val(s[..r - 1]);
      && p > 0 && 0 <= low < p && Power(10, 2 * r - 1) == 10 * p
      && 0 <= (c % 10) * p + low < 10 * p
      && Val(s) == ((c % 10) * p + low) + 10 * p * (10 * Val(s[r..]) + c / 10)
  {
    hide Val, Power, Pow100;
    var c, p, low := s[r - 1], Power(10, 2 * (r - 1)), Val(s[..r - 1]);
    PowerPositive(2 * (r - 1));
    PowerTen(2 * (r - 1));
    SplitValue(s, r - 1);
    ValCons(s, r - 1);
    MiddleArith(c, p, Val(s[r..]), low);
  }

  lemma MiddleArith(c: int, p: int, u: int, low: int)
    requires 0 <= c <= 99 && 0 <= low < p
    ensures p * (c + 100 * u) == (c % 10) * p + 10 * p * (10 * u + c / 10)
    ensures 0 <= (c % 10) * p + low < 10 * p
  {
    var t, d := c / 10, c % 10;
    MulSum(d, 10 * (10 * u + t), p);
    MulAssoc(p, 10, 10 * u + t);
    MulMono(0, d, p);
    MulMono(d, 9, p);
  }

  lemma OddParts(s: seq<int>, sc: nat)
    requires Plain(s) && TopNonzero(s) && sc < 2 * |s| && sc % 2 == 1
    ensures Power(10, sc) > 0 && Val(s) >= 0
    ensures Joined(Parts(s, sc)) == (if |s| == (sc + 1) / 2 && s[|s| - 1] < 10 then "0" else "") + Notation(Val(s), sc)
  {
    hide Val, Notation, Power, Pow100, Numeral, Padded, Joined, WholeParts, PairParts, Zeros, Plain, TopNonzero;
    hide SplitParts;
    var r := (sc + 1) / 2;
    PlainAt(s, r - 1);
    var c, p, low := s[r - 1], Power(10, 2 * (r - 1)), Val(s[..r - 1]);
    MiddleValue(s, r);
    WholeIs(s, r);
    var u := Val(s[r..]);
    assert r == |s| ==> u == 0 by { EmptyValue(); assert r == |s| ==> s[r..] == []; }
    assert s[0..r - 1] == s[..r - 1];
    PairsAre(s, r - 1, 0);
    NumberNonneg(s);
    NotationIs(Val(s), sc, 10 * u + c / 10, (c % 10) * p + low);
    PaddedOver(c % 10, low, sc - 1);
    SplitJoined(c);
    WholeNumeral(u, c);
    JoinedThree(WholeParts(s, r), SplitParts(c), PairParts(s, r - 1, 0));
    OddText(Numeral(u), Numeral(10 * u + c / 10), if u == 0 && c < 10 then "0" else "", DecimalDigit(c / 10),
            DecimalDigit(c % 10), Padded(low, sc - 1));
  }

  lemma OddText(a: string, b: string, z: string, x: char, y: char, t: string)
    requires a + [x] == z + b
    ensures a + [x, '.', y] + t == z + (b + ("." + ([y] + t)))
  {
    assert a + [x, '.', y] + t == (a + [x]) + (['.', y] + t);
    assert (z + b) + (['.', y] + t) == z + (b + ("." + ([y] + t)));
  }

  lemma SplitJoined(c: int)
    requires 0 <= c <= 99
    ensures Joined(SplitParts(c)) == [DecimalDigit(c / 10), '.', DecimalDigit(c % 10)]
  {
    var a, b := Text([DecimalDigit(c / 10)] + "."), Char(DecimalDigit(c % 10));
    JoinedOne(a);
    JoinedOne(b);
    JoinedConcat([a], [b]);
  }

  /** Whether a zero stands before the point: the point goes through the top digit, whose tens are zero. */
  predicate ZeroFirst(v: nat, sc: nat) {
    sc % 2 == 1 && |Numeral(v)| == sc
  }

  lemma {:induction false} WholeLength(s: seq<int>, k: nat)
    requires Plain(s) && k < |s|
    ensures |Joined(WholeParts(s, k))| == 2 * (|s| - k) - if s[|s| - 1] < 10 then 1 else 0
    decreases |s| - k
  {
    var t := if k == |s| - 1 then Decimal(s[k]) else TwoDigits(s[k]);
    JoinedConcat(WholeParts(s, k + 1), [Text(t)]);
    JoinedOne(Text(t));
    if k + 1 < |s| {
      WholeLength(s, k + 1);
    }
  }

  /**
   * Without its folds, what is put out for a number without zeros on top is its decimal notation, the whole
   * part without a zero before it. A whole part of zero is left out, or put out as one zero.
   */
  lemma PartsAre(s: seq<int>, sc: nat)
    requires Plain(s) && TopNonzero(s)
    ensures Power(10, sc) > 0 && Val(s) >= 0
    ensures Joined(Parts(s, sc)) == (if ZeroFirst(Val(s), sc) then "0" else "") + Notation(Val(s), sc)
  {
    hide Val, Notation, Power, Pow100, Numeral, Padded, Joined, WholeParts, PairParts, Zeros, Plain, Parts;
    assert s[0..] == s;
    WholeIs(s, 0);
    NoNumeral();
    EmptyValue();
    if s != [] {
      WholeLength(s, 0);
    }
    if sc == 0 {
      WholeOnly(s);
    } else if 2 * |s| <= sc {
      ShortParts(s, sc);
    } else if sc % 2 == 0 {
      EvenParts(s, sc);
    } else {
      OddParts(s, sc);
    }
  }
}

/** dc: dropping decimal places (removc). */
module DcShift {
  import opened Arith
  import opened DcDigits
  import opened DcBlk
  import opened DcDivide
  import opened DcPowers
  import opened DcNotation
  import opened DcText

  /** Division by ten with the fraction cut off. */
  function TenthOf(x: int): int {
    if x < 0 then -(-x / 10) else x / 10
  }

  /** The whole digits above the first h: rounded down, but nothing when h reaches past the top. */
  function Above(x: int, len: nat, h: nat): int
    requires Pow100(h) > 0
  {
    if x < 0 && len <= h then 0 else x / Pow100(h)
  }

  /** x divided by a positive number, the fraction cut off. */
  function Cut(x: int, b: int): int
    requires b > 0
  {
    if x < 0 then -(-x / b) else x / b
  }

  /** What removc leaves of a number of len digits without its n lowest decimal places. */
  function Removed(x: int, len: nat, n: nat): int
    requires Pow100(n / 2) > 0
  {
    var above := Above(x, len, n / 2);
    if n % 2 == 1 then TenthOf(above) else above
  }

  /** Dividing by b and then by ten is dividing by ten times b. */
  lemma DivideTwice(v: int, b: int)
    requires v >= 0 && b > 0
    ensures v / (10 * b) == v / b / 10
  {
    var q, r := v / b, v % b;
    var q', r' := q / 10, q % 10;
    assert v == b * q + r && q == 10 * q' + r';
    MulSum(10 * q', r', b);
    MulAssoc(b, 10, q');
    MulAssoc(10, b, q');
    MulMono(r', 9, b);
    MulMono(0, r', b);
    FloorUnique(v, 10 * b, q', b * r' + r);
  }

  lemma QuotientOfNonneg(v: int, b: int)
    requires v >= 0 && b > 0
    ensures v / b >= 0
  {
    if v / b < 0 {
      MulMono(v / b, -1, b);
    }
  }

  lemma PowPositive(h: nat)
    ensures Pow100(h) > 0
  {
    PowMono(0, h);
  }

  lemma SuffixNormal(s: seq<int>, h: nat)
    requires Normal(s) && h < |s|
    ensures Normal(s[h..]) && Plain(s[..h])
  {
    var t := s[h..];
    assert t[|t| - 1] == s[|s| - 1];
    if Negative(s) {
      assert t[..|t| - 1] == s[..|s| - 1][h..];
      assert s[..h] == s[..|s| - 1][..h];
      assert |t| > 2 ==> t[|t| - 2] == s[|s| - 2];
    }
  }

  lemma DropSome(s: seq<int>, h: nat)
    requires Normal(s) && h < |s|
    ensures Pow100(h) > 0 && Normal(s[h..]) && Val(s[h..]) == Val(s) / Pow100(h)
  {
    hide Val, Pow100, Normal;
    SuffixNormal(s, h);
    PowPositive(h);
    ValSplit(s, h);
    PlainBounds(s[..h]);
    FloorUnique(Val(s), Pow100(h), Val(s[h..]), Val(s[..h]));
  }

  lemma DropAll(s: seq<int>, h: nat)
    requires Plain(s) && |s| <= h
    ensures Pow100(h) > 0 && Val(s) / Pow100(h) == 0
  {
    hide Val, Pow100;
    PowPositive(h);
    PlainBounds(s);
    PowMono(|s|, h);
    FloorUnique(Val(s), Pow100(h), 0, Val(s));
  }

  /** What is left of a number without its h lowest digits. */
  lemma DropDigits(s: seq<int>, h: nat)
    requires Normal(s)
    ensures Pow100(h) > 0
    ensures var t := if h < |s| then s[h..] else []; Normal(t) && Val(t) == Above(Val(s), |s|, h)
  {
    hide Val, Pow100;
    PowPositive(h);
    NoDigits();
    SignIsTop(s);
    if h < |s| {
      DropSome(s, h);
    } else if !Negative(s) {
      DropAll(s, h);
    }
  }

  lemma NoDigits()
    ensures Val([]) == 0 && Normal([])
  {
  }

  lemma TenthIsQuotient(a: int, q: int, r: int)
    requires IsQuotient(a, 10, q, r)
    ensures q == TenthOf(a)
  {
    QuotientUnique(a, 10, q, r, TenthOf(a), a - 10 * TenthOf(a));
  }

  /** For a number that is not negative, dropping pairs and then a tenth is division by the power of ten. */
  lemma DropPlaces(x: int, n: nat)
    requires x >= 0
    ensures Pow100(n / 2) > 0 && Power(10, n) > 0
    ensures (if n % 2 == 1 then TenthOf(x / Pow100(n / 2)) else x / Pow100(n / 2)) == x / Power(10, n)
  {
    hide Pow100;
    var h := n / 2;
    var b := Pow100(h);
    PowPositive(h);
    PowerPairs(h);
    QuotientOfNonneg(x, b);
    if n % 2 == 1 {
      PowerTen(2 * h);
      DivideTwice(x, b);
    }
  }

  /** p without its last n0 decimal places (lines 1841-1862). */
  method Removc(p: Blk, n0: nat, tenptr: Blk, divxyz: Blk) returns (q: Blk)
    requires p != tenptr && divxyz !in {p, tenptr} && Normal(p.s) && tenptr.s == [10]
    modifies p`rd, tenptr`rd, divxyz
    ensures fresh(q) && Normal(q.s) && Pow100(n0 / 2) > 0 && Power(10, n0) > 0
    ensures Val(p.s) >= 0 ==> Val(q.s) == Val(p.s) / Power(10, n0)
    ensures Val(q.s) == Removed(Val(p.s), |p.s|, n0)
  {
    hide Val, Pow100, IsQuotient, Normal;
    var n;
    q, n := SkipPairs(p, n0);
    DropDigits(p.s, n0 / 2);
    if Val(p.s) >= 0 {
      DropPlaces(Val(p.s), n0);
    }
    PowerPositive(n0);
    if n == 1 {
      TenIsTen();
      NormalNumber(q.s);
      ghost var a := Val(q.s);
      var r, rem := Div(q, tenptr, divxyz);
      TenthIsQuotient(a, Val(r.s), Val(rem.s));
      q := r;
    }
  }

  /** Skip two places for each digit, and copy the rest; n is what is left of the places. */
  method SkipPairs(p: Blk, n0: nat) returns (q: Blk, n: nat)
    modifies p`rd
    ensures fresh(q) && n == n0 % 2
    ensures q.s == if n0 / 2 < |p.s| then p.s[n0 / 2..] else []
  {
    ghost var s := p.s;
    n := n0;
    p.Rewind();
    ghost var k := 0;
    while n > 1
      invariant 0 <= n == n0 - 2 * k && p.s == s
      invariant p.rd == if k <= |s| then k else |s|
    {
      p.Skipc();
      n := n - 2;
      k := k + 1;
    }
    assert k == n0 / 2;
    ghost var from := p.rd;
    q := new Blk();
    while !p.Sfeof()
      invariant from <= p.rd <= |s| && p.s == s && q.s == s[from..p.rd]
      decreases |s| - p.rd
    {
      var c := p.Sgetc();
      q.Sputc(c);
    }
    assert s[from..|s|] == if n0 / 2 < |s| then s[n0 / 2..] else [];
  }

  /** A number below zero divided rounding down is the magnitude divided rounding up. */
  lemma FloorOfNegative(v: int, b: int)
    requires v >= 0 && b > 0
    ensures (-v) / b == -(v / b) - if v % b == 0 then 0 else 1
  {
    var q, r := v / b, v % b;
    assert v == b * q + r;
    assert b * (-q) == -(b * q);
    if r == 0 {
      FloorUnique(-v, b, -q, 0);
    } else {
      MulDiff(-q, 1, b);
      FloorUnique(-v, b, -q - 1, b - r);
    }
  }

  lemma TenthOfCeiling(q: int, more: bool)
    requires q >= 0
    ensures TenthOf(-q - if more then 1 else 0) == -(q / 10) <==> !more || q % 10 != 9
  {
  }

  /** Rounding down and cutting off agree below zero only when nothing is cut off. */
  lemma PairsOnly(v: int, b: int)
    requires v > 0 && b > 0
    ensures (-v) / b == Cut(-v, b) <==> v % b == 0
  {
    FloorOfNegative(v, b);
  }

  lemma PairsAndOne(v: int, b: int)
    requires v > 0 && b > 0
    ensures TenthOf((-v) / b) == Cut(-v, 10 * b) <==> v % b == 0 || (v / b) % 10 != 9
  {
    FloorOfNegative(v, b);
    DivideTwice(v, b);
    QuotientOfNonneg(v, b);
    TenthOfCeiling(v / b, v % b != 0);
  }

  /** A number below zero with no more digits than are dropped is nearer to zero than the power. */
  lemma AllDropped(s: seq<int>, n: nat)
    requires Normal(s) && Val(s) < 0 && |s| <= n / 2
    ensures 0 < -Val(s) < Pow100(n / 2) <= Power(10, n)
  {
    hide Pow100, Val;
    SignIsTop(s);
    var k := |s| - 1;
    TopSplitVal(s);
    PlainBounds(s[..k]);
    PowPositive(k);
    PowSucc(k);
    PowMono(k + 1, n / 2);
    PowerPairs(n / 2);
    if n % 2 == 1 {
      PowerTen(2 * (n / 2));
    }
  }

  /** When removc cuts the fraction off: the number is not below zero, or has no digits left, or loses
      only zeros among the pairs dropped, or loses one more place above them that is not a nine. */
  predicate CutsOff(x: int, len: nat, n: nat)
    requires Pow100(n / 2) > 0
  {
    || x >= 0 || len <= n / 2 || (-x) % Pow100(n / 2) == 0
    || (n % 2 == 1 && ((-x) / Pow100(n / 2)) % 10 != 9)
  }

  lemma PowerOfPlaces(n: nat)
    ensures Pow100(n / 2) > 0 && Power(10, n) == (if n % 2 == 1 then 10 else 1) * Pow100(n / 2) && Power(10, n) > 0
  {
    hide Pow100, Power;
    PowPositive(n / 2);
    PowerPairs(n / 2);
    if n % 2 == 1 {
      PowerTen(2 * (n / 2));
    }
  }

  lemma RemovedBelow(x: int, len: nat, n: nat)
    requires x < 0 && n / 2 < len
    ensures Pow100(n / 2) > 0 && Power(10, n) > 0
    ensures Removed(x, len, n) == Cut(x, Power(10, n)) <==> CutsOff(x, len, n)
  {
    hide Pow100, Power, TenthOf, Cut;
    PowerOfPlaces(n);
    if n % 2 == 1 {
      PairsAndOne(-x, Pow100(n / 2));
    } else {
      PairsOnly(-x, Pow100(n / 2));
    }
  }

  /** removc cuts the fraction off exactly then. */
  lemma RemovcTruncates(s: seq<int>, n: nat)
    requires Normal(s)
    ensures Pow100(n / 2) > 0 && Power(10, n) > 0
    ensures Removed(Val(s), |s|, n) == Cut(Val(s), Power(10, n)) <==> CutsOff(Val(s), |s|, n)
  {
    hide Pow100, Power, Val;
    PowerOfPlaces(n);
    if Val(s) >= 0 {
      DropPlaces(Val(s), n);
    } else if |s| <= n / 2 {
      AllDropped(s, n);
      SmallQuotient(-Val(s), Power(10, n));
    } else {
      RemovedBelow(Val(s), |s|, n);
    }
  }

  lemma SmallQuotient(v: int, b: int)
    requires 0 <= v < b
    ensures v / b == 0
  {
    FloorUnique(v, b, 0, v);
  }

  /** Below zero it is no division with the fraction cut off: minus one without its two lowest places comes
      out as minus one, where a hundredth of it with the fraction cut off is zero. */
  lemma RemovcRoundsDown()
    ensures Normal([99, -1]) && Val([99, -1]) == -1
    ensures Pow100(1) > 0 && Removed(-1, 2, 2) == -1
    ensures Power(10, 2) > 0 && Cut(-1, Power(10, 2)) == 0
  {
    assert [99, -1][..1] == [99];
    assert [99][..0] == [];
    assert Power(10, 2) == 10 * Power(10, 1) && Power(10, 1) == 10 * Power(10, 0);
  }
}

/** Long division of dc numbers. */
module DcDiv {
  import opened Arith
  import opened DcDigits
  import opened DcBlk
  import opened DcAdd
  import opened DcEstimate

  // ---- leading digits -----------------------------------------------------

  /** Digit k from the top of s, or 0 below the bottom. */
  function FromTop(s: seq<int>, k: nat): int {
    if k < |s| then s[|s| - 1 - k] else 0
  }

  function LeadTwo(s: seq<int>): int {
    FromTop(s, 0) * 100 + FromTop(s, 1)
  }

  function LeadThree(s: seq<int>): int {
    LeadTwo(s) * 100 + FromTop(s, 2)
  }

  /** Below the leading two or three digits there is less than one unit of the last of them. */
  predicate LeadBounded(s: seq<int>)
    requires s != []
  {
    var p := Pow100(|s| - 1);
    && LeadTwo(s) * p <= 100 * Val(s) < (LeadTwo(s) + 1) * p
    && LeadThree(s) * p <= 10000 * Val(s) < (LeadThree(s) + 1) * p
  }

  lemma LeadBounds(s: seq<int>)
    requires s != [] && Plain(s[..|s| - 1])
    ensures LeadBounded(s)
  {
    hide LeadBounded;
    if |s| < 3 {
      LeadBoundsShort(s);
    } else {
      LeadBoundsLong(s);
    }
  }

  lemma LeadBoundsShort(s: seq<int>)
    requires 1 <= |s| <= 2
    ensures LeadBounded(s)
  {
    assert Val(s[..0]) == 0;
    if |s| == 1 {
      assert Val(s) == s[0];
    } else {
      assert s[..1][..0] == s[..0];
      assert Val(s[..1]) == s[0];
      assert Val(s) == s[0] + s[1] * 100;
    }
  }

  lemma LeadBoundsLong(s: seq<int>)
    requires |s| > 2 && Plain(s[..|s| - 1])
    ensures LeadBounded(s)
  {
    hide Val, Pow100;
    var n := |s| - 1;
    assert s[..n][..n - 2] == s[..n - 2];
    PlainPrefix(s[..n], n - 2);
    PlainBounds(s[..n - 2]);
    assert Digit(s[..n][n - 2]);
    LeadThreeSplit(s);
    PowSucc(n - 2);
    PowSucc(n - 1);
    LeadBoundsFar(Val(s[..n - 2]), s[n], s[n - 1], s[n - 2], Pow100(n - 2), Pow100(n - 1), Pow100(n), Val(s));
  }

  lemma PlainPrefix(s: seq<int>, n: nat)
    requires Plain(s) && n <= |s|
    ensures Plain(s[..n])
  {
  }

  lemma LeadThreeSplit(s: seq<int>)
    requires |s| > 2
    ensures var n := |s| - 1;
      Val(s) == Val(s[..n - 2]) + s[n - 2] * Pow100(n - 2) + s[n - 1] * Pow100(n - 1) + s[n] * Pow100(n)
  {
    hide Val, Pow100;
    var n := |s| - 1;
    ValSnoc(s, n);
    ValSnoc(s, n - 1);
    ValSnoc(s, n - 2);
    assert s[..n + 1] == s;
  }

  lemma LeadBoundsFar(low: int, a: int, b: int, c: int, p: int, p1: int, p2: int, v: int)
    requires 0 <= low < p && 0 <= c <= 99
    requires p1 == 100 * p && p2 == 100 * p1
    requires v == low + c * p + b * p1 + a * p2
    ensures (a * 100 + b) * p2 <= 100 * v < (a * 100 + b + 1) * p2
    ensures ((a * 100 + b) * 100 + c) * p2 <= 10000 * v < ((a * 100 + b) * 100 + c + 1) * p2
  {
    MulMono(0, c, p);
    MulMono(c, 99, p);
    MulAssoc(b, 100, p);
    MulAssoc(b, 100, p1);
    MulAssoc(c, 10000, p);
    MulSum(a * 100, b, p2);
    MulAssoc(a, 100, p2);
    MulAssoc(a * 100 + b, 100, p2);
    MulSum((a * 100 + b) * 100, c, p2);
    MulSum(a * 100 + b, 1, p2);
    MulSum((a * 100 + b) * 100 + c, 1, p2);
  }

  /** What lines 855-863 compute from the divisor. */
  function LeadScaled(s: seq<int>): (r: (int, bool))
    requires s != [] && FromTop(s, 0) > 0 && FromTop(s, 1) >= 0 && FromTop(s, 2) >= 0
    ensures r.0 >= 800
  {
    if FromTop(s, 0) < 10 then (LeadThree(s) * 2 / 25, true) else (LeadTwo(s), false)
  }

  lemma LeadsDivisor(s: seq<int>)
    requires Plain(s) && s != [] && s[|s| - 1] != 0
    ensures FromTop(s, 0) > 0 && FromTop(s, 1) >= 0 && FromTop(s, 2) >= 0
    ensures var (c, magic) := LeadScaled(s);
      Leads(c, magic, Scale(magic) * 100 * Val(s), Pow100(|s| - 1))
  {
    LeadBounds(s);
    assert Digit(s[|s| - 1]);
    assert |s| > 1 ==> Digit(s[|s| - 2]);
    assert |s| > 2 ==> Digit(s[|s| - 3]);
    var (c, magic) := LeadScaled(s);
    var v, p := Val(s), Pow100(|s| - 1);
    if magic {
      ScaleLead(LeadThree(s), c, v, p);
    } else {
      MulMono(25 * (c + 1), 25 * (c + 1) + 1, p);
      MulAssoc(25, c + 1, p);
    }
  }

  lemma ScaleLead(c3: int, c: int, v: int, p: int)
    requires p > 0 && c == c3 * 2 / 25
    requires c3 * p <= 10000 * v < (c3 + 1) * p
    ensures c * p <= 800 * v && 25 * (800 * v) < (25 * (c + 1) + 1) * p
  {
    MulMono(25 * c, 2 * c3, p);
    MulMono(2 * (c3 + 1), 25 * (c + 1) + 1, p);
    MulAssoc(25, c, p);
    MulAssoc(2, c3, p);
    MulAssoc(2, c3 + 1, p);
  }

  // ---- one digit's product and subtraction ----------------------------------

  function TimesDigit(a: int, dig: int, carry: int): (r: (int, int))
    ensures a * dig + carry == r.0 + 100 * r.1 && Digit(r.0)
    ensures Digit(a) && 0 <= dig <= DIGIT_LIMIT && 0 <= carry <= DIGIT_LIMIT ==> 0 <= r.1 <= DIGIT_LIMIT
  {
    assert Digit(a) && 0 <= dig <= DIGIT_LIMIT ==> 0 <= a * dig <= 99 * DIGIT_LIMIT by {
      if Digit(a) && 0 <= dig <= DIGIT_LIMIT {
        MulMono(0, a, dig);
        MulMono(a, 99, dig);
      }
    }
    ((a * dig + carry) % 100, (a * dig + carry) / 100)
  }

  /** The first n digits of dig times s, and the carry. */
  function Multiple(s: seq<int>, dig: int, n: nat): (seq<int>, int)
    requires n <= |s|
  {
    if n == 0 then ([], 0) else
    var (r, c) := Multiple(s, dig, n - 1);
    var (d, c') := TimesDigit(s[n - 1], dig, c);
    (r + [d], c')
  }

  lemma {:induction false} MultiplePlain(s: seq<int>, dig: int, n: nat)
    requires n <= |s| && Plain(s) && 0 <= dig <= DIGIT_LIMIT
    ensures var (r, c) := Multiple(s, dig, n);
      |r| == n && Plain(r) && 0 <= c <= DIGIT_LIMIT
  {
    hide TimesDigit;
    if n > 0 {
      MultiplePlain(s, dig, n - 1);
      assert Digit(s[n - 1]);
    }
  }

  lemma MultipleStep(v: int, c: int, x: int, a: int, dig: int, d: int, c': int, p: int)
    requires v + c * p == dig * x && a * dig + c == d + 100 * c'
    ensures (v + d * p) + c' * (100 * p) == dig * (x + a * p)
  {
    MulSum(a * dig, c, p);
    MulSum(d, 100 * c', p);
    MulAssoc(c', 100, p);
    MulSum(x, a * p, dig);
    MulAssoc(dig, a, p);
  }

  lemma {:induction false} MultipleValue(s: seq<int>, dig: int, n: nat)
    requires n <= |s|
    ensures var (r, c) := Multiple(s, dig, n);
      |r| == n && Val(r) + c * Pow100(n) == dig * Val(s[..n])
  {
    if n > 0 {
      hide Val, Pow100, TimesDigit;
      MultipleValue(s, dig, n - 1);
      var (r, c) := Multiple(s, dig, n - 1);
      var (d, c') := TimesDigit(s[n - 1], dig, c);
      ValPush(r, d);
      ValSnoc(s, n - 1);
      PowSucc(n - 1);
      MultipleStep(Val(r), c, Val(s[..n - 1]), s[n - 1], dig, d, c', Pow100(n - 1));
    }
  }

  /** Leave dig times divr in the low digits of the scratch buffer (lines 885-893). */
  method MultiplyInto(divr: Blk, dig: int, divxyz: Blk)
    requires divr != divxyz && Plain(divr.s) && 0 <= dig <= DIGIT_LIMIT
    modifies divr`rd, divxyz
    ensures |divxyz.s| > |divr.s|
    ensures Plain(divxyz.s[..|divr.s|]) && 0 <= divxyz.s[|divr.s|] <= DIGIT_LIMIT
    ensures Val(divxyz.s[..|divr.s| + 1]) == dig * Val(divr.s)
    ensures divxyz.rd == 0
  {
    hide Val, Pow100, TimesDigit;
    divr.Rewind();
    divxyz.Rewind();
    var carry := 0;
    while !divr.Sfeof()
      invariant divr.rd == divxyz.rd <= |divr.s| && divxyz.rd <= |divxyz.s|
      invariant (divxyz.s[..divxyz.rd], carry) == Multiple(divr.s, dig, divr.rd)
      decreases |divr.s| - divr.rd
    {
      MultiplePlain(divr.s, dig, divr.rd);
      var a := divr.Sgetc();
      assert Digit(a);
      var (d, c) := TimesDigit(a, dig, carry);
      carry := c;
      divxyz.Salterc(d);
    }
    MultiplePlain(divr.s, dig, |divr.s|);
    MultipleValue(divr.s, dig, |divr.s|);
    assert divr.s[..|divr.s|] == divr.s;
    ValPush(divxyz.s[..|divr.s|], carry);
    divxyz.Salterc(carry);
    divxyz.Rewind();
  }

  /** s with x subtracted from position off up, as far as n digits of x, and the borrow. */
  function Subtracted(s: seq<int>, x: seq<int>, off: nat, n: nat): (seq<int>, int)
    requires off + n <= |s|
  {
    if n == 0 then (s[..off], 0) else
    var (r, c) := Subtracted(s, x, off, n - 1);
    var d := s[off + n - 1] - DigitAt(x, n - 1) - c;
    if d < 0 then (r + [d + 100], 1) else (r + [d], 0)
  }

  lemma SubtractStep(v: int, c: int, w: int, y: int, a: int, b: int, d: int, c': int, p: int, po: int, pk: int,
                     v': int, w': int, y': int, pk': int)
    requires pk == p * po && v - c * pk == w - y * po && a - b - c == d - 100 * c'
    requires v' == v + d * pk && w' == w + a * pk && y' == y + b * p && pk' == 100 * pk
    ensures v' - c' * pk' == w' - y' * po
  {
    MulDiff(a, b, pk);
    MulDiff(a - b, c, pk);
    MulDiff(d, 100 * c', pk);
    MulAssoc(c', 100, pk);
    MulSum(y, b * p, po);
    MulAssoc(b, p, po);
  }

  lemma SubtractedSnoc(s: seq<int>, x: seq<int>, off: nat, n: nat)
    requires 0 < n && off + n <= |s| && n <= |x|
    ensures var (r, c) := Subtracted(s, x, off, n - 1);
      var (r', c') := Subtracted(s, x, off, n);
      exists d :: r' == r + [d] && s[off + n - 1] - x[n - 1] - c == d - 100 * c'
  {
    var (r, c) := Subtracted(s, x, off, n - 1);
    var (r', c') := Subtracted(s, x, off, n);
    assert r' == r + [r'[|r|]];
  }

  lemma {:induction false} SubtractedLength(s: seq<int>, x: seq<int>, off: nat, n: nat)
    requires off + n <= |s| && n <= |x|
    ensures |Subtracted(s, x, off, n).0| == off + n
  {
    if n > 0 {
      SubtractedLength(s, x, off, n - 1);
    }
  }

  lemma {:induction false} SubtractedStep(s: seq<int>, x: seq<int>, off: nat, n: nat, r: seq<int>, c: int, d: int, c': int)
    requires 0 < n && off + n <= |s| && n <= |x| && |r| == off + n - 1
    requires Val(r) - c * Pow100(off + n - 1) == Val(s[..off + n - 1]) - Val(x[..n - 1]) * Pow100(off)
    requires s[off + n - 1] - x[n - 1] - c == d - 100 * c'
    ensures Val(r + [d]) - c' * Pow100(off + n) == Val(s[..off + n]) - Val(x[..n]) * Pow100(off)
  {
    hide Val, Pow100;
    var k := off + n - 1;
    ValPush(r, d);
    ValSnoc(s, k);
    ValSnoc(x, n - 1);
    PowSum(n - 1, off);
    PowSucc(k);
    SubtractStep(Val(r), c, Val(s[..k]), Val(x[..n - 1]), s[k], x[n - 1], d, c', Pow100(n - 1), Pow100(off), Pow100(k),
                 Val(r + [d]), Val(s[..k + 1]), Val(x[..n]), Pow100(k + 1));
  }

  lemma {:induction false} SubtractedValue(s: seq<int>, x: seq<int>, off: nat, n: nat)
    requires off + n <= |s| && n <= |x|
    ensures var (r, c) := Subtracted(s, x, off, n);
      |r| == off + n && Val(r) - c * Pow100(off + n) == Val(s[..off + n]) - Val(x[..n]) * Pow100(off)
  {
    if n == 0 {
      assert Val(x[..0]) == 0;
    } else {
      hide Val, Pow100, Subtracted;
      SubtractedValue(s, x, off, n - 1);
      SubtractedLength(s, x, off, n);
      SubtractedSnoc(s, x, off, n);
      var (r, c) := Subtracted(s, x, off, n - 1);
      var (r', c') := Subtracted(s, x, off, n);
      var d :| r' == r + [d] && s[off + n - 1] - x[n - 1] - c == d - 100 * c';
      SubtractedStep(s, x, off, n, r, c, d, c');
    }
  }

  lemma {:induction false} SubtractedPlain(s: seq<int>, x: seq<int>, off: nat, n: nat)
    requires off + n <= |s| && n <= |x| && Plain(s[..off + n]) && Plain(x[..n])
    ensures var (r, c) := Subtracted(s, x, off, n);
      |r| == off + n && Plain(r) && 0 <= c <= 1
  {
    if n == 0 {
    } else {
      assert s[..off + n][..off + n - 1] == s[..off + n - 1] && x[..n][..n - 1] == x[..n - 1];
      PlainPrefix(s[..off + n], off + n - 1);
      PlainPrefix(x[..n], n - 1);
      SubtractedPlain(s, x, off, n - 1);
      assert Digit(s[..off + n][off + n - 1]) && Digit(x[..n][n - 1]);
    }
  }

  /** One column of the subtraction, at the cursors of both buffers. */
  method SubtractColumn(divd: Blk, divxyz: Blk, carry0: int) returns (carry: int)
    requires divd != divxyz && divd.rd < |divd.s| && divxyz.rd <= |divxyz.s|
    requires 0 <= carry0 <= 1 && 0 <= divd.s[divd.rd] <= 117 && 0 <= DigitAt(divxyz.s, divxyz.rd) <= DIGIT_LIMIT
    modifies divd, divxyz`rd
    ensures divxyz.rd == if old(divxyz.rd) < |divxyz.s| then old(divxyz.rd) + 1 else |divxyz.s|
    ensures divd.rd == old(divd.rd) + 1 <= |divd.s| == |old(divd.s)|
    ensures var d := old(divd.s[divd.rd]) - DigitAt(divxyz.s, old(divxyz.rd)) - carry0;
      && divd.s[..divd.rd] == old(divd.s[..divd.rd]) + [if d < 0 then d + 100 else d]
      && carry == (if d < 0 then 1 else 0)
    ensures forall k :: divd.rd <= k < |divd.s| ==> divd.s[k] == old(divd.s)[k]
  {
    var d := divd.Slookc();
    var x := NextDigit(divxyz);
    d := d - x - carry0;
    carry := 0;
    if d < 0 {
      d := d + 100;
      carry := 1;
    }
    divd.Salterc(d);
  }

  /** Subtract the low digits of the scratch buffer from divd, from position offset up (lines 894-906). */
  method SubtractFrom(divd: Blk, divxyz: Blk, offset: nat) returns (carry: int)
    requires divd != divxyz && divxyz.rd == 0
    requires offset < |divd.s| <= offset + |divxyz.s|
    requires forall i :: 0 <= i < |divd.s| ==> 0 <= divd.s[i] <= 117
    requires forall i :: 0 <= i < |divd.s| - offset ==> 0 <= divxyz.s[i] <= DIGIT_LIMIT
    modifies divd, divxyz`rd
    ensures (divd.s, carry) == Subtracted(old(divd.s), divxyz.s, offset, |old(divd.s)| - offset)
  {
    ghost var s := divd.s;
    divd.Seekc(offset);
    assert divd.s == s by { assert divd.s[..|s|] == divd.s; }
    carry := 0;
    while !divd.Sfeof()
      invariant offset <= divd.rd <= |divd.s| == |s| && divxyz.rd == divd.rd - offset && 0 <= carry <= 1
      invariant forall k :: divd.rd <= k < |s| ==> divd.s[k] == s[k]
      invariant (divd.s[..divd.rd], carry) == Subtracted(s, divxyz.s, offset, divd.rd - offset)
      decreases |divd.s| - divd.rd
    {
      carry := SubtractColumn(divd, divxyz, carry);
    }
    assert divd.s[..divd.rd] == divd.s;
  }
}

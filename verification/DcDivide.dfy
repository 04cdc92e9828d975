/** dc's division itself: the digit loop, the fix of the last digit, the carry pass, the signs. */
module DcDivide {
  import opened Arith
  import opened DcDigits
  import opened DcBlk
  import opened DcAdd
  import opened DcMult
  import opened DcEstimate
  import opened DcDiv
  import opened DcDivStep

  /** Read the leading digits of the divisor and scale them (lines 854-863). */
  method LeadDigits(divr: Blk) returns (c: int, magic: bool)
    requires Divisor(divr.s)
    modifies divr`rd
    ensures FromTop(divr.s, 0) > 0 && FromTop(divr.s, 1) >= 0 && FromTop(divr.s, 2) >= 0
    ensures (c, magic) == LeadScaled(divr.s)
  {
    LeadsDivisor(divr.s);
    magic := false;
    divr.Fsfile();
    c := divr.Sbackc();
    if c < 10 {
      magic := true;
    }
    var d := 0;
    if !divr.Sfbeg() {
      d := divr.Sbackc();
    }
    c := c * 100 + d;
    if magic {
      d := 0;
      if !divr.Sfbeg() {
        d := divr.Sbackc();
      }
      c := (c * 100 + d) * 2;
      c := c / 25;
    }
  }

  /** Guess a quotient digit from the leading digits of what is left (lines 866-884). */
  method Guess(divd: Blk, c: int, magic: bool, last: bool) returns (dig: int, under: bool)
    requires divd.s != [] && c > 0 && LeadThree(divd.s) >= 0
    modifies divd`rd
    ensures (dig, under) == Estimate(LeadThree(divd.s), c, magic, last)
  {
    divd.Fsfile();
    var td := divd.Sbackc();
    td := td * 100;
    var dd := 0;
    if !divd.Sfbeg() {
      dd := divd.Sbackc();
    }
    td := (td + dd) * 100;
    dd := 0;
    if !divd.Sfbeg() {
      dd := divd.Sbackc();
    }
    td := td + dd;
    assert td == LeadThree(divd.s);
    var cc := c;
    if last {
      td := td + 1;
    } else {
      cc := cc + 1;
    }
    if magic {
      td := td * 8;
    }
    dig := td / cc;
    under := false;
    if td % cc < 8 && dig > 0 && magic {
      dig := dig - 1;
      under := true;
    }
  }

  lemma GuessRange(s: seq<int>, d: seq<int>, off: nat)
    requires Divisor(d) && Working(s, d, off)
    ensures FromTop(d, 0) > 0 && FromTop(d, 1) >= 0 && FromTop(d, 2) >= 0 && LeadThree(s) >= 0
    ensures var (c, magic) := LeadScaled(d); 0 <= Estimate(LeadThree(s), c, magic, off == 0).0 <= DIGIT_LIMIT
  {
    LeadNonneg(s);
    if off == 0 {
      LastGuess(s, d);
    } else {
      InnerGuess(s, d, off);
    }
  }

  lemma PrefixDigits(s: seq<int>, n: nat)
    requires n <= |s| && Plain(s[..n])
    ensures forall i :: 0 <= i < n ==> Digit(s[i])
  {
    forall i | 0 <= i < n ensures Digit(s[i]) {
      assert Digit(s[..n][i]);
    }
  }

  /** Guess a digit and take its multiple of the divisor away (lines 865-907). */
  method TakeDigit(divr: Blk, divd: Blk, divxyz: Blk, c: int, magic: bool, offset: nat)
    returns (dig: int, under: bool, divcarry: int)
    requires divr != divd && divd != divxyz && divxyz != divr
    requires Divisor(divr.s) && Working(divd.s, divr.s, offset)
    requires FromTop(divr.s, 0) > 0 && FromTop(divr.s, 1) >= 0 && FromTop(divr.s, 2) >= 0
    requires (c, magic) == LeadScaled(divr.s)
    modifies divr`rd, divd, divxyz
    ensures (dig, under) == Estimate(LeadThree(old(divd.s)), c, magic, offset == 0)
    ensures 0 <= dig <= DIGIT_LIMIT
    ensures Reduced(old(divd.s), dig * Val(divr.s), offset, divd.s, divcarry)
  {
    hide Val, Pow100, LeadScaled, Estimate, LeadThree;
    ghost var s, m := divd.s, |divr.s|;
    GuessRange(s, divr.s, offset);
    dig, under := Guess(divd, c, magic, offset == 0);
    MultiplyInto(divr, dig, divxyz);
    SubtractMeaning(s, divxyz.s, m, offset);
    PrefixDigits(divxyz.s, m);
    PrefixDigits(s, |s| - 1);
    divcarry := SubtractFrom(divd, divxyz, offset);
  }

  /** Fold the digit the subtraction left on top into the one below (lines 911-916). */
  method FoldTop(divd: Blk, offset: nat)
    requires |divd.s| > 1
    requires offset > 0 && divd.s[|divd.s| - 1] != 0 ==> divd.s[|divd.s| - 2] <= 27
    modifies divd
    ensures divd.rd == |divd.s| - 1 && |divd.s| == |old(divd.s)|
    ensures if offset > 0 then divd.s[..|divd.s| - 1] == Folded(old(divd.s)) else divd.s == old(divd.s)
  {
    divd.Fsfile();
    var d := divd.Sbackc();
    if d != 0 && offset != 0 {
      var e := divd.Sbackc();
      divd.Salterc(e + 100);
    }
  }

  /** One turn of the loop. */
  method DivDigit(divr: Blk, divd: Blk, divxyz: Blk, p: Blk, c: int, magic: bool, offset: nat)
    returns (dig: int, under: bool, divcarry: int)
    requires divr != divd && divd != divxyz && divxyz != divr && p !in {divr, divd, divxyz}
    requires Divisor(divr.s) && Working(divd.s, divr.s, offset)
    requires FromTop(divr.s, 0) > 0 && FromTop(divr.s, 1) >= 0 && FromTop(divr.s, 2) >= 0
    requires (c, magic) == LeadScaled(divr.s)
    requires p.rd == offset + 1 <= |p.s|
    modifies divr`rd, divd, divxyz, p
    ensures 0 <= dig <= DIGIT_LIMIT && p.s == old(p.s)[offset := dig] && p.rd == offset
    ensures offset > 0 ==>
      Working(divd.s, divr.s, offset - 1) && Val(divd.s) == Val(old(divd.s)) - dig * (Val(divr.s) * Pow100(offset))
    ensures offset == 0 ==>
      Finished(Val(old(divd.s)), divr.s, divd.s, dig, under, divcarry) && divd.rd == |divr.s|
  {
    hide Val, Pow100, LeadScaled, Estimate, LeadThree, Finished;
    ghost var s := divd.s;
    dig, under, divcarry := TakeDigit(divr, divd, divxyz, c, magic, offset);
    ghost var t := divd.s;
    if offset > 0 {
      InnerStep(s, divr.s, offset, t, divcarry, dig);
    } else {
      LastStep(s, divr.s, t, divcarry, dig, under);
    }
    p.Backc();
    p.Salterc(dig);
    p.Backc();
    FoldTop(divd, offset);
    if offset > 0 {
      divd.s := divd.s[..|divd.s| - 1];  // divd->wt--
    }
  }

  // ---- the last digit -------------------------------------------------------

  lemma OneMore(dig: int, y: int)
    ensures (dig + 1) * y == dig * y + y && (dig - 1) * y == dig * y - y
  {
  }

  /** A flagged digit is right, or one too small. */
  lemma FinishedUnder(v: int, d: seq<int>, s: seq<int>, dig: int)
    requires Finished(v, d, s, dig, true, 0)
    ensures 0 <= dig <= DIGIT_LIMIT && Plain(s) && 0 <= Val(s) < 2 * Val(d)
    ensures v == dig * Val(d) + Val(s) && v == (dig + 1) * Val(d) + (Val(s) - Val(d))
  {
    PlainFinished(v, d, s, dig, true);
    hide Val, Pow100;
    OneMore(dig, Val(d));
  }

  /** The adjustment of a last digit that was lowered (lines 920-932). */
  method FixUnder(divr: Blk, divd: Blk, p: Blk, dig: int, ghost v: int) returns (rest: Blk)
    requires divr != divd && p !in {divr, divd}
    requires Divisor(divr.s) && Finished(v, divr.s, divd.s, dig, true, 0)
    requires p.rd == 0 < |p.s| && p.s[0] == dig
    modifies divr`rd, divd`rd, p
    ensures rest == divd || fresh(rest)
    ensures |p.s| == |old(p.s)| && p.s[1..] == old(p.s)[1..] && 0 <= p.s[0] <= DIGIT_LIMIT + 1
    ensures Plain(rest.s) && 0 <= Val(rest.s) < Val(divr.s) && v == p.s[0] * Val(divr.s) + Val(rest.s)
  {
    var px := divr.Copy();
    SignIsTop(divr.s);
    FinishedUnder(v, divr.s, divd.s, dig);
    hide Val, Pow100, Finished;
    Chsign(px);
    var ps := Add(px, divd);
    SignIsTop(ps.s);
    ps.Fsfile();
    var top := 0;
    if |ps.s| > 0 {
      top := ps.Sbackc();
    }
    if top < 0 {
      TopNegative(ps.s);
      rest := divd;
    } else {
      rest := ps;
      p.Salterc(dig + 1);
    }
  }

  lemma TopNegative(s: seq<int>)
    requires Number(s) && s != [] && s[|s| - 1] < 0
    ensures Negative(s)
  {
  }

  lemma PlainFinished(v: int, d: seq<int>, s: seq<int>, dig: int, under: bool)
    requires Finished(v, d, s, dig, under, 0)
    ensures Plain(s)
  {
    PrefixDigits(s, |d|);
  }

  /** After a borrow, one divisor more makes the remainder right and the quotient digit one less. */
  lemma FinishedOver(v: int, d: seq<int>, s: seq<int>, dig: int)
    requires Finished(v, d, s, dig, false, 1) && v >= 0
    ensures 0 < dig <= DIGIT_LIMIT && |s| == |d| + 1 && Plain(s[..|d|]) && s[|d|] == 99
    ensures var rest := Val(s) - Pow100(|d| + 1) + Val(d);
      0 <= rest < Val(d) && v == (dig - 1) * Val(d) + rest
  {
    hide Val, Pow100;
    OneMore(dig, Val(d));
    assert 0 * Val(d) == 0;
  }

  /** The add-back of a last digit that was one too big (lines 933-939). */
  method FixOver(divr: Blk, divd: Blk, p: Blk, dig: int, ghost v: int) returns (rest: Blk)
    requires divr != divd && p !in {divr, divd}
    requires Divisor(divr.s) && Finished(v, divr.s, divd.s, dig, false, 1) && v >= 0
    requires p.rd == 0 < |p.s| && p.s[0] == dig && divd.rd == |divr.s|
    modifies divr`rd, divd, p
    ensures fresh(rest)
    ensures |p.s| == |old(p.s)| && p.s[1..] == old(p.s)[1..] && 0 <= p.s[0] <= DIGIT_LIMIT
    ensures Plain(rest.s) && 0 <= Val(rest.s) < Val(divr.s) && v == p.s[0] * Val(divr.s) + Val(rest.s)
  {
    hide Finished, Val, Pow100;
    ghost var s, n := divd.s, |divr.s|;
    FinishedOver(v, divr.s, s, dig);
    p.Salterc(dig - 1);
    divd.Salterc(-1);
    TopReplaced(s, n);
    assert divd.s == s[..n] + [-1];
    assert Number(divr.s) && Number(divd.s) by {
      assert divd.s[..n] == s[..n];
      assert !Negative(divr.s) by { assert Digit(divr.s[n - 1]); }
    }
    rest := Add(divr, divd);
    SignIsTop(rest.s);
  }

  /** Writing -1 over a top 99 takes one unit of the next digit away. */
  lemma TopReplaced(s: seq<int>, n: nat)
    requires |s| == n + 1 && s[n] == 99
    ensures Val(s[..n] + [-1]) == Val(s) - Pow100(n + 1)
  {
    ValPush(s[..n], -1);
  }

  // ---- the carry pass -------------------------------------------------------

  /** The first n digits of s with carries passed up, and the carry out. */
  function Carried(s: seq<int>, n: nat): (seq<int>, int)
    requires n <= |s|
  {
    if n == 0 then ([], 0) else
    var (r, c) := Carried(s, n - 1);
    var d := s[n - 1] + c;
    if d >= 100 then (r + [d - 100], 1) else (r + [d], 0)
  }

  predicate Loose(s: seq<int>) {
    forall i :: 0 <= i < |s| ==> 0 <= s[i] <= DIGIT_LIMIT + 1
  }

  lemma {:induction false} CarriedPlain(s: seq<int>, n: nat)
    requires n <= |s| && Loose(s)
    ensures var (r, c) := Carried(s, n); |r| == n && Plain(r) && 0 <= c <= 1
  {
    if n > 0 {
      CarriedPlain(s, n - 1);
    }
  }

  lemma CarryOn(v: int, c: int, w: int, a: int, d: int, c': int, p: int, v': int, w': int, p': int)
    requires v + c * p == w && a + c == d + 100 * c'
    requires v' == v + d * p && w' == w + a * p && p' == 100 * p
    ensures v' + c' * p' == w'
  {
    MulSum(a, c, p);
    MulSum(d, 100 * c', p);
    MulAssoc(c', 100, p);
  }

  lemma {:induction false} CarriedStep(s: seq<int>, n: nat, r: seq<int>, c: int, d: int, c': int)
    requires 0 < n <= |s| && |r| == n - 1 && Val(r) + c * Pow100(n - 1) == Val(s[..n - 1])
    requires s[n - 1] + c == d + 100 * c'
    ensures Val(r + [d]) + c' * Pow100(n) == Val(s[..n])
  {
    hide Val, Pow100;
    ValPush(r, d);
    ValSnoc(s, n - 1);
    PowSucc(n - 1);
    CarryOn(Val(r), c, Val(s[..n - 1]), s[n - 1], d, c', Pow100(n - 1), Val(r + [d]), Val(s[..n]), Pow100(n));
  }

  lemma {:induction false} CarriedLength(s: seq<int>, n: nat)
    requires n <= |s|
    ensures |Carried(s, n).0| == n
  {
    if n > 0 {
      CarriedLength(s, n - 1);
    }
  }

  lemma CarriedSnoc(s: seq<int>, n: nat) returns (d: int)
    requires 0 < n <= |s|
    ensures Carried(s, n).0 == Carried(s, n - 1).0 + [d]
    ensures s[n - 1] + Carried(s, n - 1).1 == d + 100 * Carried(s, n).1
  {
    var c := Carried(s, n - 1).1;
    d := if s[n - 1] + c >= 100 then s[n - 1] + c - 100 else s[n - 1] + c;
  }

  lemma {:induction false} CarriedValue(s: seq<int>, n: nat)
    requires n <= |s|
    ensures var (r, c) := Carried(s, n); |r| == n && Val(r) + c * Pow100(n) == Val(s[..n])
  {
    if n > 0 {
      hide Val, Pow100, Carried;
      CarriedValue(s, n - 1);
      CarriedLength(s, n);
      var d := CarriedSnoc(s, n);
      CarriedStep(s, n, Carried(s, n - 1).0, Carried(s, n - 1).1, d, Carried(s, n).1);
    } else {
      assert Val(s[..0]) == 0;
    }
  }

  /** Bring the quotient digits under a hundred (lines 941-952). */
  method PassCarries(p: Blk)
    requires Loose(p.s)
    modifies p
    ensures Plain(p.s) && Val(p.s) == Val(old(p.s))
  {
    hide Val, Pow100;
    ghost var s := p.s;
    p.Rewind();
    var divcarry := 0;
    while !p.Sfeof()
      invariant p.rd <= |p.s| == |s|
      invariant p.s[p.rd..] == s[p.rd..]
      invariant (p.s[..p.rd], divcarry) == Carried(s, p.rd)
      decreases |p.s| - p.rd
    {
      CarriedPlain(s, p.rd);
      assert p.s[p.rd] == p.s[p.rd..][0] && p.s[p.rd] == s[p.rd];
      var d := p.Slookc() + divcarry;
      divcarry := 0;
      if d >= 100 {
        d := d - 100;
        divcarry := 1;
      }
      p.Salterc(d);
    }
    CarriedPlain(s, |s|);
    CarriedValue(s, |s|);
    assert p.s[..p.rd] == p.s && s[..|s|] == s;
    ValPush(p.s, divcarry);
    if divcarry != 0 {
      p.Salterc(divcarry);
    }
  }

  // ---- the whole division ---------------------------------------------------

  /** A dividend as long as the divisor or longer is fewer than a hundred divisors at its top digit. */
  lemma FirstWorking(s: seq<int>, d: seq<int>)
    requires Plain(s) && Divisor(d) && |s| >= |d|
    ensures Working(s + [0], d, |s| - |d|) && Val(s + [0]) == Val(s)
  {
    hide Val, Pow100;
    var off := |s| - |d|;
    ValPush(s, 0);
    assert (s + [0])[..|s|] == s;
    assert Val(s) < Pow100(|d|) * Pow100(off) by {
      PowSum(|d|, off);
      assert |d| + off == |s|;
      PlainBounds(s);
    }
    assert Pow100(|d|) <= 100 * Val(d) by {
      TopBounds(d);
      PowSucc(|d| - 1);
    }
    FirstArith(Val(s), Pow100(|d|), Pow100(off), Val(d));
  }

  lemma FirstArith(v: int, pm: int, po: int, y: int)
    requires v < pm * po && pm <= 100 * y && 0 < po && 0 < y
    ensures v < DIGIT_LIMIT * (y * po)
  {
    MulMono(pm, 100 * y, po);
    MulAssoc(100, y, po);
    MulMonoStrict(0, y, po);
  }

  /** Moving one digit's worth from what is left to the quotient. */
  lemma QuotientStep(total: int, w: int, y: int, dig: int, high: seq<int>, off: nat)
    requires total == w + y * (Val(high) * Pow100(off + 1))
    ensures total == w - dig * (y * Pow100(off)) + y * (Val([dig] + high) * Pow100(off))
  {
    ValConcat([dig], high);
    ValPush([], dig);
    hide Val;
    assert [] + [dig] == [dig];
    assert Val([]) == 0 && Pow100(0) == 1 && Pow100(1) == 100 by { PowSucc(0); EmptyValue(); }
    PowSucc(off);
    QuotientArith(y, dig, Val(high), Pow100(off), Pow100(off + 1));
  }

  lemma QuotientArith(y: int, dig: int, h: int, p: int, p1: int)
    requires p1 == 100 * p
    ensures y * (h * p1) == y * ((dig + 100 * h) * p) - dig * (y * p)
  {
    MulSum(dig, 100 * h, p);
    MulSum(dig * p, 100 * h * p, y);
    MulAssoc(y, dig, p);
    MulAssoc(dig, y, p);
    MulAssoc(h, 100, p);
  }

  /** The state of the digit loop: before the last turn a working dividend, after it what is left, with
      the quotient digits above the offset making up the rest of the dividend. */
  ghost predicate Digits(total: int, d: seq<int>, s: seq<int>, p: seq<int>, offset: int,
                         dig: int, under: bool, divcarry: int, v: int) {
    && p != [] && -1 <= offset < |p| && Loose(p[offset + 1..])
    && (offset >= 0 ==>
          Working(s, d, offset) && total == Val(s) + Val(d) * (Val(p[offset + 1..]) * Pow100(offset + 1)))
    && (offset < 0 ==>
          p[0] == dig && v >= 0 && Finished(v, d, s, dig, under, divcarry) && total == v + Val(d) * (Val(p[1..]) * 100))
  }

  lemma DigitsStart(total: int, d: seq<int>, s: seq<int>, p: seq<int>, offset: nat)
    requires |p| == offset + 1 && Working(s, d, offset) && total == Val(s)
    ensures Digits(total, d, s, p, offset, 0, false, 0, 0)
  {
    hide Val, Pow100;
    assert p[offset + 1..] == [];
    EmptyValue();
  }

  lemma DigitsWorking(total: int, d: seq<int>, s: seq<int>, p: seq<int>, offset: int,
                      dig: int, under: bool, divcarry: int, v: int)
    requires Digits(total, d, s, p, offset, dig, under, divcarry, v) && offset >= 0
    ensures offset < |p| && Loose(p[offset + 1..]) && Working(s, d, offset)
    ensures total == Val(s) + Val(d) * (Val(p[offset + 1..]) * Pow100(offset + 1))
  {
  }

  lemma DigitsStep(total: int, d: seq<int>, s: seq<int>, p: seq<int>, offset: int,
                   dig: int, under: bool, divcarry: int, v: int, s': seq<int>, p': seq<int>)
    requires 0 <= offset < |p| && Loose(p[offset + 1..]) && Working(s, d, offset)
    requires total == Val(s) + Val(d) * (Val(p[offset + 1..]) * Pow100(offset + 1))
    requires 0 <= dig <= DIGIT_LIMIT && p' == p[offset := dig]
    requires offset > 0 ==> Working(s', d, offset - 1) && Val(s') == Val(s) - dig * (Val(d) * Pow100(offset))
    requires offset == 0 ==> Finished(Val(s), d, s', dig, under, divcarry)
    ensures Digits(total, d, s', p', offset - 1, dig, under, divcarry, if offset == 0 then Val(s) else v)
  {
    hide Val, Pow100, Finished, Working;
    var high := p[offset + 1..];
    assert p'[offset..] == [dig] + high;
    if offset > 0 {
      QuotientStep(total, Val(s), Val(d), dig, high, offset);
    } else {
      WorkingNonneg(s, d, offset);
      OnePlace();
    }
  }

  lemma OnePlace()
    ensures Pow100(1) == 100
  {
    assert Pow100(0) == 1;
  }

  lemma DigitsEnd(total: int, d: seq<int>, s: seq<int>, p: seq<int>, dig: int, under: bool, divcarry: int, v: int)
    requires Digits(total, d, s, p, -1, dig, under, divcarry, v)
    ensures p != [] && Loose(p) && p[0] == dig && v >= 0 && Finished(v, d, s, dig, under, divcarry)
    ensures total == v + Val(d) * (Val(p[1..]) * 100)
  {
    hide Val, Finished;
    assert p[0..] == p;
  }

  /** The digit loop (lines 864-919), from the longest shift of the divisor down to none. */
  method DigitLoop(divr: Blk, divd: Blk, divxyz: Blk, p: Blk)
    returns (dig: int, under: bool, divcarry: int, ghost v: int)
    requires divr != divd && divd != divxyz && divxyz != divr && p !in {divr, divd, divxyz}
    requires Plain(divd.s) && Divisor(divr.s) && |divd.s| >= |divr.s|
    requires p.s == []
    modifies divr`rd, divd, divxyz, p
    ensures |p.s| == |old(divd.s)| - |divr.s| + 1 && Loose(p.s)
    ensures p.rd == 0 && p.s[0] == dig && divd.rd == |divr.s| && v >= 0
    ensures Finished(v, divr.s, divd.s, dig, under, divcarry)
    ensures Val(old(divd.s)) == v + Val(divr.s) * (Val(p.s[1..]) * 100)
  {
    hide Val, Pow100, Finished, LeadScaled, Digits;
    ghost var total, y := Val(divd.s), Val(divr.s);
    var offset := |divd.s| - |divr.s|;
    FirstWorking(divd.s, divr.s);
    p.Seekc(offset + 1);
    divd.Sputc(0);
    var c, magic := LeadDigits(divr);
    dig, under, divcarry, v := 0, false, 0, 0;
    DigitsStart(total, divr.s, divd.s, p.s, offset);
    while offset >= 0
      invariant -1 <= offset < |p.s| && p.rd == offset + 1 && |p.s| == |old(divd.s)| - |divr.s| + 1
      invariant Digits(total, divr.s, divd.s, p.s, offset, dig, under, divcarry, v)
      invariant offset < 0 ==> divd.rd == |divr.s|
    {
      ghost var s, was := divd.s, p.s;
      DigitsWorking(total, divr.s, s, was, offset, dig, under, divcarry, v);
      dig, under, divcarry := DivDigit(divr, divd, divxyz, p, c, magic, offset);
      DigitsStep(total, divr.s, s, was, offset, dig, under, divcarry, v, divd.s, p.s);
      if offset == 0 {
        v := Val(s);
      }
      offset := offset - 1;
    }
    DigitsEnd(total, divr.s, divd.s, p.s, dig, under, divcarry, v);
  }

  lemma WorkingNonneg(s: seq<int>, d: seq<int>, off: nat)
    requires Working(s, d, off)
    ensures Val(s) >= 0
  {
    PlainBounds(s[..|s| - 1]);
    MulMono(0, s[|s| - 1], Pow100(|s| - 1));
  }

  /** Division of a nonnegative number by a positive one no longer than it. */
  method DivPlain(divr: Blk, divd: Blk, divxyz: Blk) returns (p: Blk, rest: Blk)
    requires divr != divd && divd != divxyz && divxyz != divr
    requires Plain(divd.s) && Divisor(divr.s) && |divd.s| >= |divr.s|
    modifies divr`rd, divd, divxyz
    ensures fresh(p) && (rest == divd || fresh(rest)) && rest != p
    ensures Plain(p.s) && Normal(p.s) && Plain(rest.s) && Normal(rest.s)
    ensures Val(old(divd.s)) == Val(p.s) * Val(divr.s) + Val(rest.s)
    ensures 0 <= Val(rest.s) < Val(divr.s)
  {
    hide Val, Pow100, Finished;
    p := new Blk();
    var dig, under, divcarry;
    ghost var v;
    dig, under, divcarry, v := DigitLoop(divr, divd, divxyz, p);
    ghost var high := p.s[1..];
    assert p.s == [dig] + high;
    rest := divd;
    if under {
      CarryImpossible(v, divr.s, divd.s, dig, divcarry);
      rest := FixUnder(divr, divd, p, dig, v);
    } else if divcarry != 0 {
      CarryIsOne(v, divr.s, divd.s, dig, divcarry);
      rest := FixOver(divr, divd, p, dig, v);
    } else {
      PlainFinished(v, divr.s, divd.s, dig, under);
      Settled(v, divr.s, divd.s, dig);
    }
    assert p.s == [p.s[0]] + high;
    Total(p.s[0], high, Val(divr.s));
    assert Loose(p.s) by { assert forall i :: 1 <= i < |p.s| ==> p.s[i] == high[i - 1]; }
    PassCarries(p);
    TrimPlain(p.s);
    StripZeros(p);
    TrimPlain(rest.s);
    StripZeros(rest);
  }

  lemma CarryImpossible(v: int, d: seq<int>, s: seq<int>, dig: int, divcarry: int)
    requires Finished(v, d, s, dig, true, divcarry)
    ensures divcarry == 0
  {
  }

  lemma CarryIsOne(v: int, d: seq<int>, s: seq<int>, dig: int, divcarry: int)
    requires Finished(v, d, s, dig, false, divcarry) && divcarry != 0
    ensures divcarry == 1
  {
  }

  lemma Settled(v: int, d: seq<int>, s: seq<int>, dig: int)
    requires Finished(v, d, s, dig, false, 0)
    ensures 0 <= Val(s) < Val(d) && v == dig * Val(d) + Val(s) && 0 <= dig <= DIGIT_LIMIT
  {
  }

  lemma Total(dig: int, high: seq<int>, y: int)
    ensures dig * y + y * (Val(high) * 100) == Val([dig] + high) * y
  {
    ValConcat([dig], high);
    assert [dig][..0] == [];
    assert Pow100(1) == 100 * Pow100(0);
    assert Val([dig]) == dig;
    hide Val, Pow100;
    MulSum(dig, 100 * Val(high), y);
  }

  lemma TrimPlain(s: seq<int>)
    requires Plain(s)
    ensures Plain(Trim(s)) && Normal(Trim(s)) && Val(Trim(s)) == Val(s)
  {
    TrimValue(s);
    if Trim(s) != [] {
      assert Digit(s[|Trim(s)| - 1]);
    }
  }

  function Abs(x: int): nat {
    if x < 0 then -x else x
  }

  /** q is a / b cut toward zero and r what remains, with the sign of a. */
  predicate IsQuotient(a: int, b: int, q: int, r: int) {
    a == q * b + r && Abs(r) < Abs(b) && (r != 0 ==> (r < 0 <==> a < 0))
  }

  /** Signs put back on the quotient and remainder of two magnitudes. */
  lemma SignedQuotient(a: int, b: int, q: int, r: int)
    requires b != 0 && Abs(a) == q * Abs(b) + r && 0 <= r < Abs(b)
    ensures IsQuotient(a, b, if (a < 0) != (b < 0) then -q else q, if a < 0 then -r else r)
  {
    assert (-q) * b == -(q * b) && q * (-b) == -(q * b);
    if q < 0 {
      MulMono(q, -1, Abs(b));
    }
  }

  /** Division of magnitudes: a dividend shorter than the divisor is its own remainder. */
  method DivMagnitudes(divr: Blk, divd: Blk, divxyz: Blk) returns (p: Blk, rest: Blk)
    requires divr != divd && divd != divxyz && divxyz != divr
    requires Plain(divd.s) && Divisor(divr.s)
    modifies divr`rd, divd, divxyz
    ensures fresh(p) && (rest == divd || fresh(rest)) && rest != p
    ensures Plain(p.s) && Normal(p.s) && Plain(rest.s)
    ensures Normal(old(divd.s)) || |old(divd.s)| >= |divr.s| ==> Normal(rest.s)
    ensures Val(old(divd.s)) == Val(p.s) * Val(divr.s) + Val(rest.s)
    ensures 0 <= Val(rest.s) < Val(divr.s)
  {
    if |divd.s| - |divr.s| < 0 {
      p := new Blk();
      rest := divd;
      ShorterIsSmaller(divd.s, divr.s);
    } else {
      p, rest := DivPlain(divr, divd, divxyz);
    }
  }

  /** The quotient truncates toward zero; the remainder is returned beside it (line 972). */
  method Div(ddivd: Blk, ddivr: Blk, divxyz: Blk) returns (p: Blk, rem: Blk?)
    requires divxyz !in {ddivd, ddivr}
    requires Number(ddivd.s) && Normal(ddivr.s)
    modifies ddivr`rd, divxyz
    ensures fresh(p) && Normal(p.s)
    ensures Val(ddivr.s) == 0 ==> p.s == [] && rem == null
    ensures Val(ddivr.s) != 0 ==> rem != null && fresh(rem) && rem != p && Number(rem.s)
    ensures Val(ddivr.s) != 0 ==> IsQuotient(Val(ddivd.s), Val(ddivr.s), Val(p.s), Val(rem.s))
    ensures Val(ddivr.s) != 0 && (Normal(ddivd.s) || (Plain(ddivr.s) && |ddivr.s| == 1 && ddivd.s != [])) ==> Normal(rem.s)
  {
    hide Val, Pow100, IsQuotient, Normal, Divisor;
    ZeroIsEmpty(ddivr.s);
    NormalNumber(ddivr.s);
    if |ddivr.s| == 0 {
      p := new Blk();
      rem := null;
      return;
    }
    var divr, divsign := Magnitude(ddivr);
    PositiveDivisor(divr.s);
    PlainNonneg(ddivr.s);
    var divd, remsign := DividendCopy(ddivd);
    if remsign {
      divsign := !divsign;
    }
    EmptyValue();
    p, divd := DivMagnitudes(divr, divd, divxyz);
    SignedQuotient(Val(ddivd.s), Val(ddivr.s), Val(p.s), Val(divd.s));
    PutSigns(p, divsign, divd, remsign);
    rem := divd;
  }

  /** The dividend's magnitude, in a copy, and its sign (lines 842-848). */
  method DividendCopy(ddivd: Blk) returns (divd: Blk, remsign: bool)
    requires Number(ddivd.s)
    ensures fresh(divd) && Plain(divd.s) && Val(divd.s) == Abs(Val(ddivd.s)) && (remsign <==> Val(ddivd.s) < 0)
    ensures (Normal(ddivd.s) ==> Normal(divd.s)) && (!remsign ==> divd.s == ddivd.s)
  {
    hide Val;
    divd := ddivd.Copy();
    SignIsTop(ddivd.s);
    divd.Fsfile();
    var top := 0;
    if !divd.Sfbeg() {
      top := divd.Sbackc();
    }
    remsign := top == -1;
    if remsign {
      assert Negative(ddivd.s);
      Chsign(divd);
      SignIsTop(divd.s);
    }
  }

  /** The signs of quotient and remainder (lines 959-969). */
  method PutSigns(p: Blk, divsign: bool, divd: Blk, remsign: bool)
    requires p != divd && Normal(p.s) && Number(divd.s)
    modifies p, divd
    ensures Normal(p.s) && Val(p.s) == if divsign then -Val(old(p.s)) else Val(old(p.s))
    ensures Number(divd.s) && Val(divd.s) == if remsign then -Val(old(divd.s)) else Val(old(divd.s))
    ensures !divsign ==> p.s == old(p.s)
    ensures Normal(old(divd.s)) ==> Normal(divd.s)
  {
    hide Val, Normal, Number;
    NormalAgain(p.s);
    if divsign {
      Chsign(p);
      NormalAgain(p.s);
    }
    if remsign {
      Chsign(divd);
      NormalAgain(divd.s);
    }
  }

  lemma PlainNonneg(s: seq<int>)
    ensures Plain(s) ==> 0 <= Val(s)
  {
    if Plain(s) {
      PlainBounds(s);
    }
  }

  lemma NormalNumber(s: seq<int>)
    requires Normal(s)
    ensures Number(s)
  {
  }

  lemma NormalAgain(s: seq<int>)
    ensures Canonical(s) ==> Normal(s)
    ensures Normal(s) ==> Number(s)
  {
  }

  lemma PositiveDivisor(d: seq<int>)
    requires Plain(d) && Normal(d) && Val(d) != 0
    ensures Divisor(d) && 0 < Val(d)
  {
    ZeroIsEmpty(d);
    TopBounds(d);
  }

  lemma ShorterIsSmaller(s: seq<int>, d: seq<int>)
    requires Plain(s) && Divisor(d) && |s| < |d|
    ensures 0 <= Val(s) < Val(d)
  {
    PlainBounds(s);
    TopBounds(d);
    PowMono(|s|, |d| - 1);
  }

  /** Only 0 times b is nearer to 0 than b. */
  lemma SmallMultiple(d: int, b: int)
    requires Abs(d * b) < Abs(b)
    ensures d == 0
  {
    var c := Abs(b);
    assert d * b == if b < 0 then (-d) * c else d * c;
    if d >= 1 {
      MulMono(1, d, c);
      MulMono(-d, -1, c);
    } else if d <= -1 {
      MulMono(d, -1, c);
      MulMono(1, -d, c);
    }
  }

  /** Only one quotient and remainder satisfy what Div promises. */
  lemma QuotientUnique(a: int, b: int, q: int, r: int, q': int, r': int)
    requires b != 0 && IsQuotient(a, b, q, r) && IsQuotient(a, b, q', r')
    ensures q == q' && r == r'
  {
    MulDiff(q, q', b);
    SmallMultiple(q - q', b);
  }
}

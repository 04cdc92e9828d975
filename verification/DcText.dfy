/** Reading and printing dc numbers in base ten. */
module DcText {
  import opened Arith
  import opened DcDigits
  import opened DcBlk
  import opened DcAdd
  import opened DcMult
  import opened DcDivide
  import opened DcPowers
  import opened DcNotation

  // ---- the notation ---------------------------------------------------------

  /** What has been read of a number: all its digits as an integer, whether a point was
      seen, and how many digits followed it. Digits past the 99th decimal are dropped. */
  datatype Reading = Reading(point: bool, decimals: nat, value: nat)

  const START := Reading(false, 0, 0)

  function DigitOf(c: char): int {
    if 'A' <= c <= 'F' then c as int - 'A' as int + 10
    else if '0' <= c <= '9' then c as int - '0' as int
    else -1
  }

  const DIGITS := "0123456789ABCDEF"

  /** The digits and their values; no other character is one. */
  lemma DigitsAre(c: char)
    ensures forall k :: 0 <= k < 16 ==> DigitOf(DIGITS[k]) == k
    ensures if c in DIGITS then DIGITS[DigitOf(c)] == c else DigitOf(c) == -1
  {
    if DigitOf(c) >= 0 {
      assert DIGITS[DigitOf(c)] == c;
    }
  }

  function Digest(st: Reading, d: nat): Reading {
    if st.point && st.decimals >= 99 then st
    else Reading(st.point, if st.point then st.decimals + 1 else 0, st.value * 10 + d)
  }

  /** What a number's text means and where it ends; nothing when the text ends first. */
  function Scan(t: string, st: Reading): (r: Option<(Reading, nat)>)
    ensures r.Some? ==> r.value.1 < |t|
    decreases |t|
  {
    if t == [] then None
    else if t[0] == '.' then
      if st.point then Some((st, 0)) else Further(Scan(t[1..], st.(point := true)), 1)
    else if t[0] == '\\' then
      if |t| < 2 then None else Further(Scan(t[2..], st), 2)
    else if DigitOf(t[0]) >= 0 then Further(Scan(t[1..], Digest(st, DigitOf(t[0]))), 1)
    else Some((st, 0))
  }

  datatype Option<T> = None | Some(value: T)

  function Further(r: Option<(Reading, nat)>, n: nat): Option<(Reading, nat)> {
    match r
    case None => None
    case Some(v) => Some((v.0, v.1 + n))
  }

  /** The reading after a text of digits, at most one point, and escaped characters. */
  function After(t: string, st: Reading): Option<Reading>
    decreases |t|
  {
    if t == [] then Some(st)
    else if t[0] == '.' then if st.point then None else After(t[1..], st.(point := true))
    else if t[0] == '\\' then if |t| < 2 then None else After(t[2..], st)
    else if DigitOf(t[0]) >= 0 then After(t[1..], Digest(st, DigitOf(t[0])))
    else None
  }

  lemma {:induction false} AfterAppend(a: string, b: string, st: Reading)
    requires After(a, st).Some?
    ensures After(a + b, st) == After(b, After(a, st).value)
    decreases |a|
  {
    if a == [] {
      assert a + b == b;
    } else if a[0] == '\\' {
      assert (a + b)[2..] == a[2..] + b;
      AfterAppend(a[2..], b, st);
    } else {
      assert (a + b)[1..] == a[1..] + b;
      AfterAppend(a[1..], b, if a[0] == '.' then st.(point := true) else Digest(st, DigitOf(a[0])));
    }
  }

  /** A number goes on with its digits, its one point, and any character after a backslash, which it passes
      over; past the 99th decimal digits change nothing. */
  lemma NumberGoesOn(t: string, st: Reading, k: nat, x: char)
    requires After(t, START) == Some(st) && k < 16
    ensures After(t + [DIGITS[k]], START) == Some(
      if st.point && st.decimals >= 99 then st
      else Reading(st.point, if st.point then st.decimals + 1 else 0, 10 * st.value + k))
    ensures !st.point ==> After(t + ".", START) == Some(Reading(true, st.decimals, st.value))
    ensures After(t + ['\\', x], START) == Some(st)
  {
    DigitsAre(DIGITS[k]);
    assert [DIGITS[k]][1..] == [] && "."[1..] == [] && ['\\', x][2..] == [];
    AfterAppend(t, [DIGITS[k]], START);
    AfterAppend(t, ".", START);
    AfterAppend(t, ['\\', x], START);
  }

  /** It ends before any other character, and before a second point. */
  lemma {:induction false} AfterScan(a: string, c: char, rest: string, st: Reading)
    requires After(a, st).Some? && c !in DIGITS && c != '\\' && (c == '.' ==> After(a, st).value.point)
    ensures Scan(a + [c] + rest, st) == Some((After(a, st).value, |a|))
    decreases |a|
  {
    var t := a + [c] + rest;
    if a == [] {
      DigitsAre(c);
      assert t[0] == c;
    } else if a[0] == '\\' {
      assert t[2..] == a[2..] + [c] + rest;
      AfterScan(a[2..], c, rest, st);
    } else {
      assert t[1..] == a[1..] + [c] + rest;
      AfterScan(a[1..], c, rest, if a[0] == '.' then st.(point := true) else Digest(st, DigitOf(a[0])));
    }
  }

  /** The part of t from position from up reads as st. */
  predicate Reads(t: string, from: nat, st: Reading) {
    from <= |t| && After(t[from..], START) == Some(st)
  }

  lemma ReadsMore(t: string, from: nat, st: Reading, b: string, st': Reading)
    requires Reads(t, from, st) && After(b, st) == Some(st')
    ensures Reads(t + b, from, st')
  {
    assert (t + b)[from..] == t[from..] + b;
    AfterAppend(t[from..], b, START);
  }

  lemma OneDigitReads(d: int, st: Reading)
    requires 0 <= d <= 9
    ensures After([DecimalDigit(d)], st) == Some(Digest(st, d))
  {
    assert DigitOf(DecimalDigit(d)) == d;
  }

  lemma TwoDigitsRead(c: int, st: Reading)
    requires 0 <= c <= 99
    requires st.point ==> st.decimals <= 97
    ensures After(TwoDigits(c), st)
      == Some(Reading(st.point, if st.point then st.decimals + 2 else 0, st.value * 100 + c))
  {
    hide After, Digest, DecimalDigit;
    TensAndUnits(c);
    PairReads(c / 10, c % 10, st);
  }

  lemma DigestTwo(st: Reading, a: nat, b: nat)
    requires st.point ==> st.decimals <= 97
    ensures Digest(Digest(st, a), b)
      == Reading(st.point, if st.point then st.decimals + 2 else 0, st.value * 100 + 10 * a + b)
  {
  }

  lemma PairReads(a: int, b: int, st: Reading)
    requires 0 <= a <= 9 && 0 <= b <= 9
    requires st.point ==> st.decimals <= 97
    ensures After([DecimalDigit(a), DecimalDigit(b)], st)
      == Some(Reading(st.point, if st.point then st.decimals + 2 else 0, st.value * 100 + 10 * a + b))
  {
    hide After, DecimalDigit, Digest;
    var x, y := DecimalDigit(a), DecimalDigit(b);
    OneDigitReads(a, st);
    OneDigitReads(b, Digest(st, a));
    AfterAppend([x], [y], st);
    assert [x, y] == [x] + [y];
    DigestTwo(st, a, b);
  }

  lemma TensAndUnits(c: int)
    requires 0 <= c <= 99
    ensures c == 10 * (c / 10) + c % 10 && 0 <= c / 10 <= 9 && 0 <= c % 10 <= 9
  {
  }

  lemma DecimalReads(c: int)
    requires 0 <= c <= 99
    ensures After(Decimal(c), START) == Some(Reading(false, 0, c))
  {
    if c < 10 {
      OneDigitReads(c, START);
    } else {
      TwoDigitsRead(c, START);
    }
  }

  // ---- printing -------------------------------------------------------------

  /** The output stream, with the count of characters left on the line. */
  class Output {
    var text: string
    var count: int

    function Now(): Page
      reads this
    {
      Page(text, count)
    }

    method Print(t: string)
      modifies this`text
      ensures text == old(text) + t
    {
      text := text + t;
    }

    /** OUTC */
    method Outc(x: char)
      modifies this
      ensures Now() == Placed(old(Now()), Char(x))
    {
      text := text + [x];
      count := count - 1;
      if count == 0 {
        text := text + FOLD;
        count := LINE;
      }
    }

    /** TEST2, after the text it counts for. */
    method PrintTest2(t: string)
      modifies this
      ensures Now() == Placed(old(Now()), Text(t))
    {
      Print(t);
      count := count - 2;
      if count <= 0 {
        text := text + FOLD;
        count := LINE;
      }
    }
  }

  lemma FoldReads(t: string, from: nat, st: Reading)
    requires Reads(t, from, st)
    ensures Reads(t + FOLD, from, st)
  {
    assert FOLD[2..] == [];
    ReadsMore(t, from, st, FOLD, st);
  }

  /** Print one character of a number, folding the line when it is full. */
  method PutChar(out: Output, x: char, ghost from: nat, ghost st: Reading, ghost st': Reading)
    requires Reads(out.text, from, st) && After([x], st) == Some(st')
    modifies out
    ensures Reads(out.text, from, st') && out.text[..from] == old(out.text)[..from]
    ensures out.Now() == Placed(old(out.Now()), Char(x))
  {
    ReadsMore(out.text, from, st, [x], st');
    FoldReads(out.text + [x], from, st');
    out.Outc(x);
  }

  /** Print part of a number with Bprint and count two columns for it. */
  method PutText(out: Output, t: string, ghost from: nat, ghost st: Reading, ghost st': Reading)
    requires Reads(out.text, from, st) && After(t, st) == Some(st')
    modifies out
    ensures Reads(out.text, from, st') && out.text[..from] == old(out.text)[..from]
    ensures out.Now() == Placed(old(out.Now()), Text(t))
  {
    ReadsMore(out.text, from, st, t, st');
    FoldReads(out.text + t, from, st');
    out.PrintTest2(t);
  }

  /** What is left to print and what has been: sc decimals to go of the digits below the cursor. */
  predicate Printed(p: Blk, text: string, from: nat, point: bool, decimals: int, rd: nat)
    reads p
    requires rd <= |p.s|
  {
    && Plain(p.s) && 0 <= decimals
    && 0 <= Val(p.s[rd..])
    && Reads(text, from, Reading(point, decimals, Val(p.s[rd..])))
  }

  lemma NothingRead(t: string)
    ensures Reads(t, |t|, START)
  {
  }

  lemma WholeNext(l: Page, s: seq<int>, k: nat)
    requires Plain(s) && k < |s|
    ensures Laid(l, WholeParts(s, k))
      == Placed(Laid(l, WholeParts(s, k + 1)), Text(if k == |s| - 1 then Decimal(s[k]) else TwoDigits(s[k])))
  {
    LaidSnoc(l, WholeParts(s, k + 1), Text(if k == |s| - 1 then Decimal(s[k]) else TwoDigits(s[k])));
  }

  lemma PairNext(l: Page, s: seq<int>, n: nat, k: nat)
    requires Plain(s) && k < n <= |s|
    ensures Laid(l, PairParts(s, n, k)) == Placed(Laid(l, PairParts(s, n, k + 1)), Text(TwoDigits(s[k])))
  {
    LaidSnoc(l, PairParts(s, n, k + 1), Text(TwoDigits(s[k])));
  }

  lemma ZeroNext(l: Page, n: nat)
    ensures Laid(l, Zeros(n + 1)) == Placed(Laid(l, Zeros(n)), Char('0'))
  {
    LaidSnoc(l, Zeros(n), Char('0'));
    assert Zeros(n + 1) == Zeros(n) + [Char('0')];
  }

  lemma NothingLaid(l: Page, s: seq<int>, n: nat)
    requires Plain(s) && n <= |s|
    ensures Laid(l, []) == l && Zeros(0) == [] && PairParts(s, n, n) == [] && WholeParts(s, |s|) == []
  {
  }

  /** The digits wholly before the point (lines 1623-1633). */
  method PutWhole(p: Blk, sc: nat, out: Output)
    requires Plain(p.s)
    modifies p`rd, out
    ensures p.rd <= |p.s|
    ensures Printed(p, out.text, |old(out.text)|, false, 0, p.rd)
    ensures out.text[..|old(out.text)|] == old(out.text)
    ensures 2 * (p.rd - 1) < sc || p.rd == 0
    ensures 2 * p.rd >= sc || p.rd == |p.s|
    ensures out.Now() == Laid(old(out.Now()), WholeParts(p.s, p.rd))
  {
    hide Val, Decimal, TwoDigits, Placed, Laid, WholeParts, After;
    NothingLaid(out.Now(), p.s, |p.s|);
    ghost var from := |out.text|;
    p.Fsfile();
    var first := true;
    assert p.s[p.rd..] == [] && out.text[from..] == [];
    EmptyValue();
    NothingRead(out.text);
    while !p.Sfbeg() && (p.rd - 1) * 2 >= sc
      invariant p.rd <= |p.s|
      invariant Printed(p, out.text, from, false, 0, p.rd)
      invariant out.text[..from] == old(out.text)
      invariant first <==> p.rd == |p.s|
      invariant 2 * p.rd >= sc || p.rd == |p.s|
      invariant out.Now() == Laid(old(out.Now()), WholeParts(p.s, p.rd))
      decreases p.rd
    {
      WholeNext(old(out.Now()), p.s, p.rd - 1);
      ghost var v := Val(p.s[p.rd..]);
      ValCons(p.s, p.rd - 1);
      var c := p.Sbackc();
      assert Digit(c);
      if first {
        assert v == 0 by { assert p.s[p.rd + 1..] == []; }
        DecimalReads(c);
        PutText(out, Decimal(c), from, Reading(false, 0, v), Reading(false, 0, v * 100 + c));
      } else {
        TwoDigitsRead(c, Reading(false, 0, v));
        PutText(out, TwoDigits(c), from, Reading(false, 0, v), Reading(false, 0, v * 100 + c));
      }
      first := false;
    }
  }

  /** The point, and the digit that straddles it when sc is odd (lines 1639-1647). */
  method PutPoint(p: Blk, sc0: nat, out: Output, ghost from: nat) returns (sc: nat)
    requires p.rd <= |p.s| && Printed(p, out.text, from, false, 0, p.rd)
    requires 0 < sc0 <= 99 && 2 * (p.rd - 1) < sc0
    modifies p`rd, out
    ensures p.rd <= |p.s| && sc <= sc0
    ensures Printed(p, out.text, from, true, sc0 - sc, p.rd)
    ensures out.text[..from] == old(out.text)[..from]
    ensures if 2 * old(p.rd) > sc0 then sc == 2 * p.rd else sc == sc0 && p.rd == old(p.rd)
    ensures if 2 * old(p.rd) > sc0 then p.rd == old(p.rd) - 1 && out.Now() == Laid(old(out.Now()), SplitParts(p.s[p.rd]))
      else out.Now() == Laid(old(out.Now()), [Char('.')])
  {
    hide Val, Placed;
    ghost var l := out.Now();
    sc := sc0;
    ghost var v := Val(p.s[p.rd..]);
    if p.rd * 2 > sc {
      ValCons(p.s, p.rd - 1);
      var c := p.Sbackc();
      assert Digit(c);
      ghost var mid := Reading(true, 0, v * 10 + c / 10);
      PointReads(c / 10, v);
      assert Decimal(c / 10) == [DecimalDigit(c / 10)];
      PutText(out, Decimal(c / 10) + ".", from, Reading(false, 0, v), mid);
      OneDigitReads(c % 10, mid);
      PutChar(out, DecimalDigit(c % 10), from, mid, Reading(true, 1, v * 100 + c));
      sc := sc - 1;
      TwoLaid(l, Text([DecimalDigit(c / 10)] + "."), Char(DecimalDigit(c % 10)));
    } else {
      LaidSnoc(l, [], Char('.'));
      assert [] + [Char('.')] == [Char('.')];
      assert "."[1..] == [];
      PutChar(out, '.', from, Reading(false, 0, v), Reading(true, 0, v));
    }
  }

  lemma TwoLaid(l: Page, a: Part, b: Part)
    ensures Laid(l, [a, b]) == Placed(Placed(l, a), b)
  {
    LaidSnoc(l, [], a);
    LaidSnoc(l, [a], b);
    assert [] + [a] == [a] && [a] + [b] == [a, b];
  }

  lemma PointReads(d: int, v: nat)
    requires 0 <= d <= 9
    ensures After([DecimalDigit(d)] + ".", Reading(false, 0, v)) == Some(Reading(true, 0, v * 10 + d))
  {
    OneDigitReads(d, Reading(false, 0, v));
    AfterAppend([DecimalDigit(d)], ".", Reading(false, 0, v));
    assert "."[1..] == [];
  }

  /** The decimals: zeros the number is too short for, then its digits in pairs (lines 1648-1660). */
  method PutDecimals(p: Blk, sc0: nat, sc1: nat, out: Output, ghost from: nat)
    requires p.rd <= |p.s| && sc1 <= sc0 <= 99 && Printed(p, out.text, from, true, sc0 - sc1, p.rd)
    requires sc1 == 2 * p.rd || (sc1 > 2 * p.rd && p.rd == |p.s|)
    modifies p`rd, out
    ensures p.rd == 0 && Printed(p, out.text, from, true, sc0, 0)
    ensures out.text[..from] == old(out.text)[..from]
    ensures out.Now() == Laid(Laid(old(out.Now()), Zeros(sc1 - 2 * old(p.rd))), PairParts(p.s, old(p.rd), 0))
  {
    hide Val, Placed, Laid, Zeros, PairParts, After, TwoDigits;
    var sc := sc1;
    ghost var l := out.Now();
    NothingLaid(l, p.s, p.rd);
    while sc > p.rd * 2
      invariant p.rd <= |p.s| && 0 <= sc <= sc1 && p.rd == old(p.rd)
      invariant Printed(p, out.text, from, true, sc0 - sc, p.rd)
      invariant sc == 2 * p.rd || (sc > 2 * p.rd && p.rd == |p.s|)
      invariant out.text[..from] == old(out.text)[..from]
      invariant out.Now() == Laid(l, Zeros(sc1 - sc))
    {
      ZeroNext(l, sc1 - sc);
      assert p.s[p.rd..] == [];
      EmptyValue();
      OneDigitReads(0, Reading(true, sc0 - sc, 0));
      PutChar(out, '0', from, Reading(true, sc0 - sc, 0), Reading(true, sc0 - sc + 1, 0));
      sc := sc - 1;
    }
    ghost var m := out.Now();
    NothingLaid(m, p.s, p.rd);
    while sc > 1
      invariant p.rd <= |p.s| && sc == 2 * p.rd && sc <= sc0
      invariant Printed(p, out.text, from, true, sc0 - sc, p.rd)
      invariant out.text[..from] == old(out.text)[..from]
      invariant p.rd <= old(p.rd) && out.Now() == Laid(m, PairParts(p.s, old(p.rd), p.rd))
    {
      PairNext(m, p.s, old(p.rd), p.rd - 1);
      ghost var v := Val(p.s[p.rd..]);
      ValCons(p.s, p.rd - 1);
      var c := p.Sbackc();
      assert Digit(c);
      TwoDigitsRead(c, Reading(true, sc0 - sc, v));
      PutText(out, TwoDigits(c), from, Reading(true, sc0 - sc, v), Reading(true, sc0 - sc + 2, v * 100 + c));
      sc := sc - 2;
    }
    assert sc == 0;  // a pair is never split here, so line 1661 has nothing to do
  }

  lemma ThreeLaid(l: Page, a: seq<Part>, b: seq<Part>, c: seq<Part>)
    ensures Laid(l, a + b + c) == Laid(Laid(Laid(l, a), b), c)
  {
    LaidConcat(l, a, b);
    LaidConcat(l, a + b, c);
  }

  /** What the steps of tenot put out is Parts: with the number short of the point, with the point between two
      digits, and with the point through one. */
  lemma ShortSteps(l: Page, s: seq<int>, sc: nat)
    requires Plain(s) && 0 < sc && 2 * |s| <= sc
    ensures Laid(l, Parts(s, sc))
      == Laid(Laid(Laid(Laid(l, WholeParts(s, |s|)), [Char('.')]), Zeros(sc - 2 * |s|)), PairParts(s, |s|, 0))
  {
    NothingLaid(l, s, |s|);
    hide Laid, Zeros, PairParts, WholeParts, Plain;
    ThreeLaid(l, [Char('.')], Zeros(sc - 2 * |s|), PairParts(s, |s|, 0));
  }

  lemma EvenSteps(l: Page, s: seq<int>, sc: nat)
    requires Plain(s) && 0 < sc < 2 * |s| && sc % 2 == 0
    ensures var rd := (sc + 1) / 2;
      Laid(l, Parts(s, sc))
      == Laid(Laid(Laid(Laid(l, WholeParts(s, rd)), [Char('.')]), Zeros(0)), PairParts(s, rd, 0))
  {
    var rd := (sc + 1) / 2;
    NoZeros(Laid(Laid(l, WholeParts(s, rd)), [Char('.')]));
    hide Laid, Zeros, PairParts, WholeParts, Plain;
    ThreeLaid(l, WholeParts(s, rd), [Char('.')], PairParts(s, rd, 0));
  }

  lemma OddSteps(l: Page, s: seq<int>, sc: nat)
    requires Plain(s) && sc < 2 * |s| && sc % 2 == 1
    ensures var rd := (sc + 1) / 2;
      Laid(l, Parts(s, sc))
      == Laid(Laid(Laid(Laid(l, WholeParts(s, rd)), SplitParts(s[rd - 1])), Zeros(0)), PairParts(s, rd - 1, 0))
  {
    hide Laid, Parts, Zeros, PairParts, WholeParts, SplitParts;
    var rd := (sc + 1) / 2;
    OddIs(s, sc);
    NoZeros(Laid(Laid(l, WholeParts(s, rd)), SplitParts(s[rd - 1])));
    ThreeLaid(l, WholeParts(s, rd), SplitParts(s[rd - 1]), PairParts(s, rd - 1, 0));
  }

  lemma OddIs(s: seq<int>, sc: nat)
    requires Plain(s) && sc < 2 * |s| && sc % 2 == 1
    ensures var rd := (sc + 1) / 2;
      Parts(s, sc) == WholeParts(s, rd) + SplitParts(s[rd - 1]) + PairParts(s, rd - 1, 0)
  {
    hide PairParts, WholeParts, SplitParts, Zeros;
  }

  lemma NoPoint(s: seq<int>)
    requires Plain(s)
    ensures Parts(s, 0) == WholeParts(s, 0)
  {
  }

  lemma NoZeros(l: Page)
    ensures Laid(l, Zeros(0)) == l
  {
  }

  /**
   * Print p with sc decimals. What is put out is Parts, folded where the line is full, and a newline. Without
   * the folds it is the number's decimal notation; as it stands it reads back as p with sc decimals.
   */
  method Tenot(p: Blk, sc: nat, out: Output)
    requires Plain(p.s) && sc <= 99
    modifies p`rd, out
    ensures |out.text| > |old(out.text)| && out.text[..|old(out.text)|] == old(out.text)
    ensures out.text[|out.text| - 1] == '\n'
    ensures 0 <= Val(p.s)
    ensures After(out.text[|old(out.text)|..|out.text| - 1], START) == Some(Reading(sc > 0, sc, Val(p.s)))
    ensures var l := Laid(old(out.Now()), Parts(p.s, sc)); out.Now() == Page(l.text + "\n", l.count)
    ensures Power(10, sc) > 0 && (TopNonzero(p.s) ==>
      Joined(Parts(p.s, sc)) == (if ZeroFirst(Val(p.s), sc) then "0" else "") + Notation(Val(p.s), sc))
  {
    hide Val, Laid, Parts, Joined, Notation, Power, ZeroFirst, TopNonzero, After;
    ghost var from := |out.text|;
    PowerPositive(sc);
    if TopNonzero(p.s) {
      PartsAre(p.s, sc);
    }
    PutNumber(p, sc, out);
    assert p.s[0..] == p.s;
    ghost var t := out.text;
    out.Print("\n");
    assert out.text[from..|out.text| - 1] == t[from..];
  }

  /** All of it but the newline. */
  method PutNumber(p: Blk, sc: nat, out: Output)
    requires Plain(p.s) && sc <= 99
    modifies p`rd, out
    ensures |out.text| >= |old(out.text)| && out.text[..|old(out.text)|] == old(out.text)
    ensures p.rd == 0 && Printed(p, out.text, |old(out.text)|, sc > 0, sc, 0)
    ensures out.Now() == Laid(old(out.Now()), Parts(p.s, sc))
  {
    hide Val, Laid, Parts, WholeParts, PairParts, SplitParts, Zeros, After;
    ghost var from, l := |out.text|, out.Now();
    PutWhole(p, sc, out);
    if sc == 0 {
      NoPoint(p.s);
    } else {
      if 2 * |p.s| <= sc {
        ShortSteps(l, p.s, sc);
      } else if sc % 2 == 0 {
        EvenSteps(l, p.s, sc);
      } else {
        OddSteps(l, p.s, sc);
      }
      var sc1 := PutPoint(p, sc, out, from);
      PutDecimals(p, sc, sc1, out, from);
    }
  }

  // ---- reading --------------------------------------------------------------

  /** The input stream, a text and the position reached in it. */
  class Input {
    const text: string
    var pos: nat

    constructor (t: string)
      ensures text == t && pos == 0
    {
      text := t;
      pos := 0;
    }
  }

  /** p with ct decimal zeros appended (lines 1311-1332); p gives up its digits. */
  method Add0(p: Blk, ct0: nat, tenptr: Blk) returns (q: Blk)
    requires p != tenptr && Number(p.s) && tenptr.s == [10]
    modifies p`rd, tenptr`rd
    ensures fresh(q) && Number(q.s) && Val(q.s) == Val(p.s) * Power(10, ct0)
  {
    hide Val, Pow100;
    var ct := ct0;
    q := new Blk();
    while ct > 1
      invariant 0 <= ct <= ct0 && (ct0 - ct) % 2 == 0
      invariant q.s == seq((ct0 - ct) / 2, _ => 0)
    {
      q.Sputc(0);
      ct := ct - 2;
    }
    ghost var z := q.s;
    p.Rewind();
    while !p.Sfeof()
      invariant p.rd <= |p.s| && q.s == z + p.s[..p.rd]
      decreases |p.s| - p.rd
    {
      var c := p.Sgetc();
      q.Sputc(c);
    }
    assert p.s[..p.rd] == p.s;
    ZerosBelow(z, p.s);
    PowerPairs(|z|);
    if ct == 1 {
      TenIsTen();
      PowerTen(2 * |z|);
      MulAssoc(Val(p.s), 10, Power(10, 2 * |z|));
      MulAssoc(10, Val(p.s), Power(10, 2 * |z|));
      q := Mult(tenptr, q);
    }
  }

  lemma TenIsTen()
    ensures Val([10]) == 10 && Normal([10])
  {
    assert [10][..0] == [];
  }

  lemma ZerosBelow(z: seq<int>, s: seq<int>)
    requires Number(s) && forall i :: 0 <= i < |z| ==> z[i] == 0
    ensures Val(z + s) == Val(s) * Pow100(|z|) && Number(z + s)
  {
    hide Val, Pow100;
    AllZero(z);
    ValConcat(z, s);
    NumberOverZeros(z, s);
  }

  lemma NumberOverZeros(z: seq<int>, s: seq<int>)
    requires Number(s) && forall i :: 0 <= i < |z| ==> z[i] == 0
    ensures Number(z + s)
  {
    var t := z + s;
    if Negative(s) {
      assert t[..|t| - 1] == z + s[..|s| - 1];
    } else {
      assert Plain(t);
      PlainNumber(t);
    }
  }

  lemma ExactQuotient(a: int, b: int, q: int, r: int)
    requires b > 0 && IsQuotient(a * b, b, q, r)
    ensures q == a
  {
    QuotientUnique(a * b, b, q, r, a, 0);
  }

  /** The scratch numbers of dc's globals that reading uses. */
  datatype Globals = Globals(chptr: Blk, inbas: Blk, tenptr: Blk, sqtemp: Blk, divxyz: Blk) {
    ghost predicate Ready()
      reads inbas, tenptr, sqtemp
    {
      && inbas.s == [10] && tenptr.s == [10] && sqtemp.s == [2]
      && chptr !in {inbas, tenptr, sqtemp, divxyz}
      && divxyz !in {inbas, tenptr, sqtemp}
      && inbas != tenptr && inbas != sqtemp && tenptr != sqtemp
    }

    ghost function Scratch(): set<object> {
      {chptr, divxyz, inbas, tenptr, sqtemp}
    }
  }

  /** p divided by n tens it was first multiplied by, with n as its scale on top (lines 1875-1890). */
  method Scale(p: Blk, n: nat, g: Globals) returns (q: Blk)
    requires g.Ready() && n <= 99 && p !in g.Scratch() && Normal(p.s)
    modifies p`rd, g.inbas`rd, g.tenptr`rd, g.sqtemp`rd, g.divxyz
    ensures fresh(q) && |q.s| > 0 && q.s[|q.s| - 1] == n
    ensures Normal(q.s[..|q.s| - 1]) && Val(q.s[..|q.s| - 1]) == Val(p.s)
  {
    hide Val, Pow100, IsQuotient;
    var t := Add0(p, n, g.tenptr);
    q := new Blk();
    q.Sputc(n);
    assert q.s == [n];
    TenIsTen();
    OneDigitValue(n);
    PlainNumber(q.s);
    var s := Dcexp(g.inbas, q, g.divxyz, g.sqtemp);
    PowerPositive(n);
    var rem;
    q, rem := Div(t, s, g.divxyz);
    ExactQuotient(Val(p.s), Val(s.s), Val(q.s), Val(rem.s));
    ghost var d := q.s;
    q.Sputc(n);
    assert q.s[..|q.s| - 1] == d;
  }

  lemma OneDigitValue(n: int)
    requires 0 <= n <= 99
    ensures Val([n]) == n && Plain([n])
  {
    assert [n][..0] == [];
  }

  /** Take one more digit into the number being read (lines 1288-1294). */
  method Accumulate(p: Blk, c: int, g: Globals) returns (q: Blk)
    requires g.Ready() && 0 <= c <= 15 && p !in g.Scratch() && Normal(p.s) && Val(p.s) >= 0
    modifies p`rd, g.chptr, g.inbas`rd
    ensures fresh(q) && Normal(q.s) && Val(q.s) == Val(p.s) * 10 + c
  {
    hide Val, Pow100;
    g.chptr.Create();
    if c != 0 {
      g.chptr.Sputc(c);
    }
    assert g.chptr.s == if c != 0 then [c] else [];
    TenIsTen();
    OneDigitValue(c);
    EmptyValue();
    q := Mult(p, g.inbas);
    q := Add(g.chptr, q);
  }

  /** How the text u goes on: past k characters to st', or not at all. */
  predicate GoesOn(u: string, st: Reading, st': Reading, k: nat) {
    && u != [] && 1 <= k <= |u|
    && ((u[0] == '.' && !st.point && k == 1 && st' == st.(point := true))
        || (u[0] == '\\' && k == 2 && st' == st)
        || (DigitOf(u[0]) >= 0 && k == 1 && st' == Digest(st, DigitOf(u[0]))))
  }

  /** One character of a number read, and an escaped one with the character before it. */
  lemma ScanStep(t: string, n: nat, st: Reading, st': Reading, k: nat)
    requires n + k <= |t| && GoesOn(t[n..], st, st', k)
    requires Scan(t, START) == Further(Scan(t[n..], st), n)
    ensures Scan(t, START) == Further(Scan(t[n + k..], st'), n + k)
  {
    assert t[n..][k..] == t[n + k..];
  }

  lemma ScanStart(t: string)
    ensures Scan(t, START) == Further(Scan(t[0..], START), 0)
  {
    assert t[0..] == t;
  }

  lemma ScanEnds(t: string, n: nat, st: Reading)
    requires n <= |t| && (n == |t| || (n + 1 == |t| && t[n] == '\\'))
    requires Scan(t, START) == Further(Scan(t[n..], st), n)
    ensures Scan(t, START) == None
  {
  }

  lemma ScanStops(t: string, n: nat, st: Reading)
    requires n < |t| && t[n] != '\\' && if t[n] == '.' then st.point else DigitOf(t[n]) < 0
    requires Scan(t, START) == Further(Scan(t[n..], st), n)
    ensures Scan(t, START) == Some((st, n))
  {
  }

  /** One more digit (lines 1283-1293); one past the 99th decimal is dropped. */
  method ReadDigit(b0: Blk, d: int, dp: bool, dpct0: nat, g: Globals, ghost st: Reading) returns (b: Blk, dpct: nat)
    requires g.Ready() && 0 <= d <= 15 && b0 !in g.Scratch() && Normal(b0.s) && Val(b0.s) == st.value
    requires st.point == dp && st.decimals == dpct0 <= 99 && (!dp ==> dpct0 == 0)
    modifies b0`rd, g.chptr, g.inbas`rd
    ensures (b == b0 || fresh(b)) && Normal(b.s)
    ensures var st' := Digest(st, d);
      Val(b.s) == st'.value && st'.point == dp && st'.decimals == dpct <= 99 && (!dp ==> dpct == 0)
  {
    hide Val, Normal;
    b, dpct := b0, dpct0;
    if !(dp && dpct >= 99) {
      if dp {
        dpct := dpct + 1;
      }
      b := Accumulate(b, d, g);
    }
  }

  /** The characters of a number (lines 1264-1296); null when the input ends first. */
  method ReadDigits(inp: Input, g: Globals) returns (q: Blk?, ghost st: Reading, dp: bool, dpct: nat)
    requires g.Ready() && inp.pos <= |inp.text|
    modifies inp, g.chptr, g.inbas`rd
    ensures q == null <==> Scan(inp.text[old(inp.pos)..], START).None?
    ensures q != null ==> fresh(q) && Normal(q.s) && Val(q.s) == st.value
    ensures q != null ==> st.point == dp && st.decimals == dpct <= 99
    ensures q != null ==> old(inp.pos) <= inp.pos
    ensures q != null ==> Scan(inp.text[old(inp.pos)..], START) == Some((st, inp.pos - old(inp.pos)))
  {
    hide Val, Pow100, Scan, Further, Digest;
    dp, dpct, st := false, 0, START;
    var b := new Blk();
    EmptyValue();
    ghost var n := 0;
    ghost var t := inp.text[inp.pos..];
    ScanStart(t);
    while true
      invariant old(inp.pos) + n == inp.pos <= |inp.text|
      invariant fresh(b) && Normal(b.s) && Val(b.s) == st.value
      invariant st.point == dp && st.decimals == dpct <= 99 && (!dp ==> dpct == 0)
      invariant g.Ready()
      invariant Scan(t, START) == Further(Scan(t[n..], st), n)
      decreases |inp.text| - inp.pos
    {
      if inp.pos == |inp.text| {
        ScanEnds(t, n, st);
        return null, st, dp, dpct;
      }
      var c := inp.text[inp.pos];
      assert c == t[n..][0];
      ghost var k, st' := 1, st;
      if c == '.' {
        if dp {
          ScanStops(t, n, st);
          break;
        }
        dp := true;
        st' := st.(point := true);
      } else if c == '\\' {
        if inp.pos + 1 == |inp.text| {
          ScanEnds(t, n, st);
          return null, st, dp, dpct;
        }
        inp.pos := inp.pos + 1;
        k := 2;
      } else {
        var d := DigitOf(c);
        if d < 0 {
          ScanStops(t, n, st);
          break;
        }
        st' := Digest(st, d);
        b, dpct := ReadDigit(b, d, dp, dpct, g, st);
      }
      inp.pos := inp.pos + 1;
      ScanStep(t, n, st, st', k);
      n, st := n + k, st';
    }
    q := b;
  }

  /** Read a number, its scale on top; null when the input ends first, where dc exits. */
  method Readin(inp: Input, g: Globals) returns (p: Blk?)
    requires g.Ready() && inp.pos <= |inp.text|
    modifies inp, g.chptr, g.divxyz, g.inbas`rd, g.tenptr`rd, g.sqtemp`rd
    ensures p == null <==> Scan(inp.text[old(inp.pos)..], START).None?
    ensures p != null ==> fresh(p) && |p.s| > 0
    ensures p != null ==> var (st, n) := Scan(inp.text[old(inp.pos)..], START).value;
      && inp.pos == old(inp.pos) + n
      && p.s[|p.s| - 1] == (if st.point then st.decimals else 0)
      && Normal(p.s[..|p.s| - 1]) && Val(p.s[..|p.s| - 1]) == st.value
  {
    hide Val, Pow100, Scan;
    var q, dp, dpct;
    ghost var st;
    q, st, dp, dpct := ReadDigits(inp, g);
    if q == null {
      return null;
    }
    if !dp {
      ghost var d := q.s;
      q.Sputc(0);
      assert q.s[..|q.s| - 1] == d;
      p := q;
    } else {
      p := Scale(q, dpct, g);
    }
  }

  /** A positive number printed and read back is the same digits with the same scale. */
  method RoundTrip(p: Blk, sc: nat, out: Output, g: Globals) returns (q: Blk?)
    requires Canonical(p.s) && 0 < Val(p.s) && sc <= 99
    requires g.Ready() && p !in g.Scratch()
    modifies p`rd, out, g.chptr, g.divxyz, g.inbas`rd, g.tenptr`rd, g.sqtemp`rd
    ensures old(out.text) <= out.text
    ensures var printed := out.text[|old(out.text)|..];
      Scan(printed, START) == Some((Reading(sc > 0, sc, Val(p.s)), |printed| - 1))
    ensures q != null && q.s == p.s + [sc]
  {
    hide Val, Pow100, Scan, After, Parts, Joined, Notation, Laid, ZeroFirst, TopNonzero, Power;
    NonnegPlain(p.s);
    var from := |out.text|;
    Tenot(p, sc, out);
    var printed := out.text[from..];
    ghost var body := out.text[from..|out.text| - 1];
    assert printed == body + ['\n'] + [];
    AfterScan(body, '\n', [], START);
    var inp := new Input(printed);
    assert printed[0..] == printed;
    q := Readin(inp, g);
    ghost var d := q.s[..|q.s| - 1];
    MinusOneSum();
    CanonicalUnique(d, p.s);
    assert q.s == d + [sc];
  }
}

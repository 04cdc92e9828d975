/** Negation and addition of dc numbers. */
module DcAdd {
  import opened Arith
  import opened DcDigits
  import opened DcBlk

  // ---- chsign -------------------------------------------------------------

  /** The first n digits of the hundred's complement of s, and the carry into digit n. */
  function Complement(s: seq<int>, n: nat): (seq<int>, int)
    requires n <= |s|
  {
    if n == 0 then ([], 0) else
    var (r, c) := Complement(s, n - 1);
    var d := 100 - s[n - 1] - c;
    if d >= 100 then (r + [d - 100], 0) else (r + [d], 1)
  }

  /** What chsign does about the top digit once the complement is in place. */
  function CloseComplement(r: seq<int>, carry: int): seq<int> {
    if carry != 0 then
      if r != [] && r[|r| - 1] == 99 then r[..|r| - 1] + [-1] else r + [-1]
    else
      if r != [] && r[|r| - 1] == 0 then r[..|r| - 1] else r
  }

  function Negated(s: seq<int>): seq<int> {
    var (r, c) := Complement(s, |s|);
    CloseComplement(r, c)
  }

  lemma CarryStep(x: int, y: int, c: int, d: int, e: int, c': int, p: int, x': int, y': int, p': int)
    requires x + y == c * p && d + e + c == 100 * c'
    requires x' == x + d * p && y' == y + e * p && p' == 100 * p
    ensures x' + y' == c' * p'
  {
    MulSum(d, e, p);
    MulSum(d + e, c, p);
    MulAssoc(c', 100, p);
  }

  lemma {:induction false} ComplementPlain(s: seq<int>, n: nat)
    requires n <= |s| && Number(s)
    ensures var (r, c) := Complement(s, n);
      |r| == n && 0 <= c <= 1 && Plain(r)
  {
    if n > 0 {
      ComplementPlain(s, n - 1);
      assert Negative(s) && n < |s| ==> Digit(s[..|s| - 1][n - 1]);
    }
  }

  lemma ComplementStep(s: seq<int>, n: nat)
    requires 0 < n <= |s| && Number(s)
    ensures var (r, c) := Complement(s, n - 1);
      var (r', c') := Complement(s, n);
      |r| == n - 1 && exists d :: r' == r + [d] && d + s[n - 1] + c == 100 * c'
  {
    ComplementPlain(s, n - 1);
    var (r, c) := Complement(s, n - 1);
    var (r', c') := Complement(s, n);
    assert r' == r + [r'[n - 1]];
  }

  /** Digits and their complement sum to the carry, which is 0 only over zeros. */
  lemma {:induction false} ComplementValue(s: seq<int>, n: nat)
    requires n <= |s| && Number(s)
    ensures var (r, c) := Complement(s, n);
      Val(r) + Val(s[..n]) == c * Pow100(n)
  {
    if n > 0 {
      hide Val, Pow100, Complement;
      ComplementValue(s, n - 1);
      ComplementStep(s, n);
      var (r, c) := Complement(s, n - 1);
      var (r', c') := Complement(s, n);
      var d :| r' == r + [d] && d + s[n - 1] + c == 100 * c';
      ValSnoc(s, n - 1);
      ValPush(r, d);
      PowSucc(n - 1);
      CarryStep(Val(r), Val(s[..n - 1]), c, d, s[n - 1], c', Pow100(n - 1), Val(r'), Val(s[..n]), Pow100(n));
    }
  }

  /** Below the top there is no carry only over zeros, which stay zeros. */
  lemma {:induction false} ComplementZeros(s: seq<int>, n: nat)
    requires n <= |s| && Plain(s[..n])
    ensures var (r, c) := Complement(s, n);
      |r| == n && 0 <= c <= 1 && (c == 0 ==> forall j :: 0 <= j < n ==> r[j] == 0 && s[j] == 0)
  {
    if n > 0 {
      assert forall i :: 0 <= i < n - 1 ==> s[..n - 1][i] == s[..n][i];
      ComplementZeros(s, n - 1);
      assert Digit(s[..n][n - 1]);
    }
  }

  /** Closing a complement keeps its value, less the carry in the place above. */
  lemma CloseValue(r: seq<int>, c: int)
    ensures Val(CloseComplement(r, c)) == Val(r) - if c != 0 then Pow100(|r|) else 0
  {
    hide Val, Pow100;
    if c != 0 {
      var t := r + [-1];
      ValPush(r, -1);
      if r != [] && r[|r| - 1] == 99 {
        DropNines(t, |r| - 1);
        assert t[..|r| - 1] == r[..|r| - 1] && t[..|r| + 1] == t;
      }
    } else if r != [] && r[|r| - 1] == 0 {
      DropZeroTop(r);
    }
  }

  lemma CloseNumber(r: seq<int>, c: int)
    requires Plain(r)
    ensures Number(CloseComplement(r, c))
  {
  }

  lemma NegatedValue(s: seq<int>)
    requires Number(s)
    ensures Val(Negated(s)) == -Val(s) && Number(Negated(s))
  {
    var (r, c) := Complement(s, |s|);
    ComplementPlain(s, |s|);
    ComplementValue(s, |s|);
    assert s[..|s|] == s;
    hide Val, Pow100, Complement, CloseComplement;
    CloseValue(r, c);
    CloseNumber(r, c);
  }

  lemma NegatedCanonical(s: seq<int>)
    requires Normal(s)
    ensures Canonical(Negated(s))
  {
    NegatedValue(s);
    var n := |s|;
    var (r, c) := Complement(s, n);
    ComplementPlain(s, n);
    ComplementValue(s, n);
    if n > 0 {
      ComplementPlain(s, n - 1);
      var (r1, c1) := Complement(s, n - 1);
      assert r[..n - 1] == r1;
      assert Negative(s) || s[..n] == s;
      ComplementZeros(s, n - 1);
      if !Negative(s) {
        assert Digit(s[n - 1]);
      } else if n > 1 {
        assert Digit(s[..n - 1][n - 2]);
      }
    }
  }

  /** chsign is its own inverse, digit for digit. */
  lemma NegatedTwice(s: seq<int>)
    requires Canonical(s)
    ensures Negated(Negated(s)) == s
  {
    NegatedValue(s);
    NegatedCanonical(s);
    NegatedValue(Negated(s));
    NegatedCanonical(Negated(s));
    CanonicalUnique(Negated(Negated(s)), s);
  }

  lemma ComplementRange(s: seq<int>, n: nat)
    requires n < |s| && Number(s)
    ensures -1 <= s[n] <= 99 && 0 <= Complement(s, n).1 <= 1
  {
    ComplementPlain(s, n);
    assert Negative(s) && n < |s| - 1 ==> Digit(s[..|s| - 1][n]);
    assert !Negative(s) ==> Digit(s[n]);
  }

  /** The digit loop of chsign. */
  method ComplementInPlace(p: Blk) returns (carry: int)
    requires Number(p.s)
    modifies p
    ensures (p.s, carry) == Complement(old(p.s), |old(p.s)|)
  {
    ghost var s := p.s;
    carry := 0;
    p.Rewind();
    while !p.Sfeof()
      invariant p.rd <= |p.s| == |s|
      invariant forall k :: p.rd <= k < |s| ==> p.s[k] == s[k]
      invariant (p.s[..p.rd], carry) == Complement(s, p.rd)
      decreases |p.s| - p.rd
    {
      ComplementRange(s, p.rd);
      var ct: Char := 100 - p.Slookc() - carry;
      carry := 1;
      if ct >= 100 {
        ct := ct - 100;
        carry := 0;
      }
      p.Salterc(ct);
    }
    assert p.s[..p.rd] == p.s;
  }

  method Chsign(p: Blk)
    requires Number(p.s)
    modifies p
    ensures p.s == Negated(old(p.s))
    ensures Val(p.s) == -Val(old(p.s)) && Number(p.s)
    ensures Normal(old(p.s)) ==> Canonical(p.s)
  {
    NegatedValue(p.s);
    if Normal(p.s) {
      NegatedCanonical(p.s);
    }
    hide CloseComplement, Complement, Val;
    var carry := ComplementInPlace(p);
    CloseInPlace(p, carry);
  }

  /** The end of chsign: a carry makes a top -1, which swallows a 99; without one a zero on top goes. */
  method CloseInPlace(p: Blk, carry: int)
    modifies p
    ensures p.s == CloseComplement(old(p.s), carry)
  {
    if carry != 0 {
      p.Sputc(-1);
      p.Fsfile();
      p.Backc();
      var ct := p.Sbackc();
      if ct == 99 {
        p.Truncate();
        p.Sputc(-1);
      }
    } else {
      p.Fsfile();
      var ct := p.Sbackc();
      if ct == 0 {
        p.Truncate();
      }
    }
  }

  // ---- add ----------------------------------------------------------------

  function DigitAt(s: seq<int>, i: nat): int {
    if i < |s| then s[i] else 0
  }

  function Longer(a: seq<int>, b: seq<int>): nat {
    if |a| > |b| then |a| else |b|
  }

  /** The low digits of s, as many as there are of the first n. */
  function Low(s: seq<int>, n: nat): seq<int> {
    if n < |s| then s[..n] else s
  }

  /** A column sum as a digit and a carry, which is -1 for a borrow. */
  function SplitColumn(n: int): (r: (int, int))
    ensures n == r.0 + 100 * r.1 && -1 <= r.1 <= 1
    ensures -3 <= n <= 199 ==> Digit(r.0)
  {
    if n >= 100 then (n - 100, 1) else if n < 0 then (n + 100, -1) else (n, 0)
  }

  /** The first n digits of the sum, and the carry or borrow into digit n. */
  function Columns(a: seq<int>, b: seq<int>, n: nat): (seq<int>, int) {
    if n == 0 then ([], 0) else
    var (r, c) := Columns(a, b, n - 1);
    var (d, c') := SplitColumn(DigitAt(a, n - 1) + DigitAt(b, n - 1) + c);
    (r + [d], c')
  }

  /** s without the zeros on its top. */
  function Trim(s: seq<int>): seq<int> {
    if s != [] && s[|s| - 1] == 0 then Trim(s[..|s| - 1]) else s
  }

  /** s without the run of 99s under a top -1, keeping the lowest digit. */
  function DropRun(s: seq<int>): seq<int>
    decreases |s|
  {
    if Negative(s) && |s| > 2 && s[|s| - 2] == 99 then DropRun(s[..|s| - 2] + [-1]) else s
  }

  function Sum(a: seq<int>, b: seq<int>): seq<int> {
    var (r, c) := Columns(a, b, Longer(a, b));
    DropRun(Trim(if c != 0 then r + [c] else r))
  }

  lemma LowSnoc(s: seq<int>, n: nat)
    ensures Val(Low(s, n + 1)) == Val(Low(s, n)) + DigitAt(s, n) * Pow100(n)
  {
    if n < |s| {
      ValSnoc(s, n);
      assert n + 1 == |s| ==> s[..n + 1] == s;
    }
  }

  lemma DigitAtRange(s: seq<int>, n: nat)
    requires Number(s)
    ensures -1 <= DigitAt(s, n) <= 99
  {
    assert Negative(s) && n < |s| - 1 ==> Digit(s[..|s| - 1][n]);
    assert !Negative(s) && n < |s| ==> Digit(s[n]);
  }

  lemma AddStep(v: int, c: int, x: int, y: int, d: int, e: int, r: int, c': int, p: int)
    requires v + c * p == x + y && d + e + c == r + 100 * c'
    ensures (v + r * p) + c' * (100 * p) == (x + d * p) + (y + e * p)
  {
    MulSum(d, e, p);
    MulSum(d + e, c, p);
    MulAssoc(c', 100, p);
    MulSum(r, c' * 100, p);
  }

  lemma {:induction false} ColumnsPlain(a: seq<int>, b: seq<int>, n: nat)
    requires Number(a) && Number(b)
    ensures |Columns(a, b, n).0| == n && Plain(Columns(a, b, n).0) && -1 <= Columns(a, b, n).1 <= 1
  {
    if n > 0 {
      ColumnsPlain(a, b, n - 1);
      DigitAtRange(a, n - 1);
      DigitAtRange(b, n - 1);
    }
  }

  lemma {:induction false} ColumnsValue(a: seq<int>, b: seq<int>, n: nat)
    requires Number(a) && Number(b)
    ensures var (r, c) := Columns(a, b, n);
      |r| == n && Val(r) + c * Pow100(n) == Val(Low(a, n)) + Val(Low(b, n))
  {
    if n == 0 {
      assert Low(a, 0) == [] && Low(b, 0) == [];
    } else {
      ColumnsValue(a, b, n - 1);
      var (r, c) := Columns(a, b, n - 1);
      var (r', c') := Columns(a, b, n);
      assert r'[..n - 1] == r;
      LowSnoc(a, n - 1);
      LowSnoc(b, n - 1);
      AddStep(Val(r), c, Val(Low(a, n - 1)), Val(Low(b, n - 1)),
              DigitAt(a, n - 1), DigitAt(b, n - 1), r'[n - 1], c', Pow100(n - 1));
    }
  }

  lemma {:induction false} TrimValue(s: seq<int>)
    ensures Val(Trim(s)) == Val(s) && |Trim(s)| <= |s| && Trim(s) == s[..|Trim(s)|]
    ensures Trim(s) != [] ==> Trim(s)[|Trim(s)| - 1] != 0
    ensures Negative(s) ==> Trim(s) == s
    ensures forall i :: |Trim(s)| <= i < |s| ==> s[i] == 0
  {
    if s != [] && s[|s| - 1] == 0 {
      TrimValue(s[..|s| - 1]);
    }
  }

  lemma {:induction false} DropRunValue(s: seq<int>)
    requires Number(s) && (s != [] ==> s[|s| - 1] != 0)
    ensures Val(DropRun(s)) == Val(s) && Normal(DropRun(s))
    decreases |s|
  {
    if Negative(s) && |s| > 2 && s[|s| - 2] == 99 {
      var n := |s| - 2;
      var t := s[..n] + [-1];
      assert Number(t) by {
        assert t[..n] == s[..|s| - 1][..n];
        assert forall i :: 0 <= i < n ==> t[i] == s[..|s| - 1][i];
      }
      DropNines(s, n);
      assert s[..n + 2] == s;
      DropRunValue(t);
    }
  }

  /** What add computes is the sum, in normal form. */
  lemma SumValue(a: seq<int>, b: seq<int>)
    requires Number(a) && Number(b)
    ensures Val(Sum(a, b)) == Val(a) + Val(b) && Normal(Sum(a, b))
  {
    var n := Longer(a, b);
    assert Low(a, n) == a && Low(b, n) == b;
    ColumnsValue(a, b, n);
    ColumnsPlain(a, b, n);
    var (r, c) := Columns(a, b, n);
    CarryOnTop(r, c);
    var t := if c != 0 then r + [c] else r;
    TrimValue(t);
    TrimNumber(t);
    DropRunValue(Trim(t));
  }

  lemma CarryOnTop(r: seq<int>, c: int)
    requires Plain(r) && -1 <= c <= 99
    ensures var t := if c != 0 then r + [c] else r;
      Val(t) == Val(r) + c * Pow100(|r|) && Number(t)
  {
    var t := r + [c];
    assert t[..|r|] == r;
  }

  lemma TrimNumber(s: seq<int>)
    requires Number(s)
    ensures Number(Trim(s))
  {
    TrimValue(s);
  }

  lemma ColumnRange(a: seq<int>, b: seq<int>, n: nat)
    requires Number(a) && Number(b)
    ensures -1 <= DigitAt(a, n) <= 99 && -1 <= DigitAt(b, n) <= 99
    ensures -1 <= Columns(a, b, n).1 <= 1
  {
    ColumnsPlain(a, b, n);
    DigitAtRange(a, n);
    DigitAtRange(b, n);
  }

  /** The digit under the cursor, or a zero past the end. */
  method NextDigit(a: Blk) returns (n: int)
    requires a.rd <= |a.s|
    modifies a`rd
    ensures n == DigitAt(a.s, old(a.rd))
    ensures a.rd == if old(a.rd) < |a.s| then old(a.rd) + 1 else |a.s|
  {
    n := 0;
    if !a.Sfeof() {
      n := a.Sgetc();
    }
  }

  /** One column: two digits and the carry give a digit and a carry. */
  method AddColumn(a1: Blk, a2: Blk, carry: int, p: Blk) returns (c: int)
    requires a1 != a2 && p !in {a1, a2} && a1.rd <= |a1.s| && a2.rd <= |a2.s|
    requires -1 <= carry <= 1 && -1 <= DigitAt(a1.s, a1.rd) <= 99 && -1 <= DigitAt(a2.s, a2.rd) <= 99
    modifies a1`rd, a2`rd, p
    ensures a1.rd == if old(a1.rd) < |a1.s| then old(a1.rd) + 1 else |a1.s|
    ensures a2.rd == if old(a2.rd) < |a2.s| then old(a2.rd) + 1 else |a2.s|
    ensures var (d, c') := SplitColumn(DigitAt(a1.s, old(a1.rd)) + DigitAt(a2.s, old(a2.rd)) + carry);
      p.s == old(p.s) + [d] && c == c'
  {
    hide SplitColumn, DigitAt;
    var n1 := NextDigit(a1);
    var n2 := NextDigit(a2);
    var (n, c') := SplitColumn(n1 + n2 + carry);
    c := c';
    p.Sputc(n);
  }

  /** The column loop of add. */
  method AddColumns(a1: Blk, a2: Blk) returns (p: Blk, carry: int)
    requires a1 != a2 && Number(a1.s) && Number(a2.s)
    modifies a1`rd, a2`rd
    ensures fresh(p)
    ensures (p.s, carry) == Columns(a1.s, a2.s, Longer(a1.s, a2.s))
  {
    var size := if |a1.s| > |a2.s| then |a1.s| else |a2.s|;
    p := new Blk();
    a1.Rewind();
    a2.Rewind();
    carry := 0;
    hide SplitColumn;
    while size > 0
      invariant fresh(p)
      invariant 0 <= size && |p.s| + size == Longer(a1.s, a2.s)
      invariant a1.rd == if |p.s| < |a1.s| then |p.s| else |a1.s|
      invariant a2.rd == if |p.s| < |a2.s| then |p.s| else |a2.s|
      invariant (p.s, carry) == Columns(a1.s, a2.s, |p.s|)
    {
      size := size - 1;
      ColumnRange(a1.s, a2.s, |p.s|);
      carry := AddColumn(a1, a2, carry, p);
    }
  }

  /** Back over the zeros on top and cut them off (the loop add and div share). */
  method StripZeros(p: Blk)
    modifies p
    ensures p.s == Trim(old(p.s))
  {
    ghost var s := p.s;
    p.Fsfile();
    while !p.Sfbeg()
      invariant p.rd == |p.s|
      invariant Trim(p.s) == Trim(s)
      decreases p.rd
    {
      var c := p.Sbackc();
      if c != 0 {
        break;
      }
      p.Truncate();
    }
  }

  /** The zero stripping of add, which walks to the last nonzero digit and cuts once. */
  method StripZerosOnce(p: Blk)
    modifies p
    ensures p.s == Trim(old(p.s))
  {
    p.Fsfile();
    if !p.Sfbeg() {
      var c := 0;
      assert p.s[..p.rd] == p.s;
      while !p.Sfbeg() && c == 0
        invariant p.rd <= |p.s| && p.s == old(p.s)
        invariant c == 0 ==> Trim(p.s[..p.rd]) == Trim(p.s)
        invariant c != 0 ==> p.rd < |p.s| && p.s[p.rd] == c && p.s[..p.rd + 1] == Trim(p.s)
        decreases p.rd
      {
        assert p.s[..p.rd][..p.rd - 1] == p.s[..p.rd - 1];
        c := p.Sbackc();
      }
      if c != 0 {
        p.Salterc(c);
      }
      p.Truncate();
    }
  }

  lemma DropRunStep(s: seq<int>, k: nat)
    requires 0 < k < |s| && s[k] == 99
    ensures DropRun(s[..k + 1] + [-1]) == DropRun(s[..k] + [-1])
  {
    var t := s[..k + 1] + [-1];
    assert t[..|t| - 2] == s[..k];
  }

  lemma DropRunStops(s: seq<int>, k: nat)
    requires k < |s| && (k == 0 || s[k] != 99)
    ensures DropRun(s[..k + 1] + [-1]) == s[..k + 1] + [-1]
  {
  }

  /** Back from under the top -1 over a run of 99s, to the last digit to keep. */
  method BackOverNines(p: Blk)
    requires |p.s| >= 2 && p.s[|p.s| - 1] == -1 && p.rd == |p.s| - 1
    modifies p`rd
    ensures p.rd <= |p.s| - 2 && DropRun(p.s) == p.s[..p.rd + 1] + [-1]
  {
    ghost var s := p.s;
    assert s[..|s| - 1] + [-1] == s;
    var c := p.Sbackc();
    hide DropRun;
    while c == 99
      invariant p.rd <= |s| - 2
      invariant c == 99 ==> s[p.rd] == 99
      invariant c != 99 ==> (p.rd == 0 && s[0] == 99) || s[p.rd] != 99
      invariant DropRun(s) == DropRun(s[..p.rd + 1] + [-1])
      decreases p.rd + (if c == 99 then 1 else 0)
    {
      if p.rd > 0 {
        DropRunStep(s, p.rd);
      }
      c := p.Sbackc();
    }
    DropRunStops(s, p.rd);
  }

  lemma NoRun(s: seq<int>)
    requires s == [] || s[|s| - 1] != -1
    ensures DropRun(s) == s
  {
  }

  /** The collapse of the 99s under a top -1. */
  method CollapseNines(p: Blk)
    requires p.s != [-1]
    modifies p
    ensures p.s == DropRun(old(p.s))
  {
    hide DropRun;
    ghost var s := p.s;
    p.Fsfile();
    if s == [] || s[|s| - 1] != -1 {
      NoRun(s);
    }
    if !p.Sfbeg() {
      var c := p.Sbackc();
      if c == -1 {
        BackOverNines(p);
        p.Skipc();
        p.Salterc(-1);
        p.Truncate();
      }
    }
  }

  method Add(a1: Blk, a2: Blk) returns (p: Blk)
    requires a1 != a2 && Number(a1.s) && Number(a2.s)
    modifies a1`rd, a2`rd
    ensures fresh(p)
    ensures p.s == Sum(a1.s, a2.s)
    ensures Val(p.s) == Val(a1.s) + Val(a2.s) && Normal(p.s)
  {
    var carry;
    p, carry := AddColumns(a1, a2);
    hide Val, Columns, Trim, DropRun;
    SumValue(a1.s, a2.s);
    ColumnsPlain(a1.s, a2.s, Longer(a1.s, a2.s));
    if carry != 0 {
      p.Sputc(carry);
    }
    CloseSum(p);
  }

  /** Strip the zeros on top and collapse the nines under a -1 (lines 1789-1807). */
  method CloseSum(p: Blk)
    requires Number(p.s) && p.s != [-1]
    modifies p
    ensures p.s == DropRun(Trim(old(p.s)))
  {
    hide Val;
    TrimNumber(p.s);
    TrimValue(p.s);
    StripZerosOnce(p);
    CollapseNines(p);
  }
}

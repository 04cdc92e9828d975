/** Long multiplication of dc numbers. */
module DcMult {
  import opened Arith
  import opened DcDigits
  import opened DcBlk
  import opened DcAdd

  lemma RowStep(v: int, c: int, w: int, x: int, a: int, cq: int, m: int, d: int, c': int, p: int, po: int, pk: int)
    requires pk == p * po
    requires v + c * pk == w + cq * x * po
    requires a * cq + c + m == d + 100 * c'
    ensures (v + d * pk) + c' * (100 * pk) == (w + m * pk) + cq * (x + a * p) * po
  {
    MulSum(a * cq, c, pk);
    MulSum(a * cq + c, m, pk);
    MulSum(d, 100 * c', pk);
    MulAssoc(c', 100, pk);
    RowProduct(x, a, cq, p, po);
  }

  lemma RowProduct(x: int, a: int, cq: int, p: int, po: int)
    ensures cq * (x + a * p) * po == cq * x * po + (a * cq) * (p * po)
  {
    MulSum(x, a * p, cq);
    MulSum(cq * x, cq * (a * p), po);
    MulAssoc(cq, a, p);
    MulAssoc(cq * a, p, po);
  }

  lemma DigitProduct(a: int, b: int)
    requires Digit(a) && Digit(b)
    ensures 0 <= a * b <= 9801
  {
    MulMono(0, a, b);
    MulMono(a, 99, b);
  }

  /** One digit of a row: its new value and the carry out. */
  function RowDigit(a: int, cq: int, carry: int, m: int): (r: (int, int))
    ensures a * cq + carry + m == r.0 + 100 * r.1
    ensures Digit(a) && Digit(cq) && Digit(carry) && Digit(m) ==> Digit(r.0) && Digit(r.1)
  {
    assert Digit(a) && Digit(cq) ==> 0 <= a * cq <= 9801 by {
      if Digit(a) && Digit(cq) {
        DigitProduct(a, cq);
      }
    }
    ((a * cq + carry + m) % 100, (a * cq + carry + m) / 100)
  }

  /** The digits of r0 + cq * mp * Pow100(offset) below position offset + n, and the carry. */
  function Row(r0: seq<int>, mp: seq<int>, cq: int, offset: nat, n: nat): (seq<int>, int)
    requires offset <= |r0| && n <= |mp|
  {
    if n == 0 then (r0[..offset], 0) else
    var (r, c) := Row(r0, mp, cq, offset, n - 1);
    var (d, c') := RowDigit(mp[n - 1], cq, c, DigitAt(r0, offset + n - 1));
    (r + [d], c')
  }

  lemma {:induction false} RowPlain(r0: seq<int>, mp: seq<int>, cq: int, offset: nat, n: nat)
    requires offset <= |r0| && n <= |mp| && Plain(r0) && Plain(mp) && Digit(cq)
    ensures var (r, c) := Row(r0, mp, cq, offset, n);
      |r| == offset + n && Plain(r) && Digit(c)
  {
    if n > 0 {
      RowPlain(r0, mp, cq, offset, n - 1);
    }
  }

  lemma {:induction false} RowPush(r0: seq<int>, mp: seq<int>, cq: int, offset: nat, n: nat, r: seq<int>, c: int,
                                   d: int, c': int)
    requires 0 < n <= |mp| && offset <= |r0| && |r| == offset + n - 1
    requires Val(r) + c * Pow100(offset + n - 1)
      == Val(Low(r0, offset + n - 1)) + cq * Val(mp[..n - 1]) * Pow100(offset)
    requires mp[n - 1] * cq + c + DigitAt(r0, offset + n - 1) == d + 100 * c'
    ensures Val(r + [d]) + c' * Pow100(offset + n) == Val(Low(r0, offset + n)) + cq * Val(mp[..n]) * Pow100(offset)
  {
    hide Val, Pow100, Low, DigitAt;
    var k := offset + n - 1;
    ValPush(r, d);
    LowSnoc(r0, k);
    ValSnoc(mp, n - 1);
    PowSum(n - 1, offset);
    PowSucc(k);
    RowStep(Val(r), c, Val(Low(r0, k)), Val(mp[..n - 1]), mp[n - 1], cq, DigitAt(r0, k), d, c',
            Pow100(n - 1), Pow100(offset), Pow100(k));
    assert k + 1 == offset + n;
  }

  lemma {:induction false} RowLength(r0: seq<int>, mp: seq<int>, cq: int, offset: nat, n: nat)
    requires offset <= |r0| && n <= |mp|
    ensures |Row(r0, mp, cq, offset, n).0| == offset + n
  {
    if n > 0 {
      RowLength(r0, mp, cq, offset, n - 1);
    }
  }

  lemma RowSnoc(r0: seq<int>, mp: seq<int>, cq: int, offset: nat, n: nat) returns (d: int)
    requires offset <= |r0| && 0 < n <= |mp|
    ensures Row(r0, mp, cq, offset, n).0 == Row(r0, mp, cq, offset, n - 1).0 + [d]
    ensures mp[n - 1] * cq + Row(r0, mp, cq, offset, n - 1).1 + DigitAt(r0, offset + n - 1)
      == d + 100 * Row(r0, mp, cq, offset, n).1
  {
    d := RowDigit(mp[n - 1], cq, Row(r0, mp, cq, offset, n - 1).1, DigitAt(r0, offset + n - 1)).0;
  }

  lemma {:induction false} RowValue(r0: seq<int>, mp: seq<int>, cq: int, offset: nat, n: nat)
    requires offset <= |r0| && n <= |mp|
    ensures var (r, c) := Row(r0, mp, cq, offset, n);
      && |r| == offset + n
      && Val(r) + c * Pow100(offset + n) == Val(Low(r0, offset + n)) + cq * Val(mp[..n]) * Pow100(offset)
  {
    if n == 0 {
      assert Low(r0, offset) == r0[..offset];
    } else {
      hide Val, Pow100, Row, Low, DigitAt;
      RowValue(r0, mp, cq, offset, n - 1);
      RowLength(r0, mp, cq, offset, n);
      var d := RowSnoc(r0, mp, cq, offset, n);
      ghost var was, now := Row(r0, mp, cq, offset, n - 1), Row(r0, mp, cq, offset, n);
      RowPush(r0, mp, cq, offset, n, was.0, was.1, d, now.1);
    }
  }

  /** mr with cq times mp added from position offset up. */
  function RowAdded(r0: seq<int>, mp: seq<int>, cq: int, offset: nat): seq<int>
    requires offset <= |r0|
  {
    var (r, c) := Row(r0, mp, cq, offset, |mp|);
    if c != 0 then r + [c] else r
  }

  lemma RowAddedValue(r0: seq<int>, mp: seq<int>, cq: int, offset: nat)
    requires offset <= |r0| <= offset + |mp| && Plain(r0) && Plain(mp) && Digit(cq)
    ensures var t := RowAdded(r0, mp, cq, offset);
      && Plain(t) && offset + |mp| <= |t| <= offset + |mp| + 1
      && Val(t) == Val(r0) + cq * Val(mp) * Pow100(offset)
      && (|t| > offset + |mp| ==> t[|t| - 1] != 0)
  {
    var n := |mp|;
    hide Row, Pow100, Val;
    RowPlain(r0, mp, cq, offset, n);
    RowValue(r0, mp, cq, offset, n);
    assert Low(r0, offset + n) == r0 && mp[..n] == mp;
    var (r, c) := Row(r0, mp, cq, offset, n);
    CarryOnTop(r, c);
  }

  /** One pass of the inner loop: add cq times mp into mr from position offset up. */
  method MultRow(mp: Blk, mr: Blk, cq: int, offset: nat)
    requires mp != mr && Plain(mp.s) && Plain(mr.s) && Digit(cq)
    requires if mp.s == [] then mr.s == [] else offset <= |mr.s| <= offset + |mp.s|
    modifies mp`rd, mr
    ensures mr.s == if mp.s == [] then [] else RowAdded(old(mr.s), mp.s, cq, offset)
  {
    if mp.s == [] {
      return;  // the loop would not run, and mr's cursor would be left unused
    }
    hide RowDigit;
    ghost var r0 := mr.s;
    mp.Rewind();
    mr.Rewind();
    mr.rd := mr.rd + offset;
    var carry := 0;
    while !mp.Sfeof()
      invariant mp.rd <= |mp.s| && mr.rd == offset + mp.rd <= |mr.s|
      invariant (mr.s[..mr.rd], carry) == Row(r0, mp.s, cq, offset, mp.rd)
      invariant |mr.s| == if mr.rd < |r0| then |r0| else mr.rd
      invariant forall k :: mr.rd <= k < |mr.s| ==> mr.s[k] == r0[k]
      decreases |mp.s| - mp.rd
    {
      RowPlain(r0, mp.s, cq, offset, mp.rd);
      carry := RowColumn(mp, mr, cq, carry);
    }
    RowPlain(r0, mp.s, cq, offset, |mp.s|);
    assert mr.s[..mr.rd] == mr.s;
    if carry != 0 {
      assert mr.Sfeof();  // so the digit the carry is added to is always the 0 past the end
      mr.Salterc(carry);
    }
  }

  /** One column of a row: the digit at mr's cursor, or a zero past its end, is replaced. */
  method RowColumn(mp: Blk, mr: Blk, cq: int, carry: int) returns (c: int)
    requires mp != mr && mp.rd < |mp.s| && mr.rd <= |mr.s|
    requires Digit(mp.s[mp.rd]) && Digit(cq) && Digit(carry) && (mr.rd < |mr.s| ==> Digit(mr.s[mr.rd]))
    modifies mp`rd, mr
    ensures mp.rd == old(mp.rd) + 1 && mr.rd == old(mr.rd) + 1 <= |mr.s|
    ensures var (d, c') := RowDigit(mp.s[old(mp.rd)], cq, carry, DigitAt(old(mr.s), old(mr.rd)));
      mr.s[..mr.rd] == old(mr.s[..mr.rd]) + [d] && c == c'
    ensures |mr.s| == if mr.rd < |old(mr.s)| then |old(mr.s)| else mr.rd
    ensures forall k :: mr.rd <= k < |mr.s| ==> mr.s[k] == old(mr.s)[k]
  {
    hide RowDigit;
    var cp := mp.Sgetc();
    var mcr := if mr.Sfeof() then 0 else mr.Slookc();
    var (d, c') := RowDigit(cp, cq, carry, mcr);
    c := c';
    mr.Salterc(d);
  }

  /** The product of two nonnegative numbers, row by row. */
  method MultPlain(mp: Blk, mq: Blk) returns (mr: Blk)
    requires mp != mq && Plain(mp.s) && Plain(mq.s)
    modifies mp`rd, mq`rd
    ensures fresh(mr) && Plain(mr.s)
    ensures Val(mr.s) == Val(mp.s) * Val(mq.s)
    ensures Normal(mp.s) && Normal(mq.s) ==> Normal(mr.s)
  {
    mr := new Blk();
    var offset := 0;
    mq.Rewind();
    while !mq.Sfeof()
      invariant offset == mq.rd <= |mq.s|
      invariant Plain(mr.s)
      invariant Val(mr.s) == Val(mp.s) * Val(mq.s[..offset])
      invariant mp.s == [] || offset == 0 ==> mr.s == []
      invariant mp.s != [] && offset > 0 ==> offset + |mp.s| - 1 <= |mr.s| <= offset + |mp.s|
      invariant mp.s != [] && offset > 0 && |mr.s| == offset + |mp.s| ==> mr.s[|mr.s| - 1] != 0
      decreases |mq.s| - mq.rd
    {
      ghost var r0 := mr.s;
      var cq := mq.Sgetc();
      ValSnoc(mq.s, offset);
      ProductStep(Val(mp.s), Val(mq.s[..offset]), cq, Pow100(offset));
      MultRow(mp, mr, cq, offset);
      if mp.s != [] {
        RowAddedValue(r0, mp.s, cq, offset);
      }
      offset := offset + 1;
    }
    assert mq.s[..|mq.s|] == mq.s;
    ProductNormal(mp.s, mq.s, mr.s);
  }

  lemma ProductStep(a: int, b: int, c: int, p: int)
    ensures a * (b + c * p) == a * b + c * a * p
  {
    MulSum(b, c * p, a);
    MulAssoc(a, c, p);
  }

  lemma ProductNormal(a: seq<int>, b: seq<int>, r: seq<int>)
    requires Plain(a) && Plain(b) && Plain(r) && Val(r) == Val(a) * Val(b)
    requires a == [] || b == [] ==> r == []
    requires a != [] && b != [] ==> |a| + |b| - 1 <= |r| <= |a| + |b|
    requires a != [] && b != [] && |r| == |a| + |b| ==> r[|r| - 1] != 0
    ensures Normal(a) && Normal(b) ==> Normal(r)
  {
    hide Pow100, Val;
    if Normal(a) && Normal(b) && a != [] && b != [] && |r| == |a| + |b| - 1 {
      TopBounds(a);
      TopBounds(b);
      var m, n := |a| - 1, |b| - 1;
      MulMono(Pow100(m), Val(a), Val(b));
      MulMono(Pow100(n), Val(b), Pow100(m));
      PowSum(m, n);
      if r[|r| - 1] == 0 {
        DropZeroTop(r);
        PlainBounds(r[..|r| - 1]);
        assert false;
      }
    }
  }

  lemma SignedProduct(a: int, b: int)
    ensures (-a) * b == -(a * b) && a * (-b) == -(a * b) && (-a) * (-b) == a * b
  {
  }

  /** The operand itself, or a negated copy of it when it is negative. */
  method Magnitude(p: Blk) returns (mp: Blk, negative: bool)
    requires Number(p.s)
    modifies p`rd
    ensures negative <==> Val(p.s) < 0
    ensures if negative then fresh(mp) else mp == p
    ensures Plain(mp.s) && Val(mp.s) == if negative then -Val(p.s) else Val(p.s)
    ensures Normal(p.s) ==> Normal(mp.s)
  {
    mp, negative := p, false;
    SignIsTop(p.s);
    p.Fsfile();
    if !p.Sfbeg() {
      var c := p.Sbackc();
      if c < 0 {
        assert Negative(p.s);
        mp := p.Copy();
        Chsign(mp);
        SignIsTop(mp.s);
        negative := true;
      }
    }
  }

  method Mult(p: Blk, q: Blk) returns (mr: Blk)
    requires p != q && Number(p.s) && Number(q.s)
    modifies p`rd, q`rd
    ensures fresh(mr) && Number(mr.s)
    ensures Val(mr.s) == Val(p.s) * Val(q.s)
    ensures Normal(p.s) && Normal(q.s) ==> Normal(mr.s)
  {
    var mp, pneg := Magnitude(p);
    var mq, qneg := Magnitude(q);
    SignedProduct(Val(p.s), Val(q.s));
    mr := MultPlain(mp, mq);
    if pneg != qneg {
      Chsign(mr);
    }
  }
}

/** The line table over the temporary file: copying lines, sessions of storing and fetching, and
    the global loop. */
module EdEditor {
  import opened EdFile
  import opened EdLines

  // ---- storing and fetching -------------------------------------------------

  /** A use of the file: store a line, or fetch the k-th line stored, its address marked or not. */
  datatype Op = Put(text: seq<Rune>) | Get(k: nat, mark: bool)

  predicate Fits(x: seq<Rune>) {
    |x| < LBSIZE && forall k :: 0 <= k < |x| ==> !Ends(x[k])
  }

  predicate Wellformed(ops: seq<Op>, n: nat) {
    ops == [] ||
    match ops[0]
    case Put(x) => Fits(x) && Wellformed(ops[1..], n + 1)
    case Get(k, _) => k < n && Wellformed(ops[1..], n)
  }

  /** What the file is to its users: a list of lines. */
  function Answers(ops: seq<Op>, lines: seq<seq<Rune>>): seq<seq<Rune>>
    requires Wellformed(ops, |lines|)
  {
    if ops == [] then [] else
    match ops[0]
    case Put(x) => Answers(ops[1..], lines + [x])
    case Get(k, _) => [lines[k]] + Answers(ops[1..], lines)
  }

  /** The uses before the first store that would run past the end of the file, from address t on. */
  function Fitting(ops: seq<Op>, t: nat): seq<Op> {
    if ops == [] then [] else
    match ops[0]
    case Put(x) => if FitsAt(t, |x|) then [ops[0]] + Fitting(ops[1..], NextAddress(t, |x|)) else []
    case Get(_, _) => [ops[0]] + Fitting(ops[1..], t)
  }

  /** Room that is always enough: four runes more than the text for each line stored. */
  function Cost(ops: seq<Op>): nat {
    if ops == [] then 0 else
    match ops[0]
    case Put(x) => |x| + 4 + Cost(ops[1..])
    case Get(_, _) => Cost(ops[1..])
  }

  lemma {:induction false} FittingWellformed(ops: seq<Op>, n: nat, t: nat)
    requires Wellformed(ops, n)
    ensures Wellformed(Fitting(ops, t), n)
  {
    if ops != [] {
      var t' := match ops[0] case Put(x) => NextAddress(t, |x|) case Get(_, _) => t;
      FittingWellformed(ops[1..], if ops[0].Put? then n + 1 else n, t');
      var r := [ops[0]] + Fitting(ops[1..], t');
      assert r[1..] == Fitting(ops[1..], t');
    }
  }

  /** All of a session fits when the file has room for the texts it stores. */
  lemma {:induction false} RoomyFits(ops: seq<Op>, t: nat)
    requires t + Cost(ops) <= NBLK * BLK
    ensures Fitting(ops, t) == ops
  {
    if ops != [] {
      match ops[0]
      case Put(x) =>
        var t' := NextAddress(t, |x|);
        assert (|x| + 4) - (|x| + 4) % 2 <= |x| + 4;
        RoomyFits(ops[1..], t');
      case Get(_, _) =>
        RoomyFits(ops[1..], t);
    }
  }

  lemma FittingPut(ops: seq<Op>, t: nat, n: nat, x: seq<Rune>, lines: seq<seq<Rune>>)
    requires ops != [] && ops[0] == Put(x) && FitsAt(t, |x|) && Wellformed(ops, n) && |lines| == n
    ensures var rest := Fitting(ops[1..], NextAddress(t, |x|));
      && Wellformed(Fitting(ops, t), n) && Wellformed(rest, n + 1)
      && Answers(Fitting(ops, t), lines) == Answers(rest, lines + [x])
      && (Fitting(ops, t) == ops <==> rest == ops[1..])
  {
    FittingWellformed(ops, n, t);
    FittingWellformed(ops[1..], n + 1, NextAddress(t, |x|));
    assert Fitting(ops, t)[1..] == Fitting(ops[1..], NextAddress(t, |x|));
    assert ops == [ops[0]] + ops[1..];
  }

  lemma FittingGet(ops: seq<Op>, t: nat, n: nat, k: nat, lines: seq<seq<Rune>>)
    requires ops != [] && ops[0].Get? && ops[0].k == k && Wellformed(ops, n) && |lines| == n
    ensures var rest := Fitting(ops[1..], t);
      && Wellformed(Fitting(ops, t), n) && Wellformed(rest, n) && k < n
      && Answers(Fitting(ops, t), lines) == [lines[k]] + Answers(rest, lines)
      && (Fitting(ops, t) == ops <==> rest == ops[1..])
  {
    FittingWellformed(ops, n, t);
    FittingWellformed(ops[1..], n, t);
    assert Fitting(ops, t)[1..] == Fitting(ops[1..], t);
    assert ops == [ops[0]] + ops[1..];
  }

  lemma LengthIs(line: seq<Rune>, x: seq<Rune>)
    requires |x| < |line| && line[..|x|] == x && Ends(line[|x|]) && forall k :: 0 <= k < |x| ==> !Ends(x[k])
    ensures LineLength(line) == |x|
  {
    assert forall k :: 0 <= k < |x| ==> line[..|x|][k] == line[k];
  }

  /** Put a text in the line buffer, as the reader of ed's input does. */
  method Load(f: TempFile, x: seq<Rune>)
    requires f.Valid() && Fits(x)
    modifies f.linebuf
    ensures f.Valid() && Ends(f.linebuf[|x|]) && f.Line() == x
  {
    var i := 0;
    while i < |x|
      invariant i <= |x| && f.Valid()
      invariant f.linebuf[..i] == x[..i]
    {
      f.linebuf[i] := x[i];
      i := i + 1;
    }
    f.linebuf[|x|] := 0;
    assert Ends(f.linebuf[|x|]) && Ends(f.linebuf[..][|x|]);
    LengthIs(f.linebuf[..], x);
  }

  /** The text in the line buffer up to its 0. */
  method Scan(f: TempFile, ghost x: seq<Rune>) returns (y: seq<Rune>)
    requires |x| < f.linebuf.Length && f.linebuf[..|x|] == x && f.linebuf[|x|] == 0
    requires forall k :: 0 <= k < |x| ==> !Ends(x[k])
    ensures y == x
  {
    var n := 0;
    while f.linebuf[n] != 0
      invariant n <= |x|
      decreases |x| - n
    {
      assert n < |x|;
      n := n + 1;
    }
    y := f.linebuf[..n];
  }

  ghost predicate Addressed(texts: map<nat, seq<Rune>>, addrs: seq<nat>, lines: seq<seq<Rune>>) {
    && |addrs| == |lines|
    && forall k :: 0 <= k < |lines| ==> addrs[k] % 2 == 0 && addrs[k] in texts && texts[addrs[k]] == lines[k]
  }

  method StoreLine(f: TempFile, x: seq<Rune>, addrs: seq<nat>, ghost lines: seq<seq<Rune>>)
    returns (ok: bool, addrs': seq<nat>)
    requires f.Valid() && f.Appendable() && Fits(x) && Addressed(f.texts, addrs, lines)
    modifies f, f.ibuff, f.obuff, f.linebuf
    ensures ok <==> FitsAt(old(f.tline), |x|)
    ensures ok ==> f.tline == NextAddress(old(f.tline), |x|)
    ensures ok ==> f.Valid() && f.Appendable() && Addressed(f.texts, addrs', lines + [x])
  {
    Load(f, x);
    var addr;
    ok, addr := f.PutLine();
    addrs' := addrs + [addr];
  }

  method FetchLine(f: TempFile, addrs: seq<nat>, k: nat, mark: bool, ghost lines: seq<seq<Rune>>)
    returns (y: seq<Rune>)
    requires f.Valid() && f.Appendable() && Addressed(f.texts, addrs, lines) && k < |addrs|
    modifies f`disk, f`iblock, f`oblock, f`ichanged, f.ibuff, f.linebuf
    ensures f.Valid() && f.Appendable() && y == lines[k]
  {
    var atl := if mark then addrs[k] + 1 else addrs[k];
    assert Unmarked(atl) == addrs[k];
    f.GetLine(atl);
    y := Scan(f, lines[k]);
  }

  /** Any session of storing and fetching, whichever blocks are in memory, answers as a list would,
      up to the first store the file has no room for. */
  method Session(f: TempFile, ops: seq<Op>) returns (full: bool, out: seq<seq<Rune>>)
    requires f.Valid() && f.Appendable() && f.texts == map[] && Wellformed(ops, 0)
    modifies f, f.ibuff, f.obuff, f.linebuf
    ensures Wellformed(Fitting(ops, old(f.tline)), 0)
    ensures out == Answers(Fitting(ops, old(f.tline)), [])
    ensures full <==> Fitting(ops, old(f.tline)) != ops
    ensures full ==> old(f.tline) + Cost(ops) > NBLK * BLK
  {
    hide Addressed, Fitting, Answers, Cost;
    out := [];
    full := false;
    var rest := ops;
    var addrs: seq<nat> := [];
    ghost var lines: seq<seq<Rune>> := [];
    ghost var t0 := f.tline;
    FittingWellformed(ops, 0, t0);
    if t0 + Cost(ops) <= NBLK * BLK {
      RoomyFits(ops, t0);
    }
    assert Addressed(f.texts, addrs, lines) by { NothingAddressed(f.texts); }
    while rest != []
      invariant f.Valid() && f.Appendable() && |addrs| == |lines|
      invariant Addressed(f.texts, addrs, lines) && Wellformed(rest, |lines|)
      invariant Wellformed(Fitting(rest, f.tline), |lines|)
      invariant out + Answers(Fitting(rest, f.tline), lines) == Answers(Fitting(ops, t0), [])
      invariant Fitting(rest, f.tline) == rest <==> Fitting(ops, t0) == ops
      decreases |rest|
    {
      match rest[0] {
        case Put(x) =>
          ghost var t := f.tline;
          var ok;
          ok, addrs := StoreLine(f, x, addrs, lines);
          if !ok {
            NothingFits(rest, t, x, lines);
            return true, out;
          }
          FittingPut(rest, t, |lines|, x, lines);
          lines := lines + [x];
          AsMany(f.texts, addrs, lines);
        case Get(k, mark) =>
          FittingGet(rest, f.tline, |lines|, k, lines);
          var y := FetchLine(f, addrs, k, mark, lines);
          out := out + [y];
      }
      rest := rest[1..];
    }
    NothingLeft(f.tline, lines);
  }

  lemma NothingFits(ops: seq<Op>, t: nat, x: seq<Rune>, lines: seq<seq<Rune>>)
    requires ops != [] && ops[0] == Put(x) && !FitsAt(t, |x|)
    ensures Fitting(ops, t) == [] && Answers([], lines) == []
  {
  }

  lemma NothingLeft(t: nat, lines: seq<seq<Rune>>)
    ensures Fitting([], t) == [] && Answers([], lines) == []
  {
  }

  lemma NothingAddressed(texts: map<nat, seq<Rune>>)
    ensures Addressed(texts, [], [])
  {
  }

  lemma AsMany(texts: map<nat, seq<Rune>>, addrs: seq<nat>, lines: seq<seq<Rune>>)
    requires Addressed(texts, addrs, lines)
    ensures |addrs| == |lines|
  {
  }

  // ---- copying lines --------------------------------------------------------

  /** Two lines of the table have the same text in the file. */
  ghost predicate SameText(texts: map<nat, seq<Rune>>, a: int, b: int) {
    && 0 <= a && 0 <= b && Unmarked(a) in texts && Unmarked(b) in texts
    && texts[Unmarked(a)] == texts[Unmarked(b)]
  }

  /** Every line of the table has its text in the file. */
  ghost predicate Backed(texts: map<nat, seq<Rune>>, lines: seq<int>) {
    forall k :: 0 <= k < |lines| ==> 0 <= lines[k] && Unmarked(lines[k]) in texts
  }

  /** Everything stored before is still there as it was. */
  ghost predicate Extends(was: map<nat, seq<Rune>>, texts: map<nat, seq<Rune>>) {
    forall a :: a in was ==> a in texts && texts[a] == was[a]
  }

  lemma ExtendsMore(was: map<nat, seq<Rune>>, mid: map<nat, seq<Rune>>, texts: map<nat, seq<Rune>>)
    requires Extends(was, mid) && Extends(mid, texts)
    ensures Extends(was, texts)
  {
  }

  /** Fetch a line into the line buffer and store it again: a new, unmarked address of the same text. */
  method CopyLine(f: TempFile, line: nat) returns (ok: bool, tl: nat)
    requires f.Valid() && f.Appendable() && Unmarked(line) in f.texts
    modifies f, f.ibuff, f.obuff, f.linebuf
    ensures f.Valid()
    ensures ok <==> FitsAt(old(f.tline), |old(f.texts)[Unmarked(line)]|)
    ensures ok ==> f.tline == NextAddress(old(f.tline), |old(f.texts)[Unmarked(line)]|)
    ensures ok ==> f.Appendable() && tl % 2 == 0 && tl !in old(f.texts)
    ensures f.texts == if ok then old(f.texts)[tl := old(f.texts[Unmarked(line)])] else old(f.texts)
  {
    ghost var x := f.texts[Unmarked(line)];
    f.GetLine(line);
    assert Ends(f.linebuf[|x|]) && Ends(f.linebuf[..][|x|]);
    LengthIs(f.linebuf[..], x);
    ok, tl := f.PutLine();
  }

  /** Whether lines of these lengths can all be stored from address t on. */
  predicate RoomFor(lens: seq<nat>, t: nat) {
    lens == [] || (FitsAt(t, lens[0]) && RoomFor(lens[1..], NextAddress(t, lens[0])))
  }

  ghost function Lengths(texts: map<nat, seq<Rune>>, lines: seq<int>): seq<nat>
    requires Backed(texts, lines)
  {
    seq(|lines|, k requires 0 <= k < |lines| => |texts[Unmarked(lines[k])]|)
  }

  lemma LengthsAt(texts: map<nat, seq<Rune>>, lines: seq<int>, k: nat)
    requires Backed(texts, lines) && k < |lines|
    ensures |Lengths(texts, lines)| == |lines|
    ensures 0 <= lines[k] && Unmarked(lines[k]) in texts && Lengths(texts, lines)[k] == |texts[Unmarked(lines[k])]|
  {
  }

  /** Whether the lines from number k on can be. */
  predicate RoomFrom(lens: seq<nat>, k: nat, t: nat)
    requires k <= |lens|
  {
    RoomFor(lens[k..], t)
  }

  lemma RoomStart(lens: seq<nat>, t: nat)
    ensures RoomFrom(lens, 0, t) <==> RoomFor(lens, t)
  {
    assert lens[0..] == lens;
  }

  lemma RoomStep(lens: seq<nat>, k: nat, t: nat)
    requires k < |lens|
    ensures RoomFrom(lens, k, t) <==> FitsAt(t, lens[k]) && RoomFrom(lens, k + 1, NextAddress(t, lens[k]))
  {
    assert lens[k..][1..] == lens[k + 1..];
  }

  lemma RoomEnd(lens: seq<nat>, t: nat)
    ensures RoomFrom(lens, |lens|, t)
  {
  }

  /** to holds new, unmarked addresses with the texts that the lines of from had, line by line. */
  ghost predicate Copied(was: map<nat, seq<Rune>>, texts: map<nat, seq<Rune>>, from: seq<int>, to: seq<int>) {
    && |from| == |to| && Extends(was, texts)
    && (forall k :: 0 <= k < |to| ==> SameText(texts, from[k], to[k]) && !Marked(to[k]) && to[k] !in was)
    && (forall j, k :: 0 <= j < k < |to| ==> to[j] != to[k])
  }

  /** Storing a copy of one more line at a new address. */
  lemma CopiedMore(was: map<nat, seq<Rune>>, mid: map<nat, seq<Rune>>, texts: map<nat, seq<Rune>>,
                   from: seq<int>, to: seq<int>, line: nat, tl: nat)
    requires Copied(was, mid, from, to) && Unmarked(line) in mid && tl !in mid && tl % 2 == 0
    requires texts == mid[tl := mid[Unmarked(line)]]
    ensures Copied(was, texts, from + [line], to + [tl])
  {
    forall k | 0 <= k < |to| ensures SameText(texts, from[k], to[k]) && to[k] != tl {
      assert SameText(mid, from[k], to[k]);
    }
    assert SameText(texts, line, tl);
    ExtendsMore(was, mid, texts);
  }

  lemma BackedMore(was: map<nat, seq<Rune>>, texts: map<nat, seq<Rune>>, lines: seq<int>)
    requires Backed(was, lines) && Extends(was, texts)
    ensures Backed(texts, lines) && Lengths(texts, lines) == Lengths(was, lines)
  {
  }

  lemma CopiedExtends(was: map<nat, seq<Rune>>, texts: map<nat, seq<Rune>>, from: seq<int>, to: seq<int>)
    requires Copied(was, texts, from, to)
    ensures Extends(was, texts) && |from| == |to|
  {
  }

  /** Append a copy of line i; n lines have been copied already. */
  method AppendCopy(f: TempFile, tb: Table, i: nat, ghost was: map<nat, seq<Rune>>, ghost lines: seq<int>,
                    ghost first: nat, ghost to: seq<int>)
    returns (ok: bool, tl: nat)
    requires f.Valid() && f.Appendable() && tb.Valid() && tb.dot == tb.dol && tb.Lines() == lines + to
    requires 1 <= first <= i <= |lines|
    requires Backed(was, lines) && Copied(was, f.texts, lines[first - 1..i - 1], to)
    modifies f, f.ibuff, f.obuff, f.linebuf, tb, tb.zero
    ensures f.Valid() && tb.Valid() && (tb.zero == old(tb.zero) || fresh(tb.zero))
    ensures Extends(was, f.texts)
    ensures ok <==> FitsAt(old(f.tline), Lengths(was, lines)[i - 1])
    ensures ok ==> f.tline == NextAddress(old(f.tline), Lengths(was, lines)[i - 1])
    ensures !ok ==> tb.Lines() == lines + to && tb.dol == old(tb.dol)
    ensures ok ==> f.Appendable() && tb.dot == tb.dol && tb.Lines() == lines + (to + [tl])
    ensures ok ==> Copied(was, f.texts, lines[first - 1..i], to + [tl])
  {
    hide Copied, Backed, Lengths, Extends;
    hide TempFile.Valid, TempFile.Appendable;
    assert tb.zero[i] == tb.Lines()[i - 1] == lines[i - 1];
    ghost var mid := f.texts;
    CopiedExtends(was, mid, lines[first - 1..i - 1], to);
    BackedMore(was, mid, lines);
    LengthsAt(was, lines, i - 1);
    LengthsAt(mid, lines, i - 1);
    ok, tl := CopyLine(f, tb.zero[i]);
    if !ok {
      return;
    }
    CopiedMore(was, mid, f.texts, lines[first - 1..i - 1], to, lines[i - 1], tl);
    assert lines[first - 1..i] == lines[first - 1..i - 1] + [lines[i - 1]];
    CopiedExtends(was, f.texts, lines[first - 1..i], to + [tl]);
    tb.Insert(tl);
    AtTheEnd(lines, to, tl);
  }

  lemma AtTheEnd(lines: seq<int>, to: seq<int>, tl: int)
    ensures var s := lines + to; s[..|s|] + [tl] + s[|s|..] == lines + (to + [tl])
  {
  }

  /** Append copies of lines addr1 to addr2 after the last line (line 1344). */
  method AppendCopies(f: TempFile, tb: Table, addr1: nat, addr2: nat) returns (ok: bool, ghost to: seq<int>)
    requires f.Valid() && f.Appendable() && tb.Valid() && Backed(f.texts, tb.Lines())
    requires 1 <= addr1 <= addr2 <= tb.dol
    modifies f, f.ibuff, f.obuff, f.linebuf, tb, tb.zero
    ensures f.Valid() && tb.Valid() && (tb.zero == old(tb.zero) || fresh(tb.zero))
    ensures ok <==> RoomFor(old(Lengths(f.texts, tb.Lines())[addr1 - 1..addr2]), old(f.tline))
    ensures Extends(old(f.texts), f.texts) && tb.Lines() == old(tb.Lines()) + to
    ensures ok ==> f.Appendable() && Copied(old(f.texts), f.texts, old(tb.Lines()[addr1 - 1..addr2]), to)
  {
    hide Copied, Backed, Extends, RoomFor;
    hide TempFile.Valid, TempFile.Appendable;
    tb.dot := tb.dol;
    ghost var lines := tb.Lines();
    assert lines + [] == lines;
    ok, to := CopyLoop(f, tb, addr1, addr2, lines, Lengths(f.texts, lines)[addr1 - 1..addr2]);
  }

  method CopyLoop(f: TempFile, tb: Table, addr1: nat, addr2: nat, ghost lines: seq<int>, ghost lens: seq<nat>)
    returns (ok: bool, ghost to: seq<int>)
    requires f.Valid() && f.Appendable() && tb.Valid() && Backed(f.texts, lines)
    requires tb.dot == tb.dol && tb.Lines() == lines
    requires 1 <= addr1 <= addr2 <= |lines| && lens == Lengths(f.texts, lines)[addr1 - 1..addr2]
    modifies f, f.ibuff, f.obuff, f.linebuf, tb, tb.zero
    ensures f.Valid() && tb.Valid() && (tb.zero == old(tb.zero) || fresh(tb.zero))
    ensures ok <==> RoomFor(lens, old(f.tline))
    ensures Extends(old(f.texts), f.texts) && tb.Lines() == lines + to
    ensures ok ==> f.Appendable() && Copied(old(f.texts), f.texts, lines[addr1 - 1..addr2], to)
  {
    hide Copied, Backed, Lengths, Extends, RoomFor, RoomFrom, FitsAt, NextAddress;
    hide TempFile.Valid, TempFile.Appendable;
    to := [];
    ghost var was, t0 := f.texts, f.tline;
    LengthsAt(was, lines, addr1 - 1);
    RoomStart(lens, t0);
    var i := addr1;
    assert lines[addr1 - 1..i - 1] == [] && lines + to == lines;
    NothingCopied(was);
    while i <= addr2
      invariant addr1 <= i <= addr2 + 1 && f.Valid() && f.Appendable() && tb.Valid() && tb.dot == tb.dol
      invariant tb.zero == old(tb.zero) || fresh(tb.zero)
      invariant tb.Lines() == lines + to && Copied(was, f.texts, lines[addr1 - 1..i - 1], to)
      invariant RoomFor(lens, t0) <==> RoomFrom(lens, i - addr1, f.tline)
    {
      RoomStep(lens, i - addr1, f.tline);
      var tl;
      ok, tl := AppendCopy(f, tb, i, was, lines, addr1, to);
      if !ok {
        return;
      }
      to := to + [tl];
      i := i + 1;
    }
    CopiedExtends(was, f.texts, lines[addr1 - 1..i - 1], to);
    ok := true;
    RoomEnd(lens, f.tline);
  }

  lemma NothingCopied(texts: map<nat, seq<Rune>>)
    ensures Copied(texts, texts, [], [])
  {
  }

  lemma InsertedBlock(lines: seq<int>, to: seq<int>, adt: nat)
    requires adt <= |lines| && to != []
    ensures Moved(lines + to, |lines| + 1, |lines| + |to|, adt) == lines[..adt] + to + lines[adt..]
  {
    var s := lines + to;
    MovedUpParts(s, |lines| + 1, |lines| + |to|, adt);
    assert s[..adt] == lines[..adt] && s[|lines|..|s|] == to && s[adt..|lines|] == lines[adt..] && s[|s|..] == [];
  }

  /** The table after a copy still has all its texts in the file. */
  lemma BackedCopies(was: map<nat, seq<Rune>>, texts: map<nat, seq<Rune>>, lines: seq<int>,
                     from: seq<int>, to: seq<int>, adt: nat)
    requires Backed(was, lines) && Copied(was, texts, from, to) && adt <= |lines|
    ensures Backed(texts, lines[..adt] + to + lines[adt..])
  {
    var s := lines[..adt] + to + lines[adt..];
    forall k | 0 <= k < |s| ensures 0 <= s[k] && Unmarked(s[k]) in texts {
      if adt <= k < adt + |to| {
        assert SameText(texts, from[k - adt], to[k - adt]);
      } else {
        var j := if k < adt then k else k - |to|;
        assert s[k] == lines[j];
      }
    }
  }

  /** Copy lines addr1 to addr2 after line adt (lines 1340-1371); false exactly when the file has no
      room for all the copies, and then those that did fit stand at the end. */
  method CopyLines(f: TempFile, tb: Table, addr1: nat, addr2: nat, adt: nat) returns (ok: bool, ghost to: seq<int>)
    requires f.Valid() && f.Appendable() && tb.Valid() && Backed(f.texts, tb.Lines())
    requires 1 <= addr1 <= addr2 <= tb.dol && adt <= tb.dol
    modifies f, f.ibuff, f.obuff, f.linebuf, tb, tb.zero
    ensures f.Valid() && tb.Valid() && Extends(old(f.texts), f.texts)
    ensures tb.zero == old(tb.zero) || fresh(tb.zero)
    ensures ok <==> RoomFor(old(Lengths(f.texts, tb.Lines())[addr1 - 1..addr2]), old(f.tline))
    ensures ok ==> f.Appendable() && Backed(f.texts, tb.Lines())
    ensures ok ==> tb.Lines() == old(tb.Lines())[..adt] + to + old(tb.Lines())[adt..]
    ensures ok ==> Copied(old(f.texts), f.texts, old(tb.Lines())[addr1 - 1..addr2], to)
    ensures ok ==> tb.dot == adt + (addr2 + 1 - addr1)
    ensures !ok ==> tb.Lines() == old(tb.Lines()) + to
  {
    hide Copied, Backed, Moved, Lengths, RoomFor, Extends;
    ghost var lines, was := tb.Lines(), f.texts;
    var dol0 := tb.dol;
    ok, to := AppendCopies(f, tb, addr1, addr2);
    if ok {
      CopiedExtends(was, f.texts, lines[addr1 - 1..addr2], to);
      InsertedBlock(lines, to, adt);
      BackedCopies(was, f.texts, lines, lines[addr1 - 1..addr2], to, adt);
      var moved := tb.MoveBlock(dol0 + 1, tb.dol, adt);
    }
  }
}

/** ed's line table: an array of line addresses, entry 0 standing before the first line, whose
    low bits mark lines for a global command. Lines are moved and deleted in place. */
module EdLines {

  function Reversed<T>(s: seq<T>): (r: seq<T>)
    ensures |r| == |s|
    ensures forall i :: 0 <= i < |s| ==> r[i] == s[|s| - 1 - i]
  {
    seq(|s|, i requires 0 <= i < |s| => s[|s| - 1 - i])
  }

  /** The block from i up to j reversed in s. */
  function Flip<T>(s: seq<T>, i: nat, j: nat): seq<T>
    requires i <= j <= |s|
  {
    s[..i] + Reversed(s[i..j]) + s[j..]
  }

  lemma FlipAt<T>(s: seq<T>, i: nat, j: nat, x: nat)
    requires i <= j <= |s| && x < |s|
    ensures |Flip(s, i, j)| == |s|
    ensures Flip(s, i, j)[x] == if i <= x < j then s[i + j - 1 - x] else s[x]
  {
    var r := Reversed(s[i..j]);
    assert |s[..i] + r| == j;
  }

  /** The neighbouring blocks from i up to j and from j up to k exchanged. */
  function Exchanged<T>(s: seq<T>, i: nat, j: nat, k: nat): (r: seq<T>)
    requires i <= j <= k <= |s|
    ensures |r| == |s|
  {
    s[..i] + s[j..k] + s[i..j] + s[k..]
  }

  /** Where the entry at x came from. */
  function Origin(i: nat, j: nat, k: nat, x: nat): nat
    requires i <= j <= k
  {
    if x < i || k <= x then x else if x < i + (k - j) then x + (j - i) else x - (k - j)
  }

  lemma ExchangedAt<T>(s: seq<T>, i: nat, j: nat, k: nat, x: nat)
    requires i <= j <= k <= |s| && x < |s|
    ensures Origin(i, j, k, x) < |s| && Exchanged(s, i, j, k)[x] == s[Origin(i, j, k, x)]
  {
    assert |s[..i] + s[j..k]| == i + (k - j) && |s[..i] + s[j..k] + s[i..j]| == k;
  }

  /** Three reversals exchange two neighbouring blocks. */
  lemma ThreeFlips<T>(s: seq<T>, i: nat, j: nat, k: nat)
    requires i <= j <= k <= |s|
    ensures |Flip(s, i, j)| == |s| && |Flip(Flip(s, i, j), j, k)| == |s|
    ensures Flip(Flip(Flip(s, i, j), j, k), i, k) == Exchanged(s, i, j, k)
  {
    var a := Flip(s, i, j);
    var b := Flip(a, j, k);
    var c, r := Flip(b, i, k), Exchanged(s, i, j, k);
    assert |c| == |r| == |s|;
    hide Flip, Exchanged;
    forall x | 0 <= x < |s| ensures c[x] == r[x] {
      FlipAt(b, i, k, x);
      var y := if i <= x < k then i + k - 1 - x else x;
      FlipAt(a, j, k, y);
      var z := if j <= y < k then j + k - 1 - y else y;
      FlipAt(s, i, j, z);
      ExchangedAt(s, i, j, k, x);
    }
  }

  predicate Marked(line: int) {
    line % 2 != 0
  }

  function Unmark(line: int): (r: int)
    ensures !Marked(r) && r == if Marked(line) then line - 1 else line
  {
    line - line % 2
  }

  /** The lines that are not marked, in order. */
  function Sweep(s: seq<int>): seq<int> {
    if s == [] then []
    else Sweep(s[..|s| - 1]) + if Marked(s[|s| - 1]) then [] else [s[|s| - 1]]
  }

  lemma SweepSnoc(s: seq<int>, n: nat)
    requires n < |s|
    ensures Sweep(s[..n + 1]) == Sweep(s[..n]) + if Marked(s[n]) then [] else [s[n]]
  {
    assert s[..n + 1][..n] == s[..n];
  }

  lemma {:induction false} SweepConcat(a: seq<int>, b: seq<int>)
    ensures Sweep(a + b) == Sweep(a) + Sweep(b)
  {
    if b == [] {
      assert a + b == a;
    } else {
      var n := |b| - 1;
      SweepConcat(a, b[..n]);
      assert (a + b)[..|a + b| - 1] == a + b[..n];
    }
  }

  lemma {:induction false} SweepNone(s: seq<int>)
    requires forall i :: 0 <= i < |s| ==> !Marked(s[i])
    ensures Sweep(s) == s
  {
    if s != [] {
      SweepNone(s[..|s| - 1]);
      assert s == s[..|s| - 1] + [s[|s| - 1]];
    }
  }

  /** Where the lines that are not marked stand. */
  function Unmarkeds(s: seq<int>): seq<nat> {
    if s == [] then [] else Unmarkeds(s[..|s| - 1]) + if Marked(s[|s| - 1]) then [] else [|s| - 1]
  }

  ghost predicate Increasing(at: seq<nat>) {
    forall i, j :: 0 <= i < j < |at| ==> at[i] < at[j]
  }

  /** at gives the places of just the lines that are not marked, and r those lines. */
  ghost predicate Picks(s: seq<int>, at: seq<nat>, r: seq<int>) {
    && Increasing(at) && |r| == |at|
    && (forall k: nat :: k in at <==> k < |s| && !Marked(s[k]))
    && (forall i :: 0 <= i < |at| ==> at[i] < |s| && r[i] == s[at[i]])
  }

  lemma PicksSnoc(s: seq<int>, x: int, at: seq<nat>, r: seq<int>)
    requires Picks(s, at, r)
    ensures if Marked(x) then Picks(s + [x], at, r) else Picks(s + [x], at + [|s|], r + [x])
  {
    hide Marked;
    var t := s + [x];
    assert forall k :: 0 <= k < |s| ==> t[k] == s[k];
    if !Marked(x) {
      forall k: nat ensures k in at + [|s|] <==> k < |t| && !Marked(t[k]) {
        assert k in at + [|s|] <==> k in at || k == |s|;
      }
    }
  }

  /** What is swept together is just the lines that are not marked, in their order. */
  lemma {:induction false} SweepPicks(s: seq<int>)
    ensures Picks(s, Unmarkeds(s), Sweep(s))
  {
    hide Marked;
    if s == [] {
    } else {
      hide Picks;
      var n := |s| - 1;
      SweepPicks(s[..n]);
      PicksSnoc(s[..n], s[n], Unmarkeds(s[..n]), Sweep(s[..n]));
      assert s == s[..n] + [s[n]];
    }
  }

  /** Place k is the last of n that is not among those kept. */
  ghost predicate LastGone(at: seq<nat>, n: nat, k: nat) {
    k < n && k !in at && forall j: nat :: k < j < n ==> j in at
  }

  ghost predicate LastMarked(s: seq<int>, k: nat) {
    1 <= k <= |s| && Marked(s[k - 1]) && forall j :: k <= j < |s| ==> !Marked(s[j])
  }

  /** Where deleting the marked lines of s at once leaves dot, when dol lines are left: after the last
      deleted if it was not the only one, or at the end. */
  ghost predicate DotSwept(s: seq<int>, dot0: nat, dol: nat, dot: nat) {
    && (|s| == dol ==> dot == dot0)
    && (|s| == dol + 1 ==> dot == if dot0 > dol then dol else dot0)
    && (|s| > dol + 1 ==> forall k: nat :: LastMarked(s, k) ==> dot == if k < |s| then dol - (|s| - k) + 1 else dol)
  }

  /** What "m" means: take lines i to j (from 1) out, and put them back after line t of the rest. */
  function Moved(lines: seq<int>, i: nat, j: nat, t: nat): seq<int>
    requires 1 <= i <= j <= |lines| && (t < i || j < t <= |lines|)
  {
    var block := lines[i - 1..j];
    var rest := lines[..i - 1] + lines[j..];
    var at := if t < i then t else t - |block|;
    rest[..at] + block + rest[at..]
  }

  /** Clear the marks of lines i to j. */
  function UnmarkRange(lines: seq<int>, i: nat, j: nat): seq<int>
    requires 1 <= i && j <= |lines|
  {
    seq(|lines|, k requires 0 <= k < |lines| => if i <= k + 1 <= j then Unmark(lines[k]) else lines[k])
  }

  /** Taking out a marked line changes nothing of what is swept together. */
  lemma SweepWithout(s: seq<int>, n: nat)
    requires n < |s| && Marked(s[n])
    ensures Sweep(s[..n] + s[n + 1..]) == Sweep(s)
  {
    hide Sweep;
    SweepSnoc(s, n);
    SweepConcat(s[..n], s[n + 1..]);
    SweepConcat(s[..n + 1], s[n + 1..]);
    assert s == s[..n + 1] + s[n + 1..];
  }

  /** How many entries are marked. */
  function Marks(s: seq<int>): nat {
    if s == [] then 0 else Marks(s[..|s| - 1]) + if Marked(s[|s| - 1]) then 1 else 0
  }

  lemma {:induction false} MarksUpdate(s: seq<int>, i: nat, line: int)
    requires i < |s| && Marked(s[i]) && !Marked(line)
    ensures Marks(s[i := line]) == Marks(s) - 1
  {
    var n := |s| - 1;
    assert s[i := line][..n] == if i == n then s[..n] else s[..n][i := line];
    if i < n {
      MarksUpdate(s[..n], i, line);
    }
  }

  /** The first marked entry from one on; the length of the table when there is none. */
  function FirstMarked(s: seq<int>, from: nat): (k: nat)
    requires from <= |s|
    ensures from <= k <= |s|
    ensures forall i :: from <= i < k ==> !Marked(s[i])
    ensures k < |s| ==> Marked(s[k])
    decreases |s| - from
  {
    if from == |s| || Marked(s[from]) then from else FirstMarked(s, from + 1)
  }

  lemma {:induction false} FirstMarkedIs(s: seq<int>, from: nat, k: nat)
    requires from <= k < |s| && Marked(s[k]) && forall i :: from <= i < k ==> !Marked(s[i])
    ensures FirstMarked(s, from) == k
    decreases k - from
  {
    if from < k {
      FirstMarkedIs(s, from + 1, k);
    }
  }

  lemma NoneMarked(s: seq<int>, from: nat)
    requires from <= |s| && forall i :: from <= i < |s| ==> !Marked(s[i])
    ensures FirstMarked(s, from) == |s|
  {
  }

  /** The table, and everything else a command depends on and changes: the text log, the pattern
      remembered, what is left of the script. */
  datatype World<S> = World(table: seq<int>, rest: S)

  /** A command, run with dot on an entry. */
  type Command<!S> = (World<S>, nat) -> World<S>

  /** A command that keeps the entry before the first line and sets no mark. */
  ghost predicate SetsNoMark<S(!new)>(command: Command<S>) {
    forall w: World<S>, dot: nat ::
      w.table != [] ==> command(w, dot).table != [] && Marks(command(w, dot).table) <= Marks(w.table)
  }

  /** One turn of the loop: the mark of the first marked entry is cleared, and the command run on it.
      Only the first turn looks at the entry before the first line. */
  ghost predicate Turn<S>(w: World<S>, w': World<S>, first: bool, command: Command<S>) {
    w.table != [] &&
    var k := FirstMarked(w.table, if first then 0 else 1);
    k < |w.table| && w' == command(w.(table := w.table[k := Unmark(w.table[k])]), k)
  }

  /** The turns of the loop, each on what the one before it left. */
  ghost predicate Turns<S>(trace: seq<World<S>>, command: Command<S>) {
    forall i :: 0 <= i < |trace| - 1 ==> Turn(trace[i], trace[i + 1], i == 0, command)
  }

  lemma TurnsMore<S>(trace: seq<World<S>>, w: World<S>, command: Command<S>)
    requires trace != [] && Turns(trace, command)
    requires Turn(trace[|trace| - 1], w, |trace| == 1, command)
    ensures Turns(trace + [w], command)
  {
    var n := |trace| - 1;
    forall i | 0 <= i < n + 1 ensures Turn((trace + [w])[i], (trace + [w])[i + 1], i == 0, command) {
      if i < n {
        assert Turn(trace[i], trace[i + 1], i == 0, command);
      }
    }
  }

  /** The loop of the global command, for every command that sets no mark: the command is run on the
      first marked line, over and over, each time on what it left before, at most once for each mark
      there was, until no line is marked (lines 1141-1149). */
  method GlobalLoop<S(!new)>(w0: World<S>, command: Command<S>) returns (w: World<S>, ghost trace: seq<World<S>>)
    requires w0.table != [] && SetsNoMark(command)
    ensures trace != [] && trace[0] == w0 && trace[|trace| - 1] == w && Turns(trace, command)
    ensures w.table != [] && FirstMarked(w.table, if |trace| == 1 then 0 else 1) == |w.table|
    ensures |trace| - 1 + Marks(w.table) <= Marks(w0.table)
  {
    hide Turns, Marks;
    w, trace := w0, [w0];
    var a1 := 0;
    assert Turns(trace, command) by { OneWorld(w0, command); }
    while a1 < |w.table|
      invariant trace != [] && trace[0] == w0 && trace[|trace| - 1] == w && w.table != [] && Turns(trace, command)
      invariant |trace| - 1 + Marks(w.table) <= Marks(w0.table)
      invariant |trace| > 1 ==> a1 > 0
      invariant forall k :: (if |trace| == 1 then 0 else 1) <= k < a1 && k < |w.table| ==> !Marked(w.table[k])
      decreases Marks(w.table), |w.table| - a1
    {
      if Marked(w.table[a1]) {
        ghost var was := w;
        FirstMarkedIs(w.table, if |trace| == 1 then 0 else 1, a1);
        MarksUpdate(w.table, a1, Unmark(w.table[a1]));
        w := w.(table := w.table[a1 := Unmark(w.table[a1])]);
        w := command(w, a1);
        TurnsMore(trace, w, command);
        trace := trace + [w];
        a1 := 0;
      }
      a1 := a1 + 1;
    }
    NoneMarked(w.table, if |trace| == 1 then 0 else 1);
  }

  lemma OneWorld<S>(w: World<S>, command: Command<S>)
    ensures Turns([w], command)
  {
  }

  class Table {
    var zero: array<int>
    var nlall: nat
    var dol: nat
    var dot: nat
    var fchange: bool

    ghost predicate Valid()
      reads this
    {
      dol <= nlall && nlall + 5 <= zero.Length && dot <= dol
    }

    ghost function Lines(): seq<int>
      requires Valid()
      reads this, zero
    {
      zero[1..dol + 1]
    }

    /** An empty buffer (lines 75, 158, 1094). */
    constructor ()
      ensures Valid() && fresh(zero) && Lines() == [] && dot == 0
    {
      nlall, dol, dot, fchange := 128, 0, 0, false;
      zero := new int[133];
    }

    /** Reverse the entries from a1 up to a2, in place (lines 1375-1386). */
    method Reverse(a1_: nat, a2_: nat)
      requires a1_ <= a2_ <= zero.Length && 0 < a2_
      modifies zero
      ensures zero[..] == Flip(old(zero[..]), a1_, a2_)
    {
      var a1, a2 := a1_, a2_;
      ghost var s := zero[..];
      while true
        invariant a1_ <= a1 && a2 <= a2_ && a1 - a1_ == a2_ - a2 && 0 <= a2 && 2 * (a1 - a1_) <= a2_ - a1_ + 1
        invariant 0 < a2
        invariant forall k :: 0 <= k < |s| && !(a1_ <= k < a1) && !(a2 <= k < a2_) ==> zero[k] == s[k]
        invariant forall k :: a1_ <= k < a1 ==> zero[k] == s[a2_ - 1 - (k - a1_)]
        invariant forall k :: a2 <= k < a2_ ==> zero[k] == s[a2_ - 1 - (k - a1_)]
        decreases a2
      {
        a2 := a2 - 1;
        var t := zero[a2];
        if a2 <= a1 {
          break;
        }
        zero[a2] := zero[a1];
        zero[a1] := t;
        a1 := a1 + 1;
      }
      assert |Flip(s, a1_, a2_)| == |s|;
      hide Flip;
      forall x | 0 <= x < |s| ensures zero[..][x] == Flip(s, a1_, a2_)[x] {
        FlipAt(s, a1_, a2_, x);
      }
    }

    /** Exchange the neighbouring blocks i up to j and j up to k. */
    method Exchange(i: nat, j: nat, k: nat)
      requires i <= j <= k <= zero.Length && 0 < j
      modifies zero
      ensures zero[..] == Exchanged(old(zero[..]), i, j, k)
    {
      ThreeFlips(zero[..], i, j, k);
      hide Flip, Exchanged;
      Reverse(i, j);
      Reverse(j, k);
      Reverse(i, k);
    }

    /** Clear the global marks of a range of lines (lines 1350-1352). */
    method ClearMarks(addr1: nat, addr2: nat)
      requires Valid() && 1 <= addr1 && addr2 <= dol
      modifies zero
      ensures Lines() == UnmarkRange(old(Lines()), addr1, addr2)
      ensures forall k :: addr1 <= k <= addr2 ==> zero[k] == Unmark(old(zero[k]))
      ensures forall k :: 0 <= k < zero.Length && !(addr1 <= k <= addr2) ==> zero[k] == old(zero[k])
    {
      var ad1 := addr1;
      while ad1 <= addr2
        invariant addr1 <= ad1
        invariant forall k :: 0 <= k < zero.Length ==>
          zero[k] == if addr1 <= k <= addr2 && k < ad1 then Unmark(old(zero[k])) else old(zero[k])
      {
        zero[ad1] := Unmark(zero[ad1]);
        ad1 := ad1 + 1;
      }
    }

    /** Move lines addr1 to addr2 after line adt; false, with only marks cleared, when adt is one of them. */
    method Move(addr1: nat, addr2: nat, adt0: nat) returns (ok: bool)
      requires Valid() && 1 <= addr1 <= addr2 <= dol && adt0 <= dol
      modifies this`dot, this`fchange, zero
      ensures Valid() && zero[0] == old(zero[0])
      ensures ok <==> adt0 < addr1 || addr2 < adt0
      ensures var cleared := UnmarkRange(old(Lines()), addr1, addr2);
        Lines() == if ok then Moved(cleared, addr1, addr2, adt0) else cleared
      ensures ok ==> dot == if adt0 < addr1 then adt0 + (addr2 + 1 - addr1) else adt0
    {
      hide Moved, UnmarkRange;
      ClearMarks(addr1, addr2);
      ok := MoveBlock(addr1, addr2, adt0);
    }

    /** The three reversals of a move (lines 1355-1371). */
    method MoveBlock(addr1: nat, addr2: nat, adt0: nat) returns (ok: bool)
      requires Valid() && 1 <= addr1 <= addr2 <= dol && adt0 <= dol
      modifies this`dot, this`fchange, zero
      ensures Valid() && zero[0] == old(zero[0])
      ensures ok <==> adt0 < addr1 || addr2 < adt0
      ensures Lines() == if ok then Moved(old(Lines()), addr1, addr2, adt0) else old(Lines())
      ensures ok ==> dot == if adt0 < addr1 then adt0 + (addr2 + 1 - addr1) else adt0
    {
      hide Moved, Exchanged;
      ghost var s := zero[..];
      assert Lines() == s[1..dol + 1];
      var adt, ad1, ad2 := adt0, addr1, addr2 + 1;
      if adt < ad1 {
        dot := adt + (ad2 - ad1);
        MovedUp(s, dol, addr1, addr2, adt0);
        adt := adt + 1;
        if adt == ad1 {
          assert Lines() == s[1..dol + 1];
          return true;
        }
        Exchange(adt, ad1, ad2);
      } else if adt >= ad2 {
        dot := adt;
        MovedDown(s, dol, addr1, addr2, adt0);
        adt := adt + 1;
        Exchange(ad1, ad2, adt);
      } else {
        return false;
      }
      assert Lines() == zero[..][1..dol + 1];
      fchange := true;
      ok := true;
    }

    /** Make room for one more line (lines 817-830). */
    method Grow()
      requires Valid()
      modifies this`zero, this`nlall
      ensures Valid() && dol < nlall && (zero == old(zero) || fresh(zero))
      ensures zero[..dol + 1] == old(zero[..dol + 1])
    {
      if dol >= nlall {
        nlall := nlall + 512;
        var bigger := new int[nlall + 5];
        forall k | 0 <= k <= dol {
          bigger[k] := zero[k];
        }
        zero := bigger;
      }
    }

    /** Open a gap after entry at by shifting the lines after it up (lines 833-837). */
    method Shift(at: nat)
      requires Valid() && dol < nlall && at <= dol
      modifies zero
      ensures zero[..at + 1] == old(zero[..at + 1])
      ensures zero[at + 2..dol + 2] == old(zero[at + 1..dol + 1])
    {
      ghost var s := zero[..];
      var a1 := dol + 1;
      while a1 > at + 1
        invariant at + 1 <= a1 <= dol + 1
        invariant forall k :: 0 <= k < a1 ==> zero[k] == s[k]
        invariant forall k :: a1 < k <= dol + 1 ==> zero[k] == s[k - 1]
      {
        zero[a1] := zero[a1 - 1];
        a1 := a1 - 1;
      }
    }

    /** Put a line after dot, where there is room for it, and make it the current one. */
    method InsertRoomy(tl: int)
      requires Valid() && dol < nlall
      modifies this`dol, this`dot, zero
      ensures Valid() && dol == old(dol) + 1 && dot == old(dot) + 1 && zero[0] == old(zero[0])
      ensures Lines() == old(Lines())[..old(dot)] + [tl] + old(Lines())[old(dot)..]
    {
      ghost var s := zero[..dol + 1];
      Shift(dot);
      zero[dot + 1] := tl;
      dol := dol + 1;
      dot := dot + 1;
      assert zero[..dol + 1] == s[..dot] + [tl] + s[dot..];
      InsertSlices(s, dot - 1, tl);
      assert Lines() == zero[..dol + 1][1..];
    }

    /** Put a line after dot and make it the current one. */
    method Insert(tl: int)
      requires Valid()
      modifies this`zero, this`nlall, this`dol, this`dot, zero
      ensures Valid() && (zero == old(zero) || fresh(zero))
      ensures dol == old(dol) + 1 && dot == old(dot) + 1 && zero[0] == old(zero[0])
      ensures Lines() == old(Lines())[..old(dot)] + [tl] + old(Lines())[old(dot)..]
    {
      ghost var s := zero[..dol + 1];
      assert Lines() == s[1..];
      Grow();
      assert Lines() == zero[..dol + 1][1..];
      InsertRoomy(tl);
    }

    /** Shift the entries after ad2 down to ad1 (lines 946-952). */
    method CloseUp(ad1: nat, ad2: nat)
      requires Valid() && 1 <= ad1 <= ad2 <= dol
      modifies zero
      ensures forall k :: 0 <= k < ad1 ==> zero[k] == old(zero[k])
      ensures forall k :: ad1 <= k <= dol - (ad2 - ad1 + 1) ==> zero[k] == old(zero[k + (ad2 - ad1 + 1)])
    {
      ghost var s := zero[..];
      var a1, a2, a3 := ad1, ad2 + 1, dol;
      ghost var gap := a2 - a1;
      zero[a1] := zero[a2];
      a1, a2 := a1 + 1, a2 + 1;
      while a2 <= a3
        invariant a2 == a1 + gap && ad1 < a1 && a2 <= if ad2 < a3 then a3 + 1 else ad2 + 2
        invariant forall k :: ad1 <= k < a1 ==> zero[k] == s[k + gap]
        invariant forall k :: 0 <= k < |s| && !(ad1 <= k < a1) ==> zero[k] == s[k]
      {
        zero[a1] := zero[a2];
        a1, a2 := a1 + 1, a2 + 1;
      }
    }

    /** Delete lines ad1 to ad2 by shifting the rest down (lines 942-958). */
    method RDelete(ad1: nat, ad2: nat)
      requires Valid() && 1 <= ad1 <= ad2 <= dol
      modifies this`dol, this`dot, this`fchange, zero
      ensures Valid() && dol == old(dol) - (ad2 - ad1 + 1)
      ensures Lines() == old(Lines())[..ad1 - 1] + old(Lines())[ad2..]
      ensures zero[0] == old(zero[0])
      ensures dot == if ad1 <= dol then ad1 else dol
    {
      ghost var s := zero[..];
      CloseUp(ad1, ad2);
      ClosedUp(s, zero[..], ad1, ad2, dol);
      dol := dol - (ad2 + 1 - ad1);
      var a1 := ad1;
      if a1 > dol {
        a1 := dol;
      }
      dot := a1;
      fchange := true;
      assert Lines() == zero[..][1..dol + 1];
    }

    /**
     * Mark the lines "g", or "v" if wanted is false, is for and no others, over the addresses given or else
     * the whole buffer; f tells which lines match the expression. Entry 0 matches nothing; it is marked
     * only by "v" on an empty buffer.
     */
    method Mark(f: int -> bool, wanted: bool, given: bool, addr1: int, addr2: int) returns (ok: bool)
      requires Valid()
      modifies zero
      ensures Valid()
      ensures var first := if dol > 0 then 1 else 0;
        var lo, hi := if given then addr1 else first, if given then addr2 else dol;
        && (ok <==> first <= lo <= hi <= dol)
        && (ok ==> forall k :: 1 <= k <= dol ==>
              && Unmark(zero[k]) == Unmark(old(zero[k]))
              && (Marked(zero[k]) <==> lo <= k <= hi && f(Unmark(old(zero[k]))) == wanted))
      ensures ok ==> (Marked(zero[0]) <==> dol == 0 && !wanted)
      ensures !ok ==> zero[..] == old(zero[..])
    {
      var first := if dol > 0 then 1 else 0;
      var lo, hi := addr1, addr2;
      if !given {
        lo, hi := first, dol;
      }
      if lo < first || hi > dol || lo > hi {
        return false;
      }
      ok := true;
      MarkLoop(f, wanted, lo, hi);
    }

    /** The marking loop (lines 1128-1132, with match at 1448-1449). */
    method MarkLoop(f: int -> bool, wanted: bool, lo: int, hi: int)
      requires Valid()
      modifies zero
      ensures forall k :: 0 <= k <= dol ==> Unmark(zero[k]) == Unmark(old(zero[k]))
      ensures forall k :: 1 <= k <= dol ==> (Marked(zero[k]) <==> lo <= k <= hi && f(Unmark(old(zero[k]))) == wanted)
      ensures Marked(zero[0]) <==> lo <= 0 <= hi && !wanted
    {
      var a1 := 0;
      while a1 <= dol
        invariant 0 <= a1 <= dol + 1
        invariant forall k :: a1 <= k <= dol ==> zero[k] == old(zero[k])
        invariant forall k :: 0 <= k < a1 ==> Unmark(zero[k]) == Unmark(old(zero[k]))
        invariant forall k :: 1 <= k < a1 ==> (Marked(zero[k]) <==> lo <= k <= hi && f(Unmark(old(zero[k]))) == wanted)
        invariant a1 > 0 ==> (Marked(zero[0]) <==> lo <= 0 <= hi && !wanted)
      {
        zero[a1] := Unmark(zero[a1]);
        if lo <= a1 <= hi && (a1 != 0 && f(zero[a1])) == wanted {
          zero[a1] := zero[a1] + 1;
        }
        a1 := a1 + 1;
      }
    }

    /**
     * "g/re/d" or "v/re/d": just the lines it is not for stay, in order, the lines at the places at. The end
     * of the table falls before its start exactly when "v" is given on an empty buffer. Otherwise dot is left
     * on the line after the last deleted, if more than one was, or on the last line.
     */
    method DeleteHits(f: int -> bool, wanted: bool, given: bool, addr1: int, addr2: int)
      returns (ok: bool, last: int, ghost at: seq<nat>)
      requires Valid()
      modifies this`dol, this`dot, this`fchange, zero
      ensures Valid()
      ensures var first := if old(dol) > 0 then 1 else 0;
        var lo, hi := if given then addr1 else first, if given then addr2 else old(dol);
        var was := old(Lines());
        && (ok <==> first <= lo <= hi <= |was|)
        && (ok ==> forall k: nat :: k in at <==> k < |was| && !(lo <= k + 1 <= hi && f(Unmark(was[k])) == wanted))
        && (ok ==> |at| == dol && Increasing(at))
        && (ok ==> forall i :: 0 <= i < dol ==> at[i] < |was| && Lines()[i] == Unmark(was[at[i]]))
      ensures !ok || dol == old(dol) ==> dot == old(dot)
      ensures dol == old(dol) - 1 ==> dot == if old(dot) > dol then dol else old(dot)
      ensures dol < old(dol) - 1 ==> forall k: nat :: LastGone(at, old(dol), k) ==>
        dot == if k + 1 < old(dol) then dol - (old(dol) - (k + 1)) + 1 else dol
      ensures !ok ==> zero[..] == old(zero[..]) && dol == old(dol)
      ensures last == if ok && old(dol) == 0 && !wanted then -1 else dol
    {
      hide Sweep, Unmarkeds, Marked, Unmark, Increasing, LastMarked, LastGone;
      ghost var was := Lines();
      ghost var lo, hi := if given then addr1 else if dol > 0 then 1 else 0, if given then addr2 else dol;
      at := [];
      ok := Mark(f, wanted, given, addr1, addr2);
      last := dol;
      if ok {
        ghost var lines := Lines();
        assert forall k :: 0 <= k < |lines| ==> lines[k] == zero[k + 1] && was[k] == old(zero[k + 1]);
        HitsPicked(was, lines, f, wanted, lo, hi);
        LastPicked(lines);
        at := Unmarkeds(lines);
        last := GDelete();
      }
    }

    /**
     * Delete every marked line in one pass (lines 961-980). The result is where the last line is left,
     * counted from entry 0: with entry 0 marked, as in an empty buffer it may be, that is before it, which
     * dol cannot show here.
     */
    method GDelete() returns (last: int)
      requires Valid() && (Marked(zero[0]) ==> dol == 0)
      modifies this`dol, this`dot, this`fchange, zero
      ensures Valid() && zero[0] == old(zero[0])
      ensures Lines() == Sweep(old(Lines()))
      ensures DotSwept(old(Lines()), old(dot), dol, dot)
      ensures last == if Marked(zero[0]) then -1 else dol
    {
      hide Sweep, Marked, LastMarked;
      ghost var lines := Lines();
      var a3 := dol;
      var a1 := 0;
      while !Marked(zero[a1])
        invariant a1 <= a3 && forall k :: 0 <= k < a1 ==> !Marked(zero[k])
        decreases a3 - a1
      {
        if a1 >= a3 {
          SweepNone(lines);
          return dol;
        }
        a1 := a1 + 1;
      }
      if a1 == 0 {
        SweepNone(lines);
        fchange := true;
        return -1;
      }
      SweepNone(lines[..a1 - 1]);
      SweepSnoc(lines, a1 - 1);
      PrefixSlice(zero[..], dol + 1, a1);
      assert zero[1..a1] == zero[..][1..a1];
      ghost var m;
      a1, m := Squeeze(a1, a3);
      dol := a1 - 1;
      if dot > dol {
        dot := dol;
      }
      fchange := true;
      last := dol;
      LastIs(lines, m);
    }

    /** Close the gap at entry a1 with the unmarked lines after it (lines 969-975); m is the last marked line
        after it, if there is one. */
    method Squeeze(first: nat, a3: nat) returns (a1: nat, ghost m: nat)
      requires Valid() && a3 == dol && 1 <= first <= dol
      requires zero[1..first] == Sweep(Lines()[..first])
      modifies this`dot, zero
      ensures zero[0] == old(zero[0]) && 1 <= a1 <= dol && dot <= dol
      ensures zero[1..a1] == Sweep(old(Lines()))
      ensures m == 0 ==> dot == old(dot) && a1 == dol
      ensures m > 0 ==> LastMarked(old(Lines()), m) && a1 < dol && dot == a1 - (dol - m)
    {
      hide Sweep, Marked, LastMarked;
      ghost var s := zero[..];
      ghost var lines := Lines();
      a1, m := first, 0;
      var a2 := a1 + 1;
      while a2 <= a3
        invariant 1 <= a1 < a2 <= a3 + 1 && dot <= dol
        invariant zero[0] == s[0] && forall k :: a2 <= k < |s| ==> zero[k] == s[k]
        invariant zero[1..a1] == Sweep(lines[..a2 - 1])
        invariant m == 0 ==> dot == old(dot) && a2 == a1 + 1
        invariant m > 0 ==> LastMarked(lines[..a2 - 1], m) && a1 + 1 < a2 && dot == a1 - (a2 - 1 - m)
      {
        SweepSnoc(lines, a2 - 1);
        assert lines[a2 - 1] == s[a2];
        LastSnoc(lines, a2 - 1, m);
        ghost var kept := zero[1..a1];
        if Marked(zero[a2]) {
          m := a2;
          a2 := a2 + 1;
          dot := a1;
        } else {
          zero[a1] := zero[a2];
          a1 := a1 + 1;
          a2 := a2 + 1;
          assert zero[1..a1] == kept + [s[a2 - 1]];
        }
      }
      assert lines[..|lines|] == lines;
    }

    /** Clear the mark of one line and delete it. */
    method DeleteMarked(a1: nat)
      requires Valid() && 1 <= a1 <= dol && Marked(zero[a1])
      modifies this`dol, this`dot, this`fchange, zero
      ensures Valid() && dol == old(dol) - 1 && zero[0] == old(zero[0])
      ensures Sweep(Lines()) == Sweep(old(Lines()))
    {
      hide Sweep;
      ghost var lines := Lines();
      SweepWithout(lines, a1 - 1);
      zero[a1] := Unmark(zero[a1]);
      assert Lines() == lines[a1 - 1 := Unmark(lines[a1 - 1])];
      dot := a1;
      RDelete(dot, dot);
    }

    /** The loop GDelete replaces: find a marked line, clear its mark, delete it, start over (lines 1141-1149). */
    method GlobalDelete()
      requires Valid() && !Marked(zero[0])
      modifies this`dol, this`dot, this`fchange, zero
      ensures Valid() && zero[0] == old(zero[0])
      ensures Lines() == Sweep(old(Lines()))
    {
      hide Sweep;
      var a1 := 0;
      while a1 <= dol
        invariant Valid() && zero[0] == old(zero[0])
        invariant Sweep(Lines()) == Sweep(old(Lines()))
        invariant forall k :: 0 <= k < a1 && k <= dol ==> !Marked(zero[k])
        decreases dol, dol - a1
      {
        if Marked(zero[a1]) {
          DeleteMarked(a1);
          a1 := 0;
        }
        a1 := a1 + 1;
      }
      SweepNone(Lines());
    }
  }

  lemma LastIs(s: seq<int>, m: nat)
    requires m > 0 ==> LastMarked(s, m)
    ensures m > 0 ==> forall k: nat :: LastMarked(s, k) ==> k == m
  {
  }

  lemma LastSnoc(s: seq<int>, n: nat, m: nat)
    requires n < |s|
    ensures Marked(s[n]) ==> LastMarked(s[..n + 1], n + 1)
    ensures !Marked(s[n]) && LastMarked(s[..n], m) ==> LastMarked(s[..n + 1], m)
  {
  }

  lemma HitsPicked(was: seq<int>, s: seq<int>, f: int -> bool, wanted: bool, lo: int, hi: int)
    requires |s| == |was| && forall k :: 0 <= k < |s| ==> Unmark(s[k]) == Unmark(was[k])
    requires forall k :: 0 <= k < |s| ==> (Marked(s[k]) <==> lo <= k + 1 <= hi && f(Unmark(was[k])) == wanted)
    ensures var at := Unmarkeds(s);
      && |Sweep(s)| == |at| && Increasing(at)
      && (forall k: nat :: k in at <==> k < |s| && !(lo <= k + 1 <= hi && f(Unmark(was[k])) == wanted))
      && (forall i :: 0 <= i < |at| ==> at[i] < |s| && Sweep(s)[i] == Unmark(was[at[i]]))
  {
    SweepPicks(s);
    hide Sweep, Unmarkeds, Increasing;
    forall i | 0 <= i < |Unmarkeds(s)| ensures Sweep(s)[i] == Unmark(was[Unmarkeds(s)[i]]) {
      var k := Unmarkeds(s)[i];
      assert k in Unmarkeds(s);
      assert !Marked(s[k]) && Unmark(s[k]) == Unmark(was[k]);
    }
  }

  lemma LastPicked(s: seq<int>)
    ensures forall k: nat :: LastGone(Unmarkeds(s), |s|, k) <==> LastMarked(s, k + 1)
  {
    SweepPicks(s);
    hide Sweep, Unmarkeds;
  }

  lemma ClosedUp(s: seq<int>, t: seq<int>, ad1: nat, ad2: nat, dol: nat)
    requires 1 <= ad1 <= ad2 <= dol < |s| && |t| == |s|
    requires forall k :: 0 <= k < ad1 ==> t[k] == s[k]
    requires forall k :: ad1 <= k <= dol - (ad2 - ad1 + 1) ==> t[k] == s[k + (ad2 - ad1 + 1)]
    ensures t[1..dol - (ad2 - ad1 + 1) + 1] == s[1..dol + 1][..ad1 - 1] + s[1..dol + 1][ad2..]
  {
  }

  lemma InsertSlices(s: seq<int>, at: nat, tl: int)
    requires at < |s|
    ensures (s[..at + 1] + [tl] + s[at + 1..])[1..] == s[1..][..at] + [tl] + s[1..][at..]
    ensures (s[..at + 1] + [tl] + s[at + 1..])[0] == s[0]
  {
  }

  lemma PrefixSlice(s: seq<int>, n: nat, k: nat)
    requires 1 <= k <= n <= |s|
    ensures s[1..k] == s[1..n][..k - 1]
  {
  }

  lemma TakeTwo(a: seq<int>, b: seq<int>, n: nat)
    requires n <= |a| + |b|
    ensures (a + b)[..n] == if n <= |a| then a[..n] else a + b[..n - |a|]
    ensures (a + b)[n..] == if n <= |a| then a[n..] + b else b[n - |a|..]
  {
  }

  lemma MovedUpParts(lines: seq<int>, i: nat, j: nat, t: nat)
    requires 1 <= i <= j <= |lines| && t < i
    ensures Moved(lines, i, j, t) == Exchanged(lines, t, i - 1, j)
  {
    TakeTwo(lines[..i - 1], lines[j..], t);
    assert lines[..i - 1][..t] == lines[..t] && lines[..i - 1][t..] == lines[t..i - 1];
  }

  lemma MovedDownParts(lines: seq<int>, i: nat, j: nat, t: nat)
    requires 1 <= i <= j < t <= |lines|
    ensures Moved(lines, i, j, t) == Exchanged(lines, i - 1, j, t)
  {
    var at := t - (j + 1 - i);
    TakeTwo(lines[..i - 1], lines[j..], at);
    assert lines[j..][..t - j] == lines[j..t] && lines[j..][t - j..] == lines[t..];
  }

  lemma ExchangedLine(s: seq<int>, dol: nat, a: nat, b: nat, c: nat, x: nat)
    requires a <= b <= c <= dol < |s| && x < dol
    ensures Exchanged(s, a + 1, b + 1, c + 1)[x + 1] == Exchanged(s[1..dol + 1], a, b, c)[x]
  {
    var lines := s[1..dol + 1];
    ExchangedAt(s, a + 1, b + 1, c + 1, x + 1);
    ExchangedAt(lines, a, b, c, x);
    hide Exchanged;
    assert lines[Origin(a, b, c, x)] == s[Origin(a, b, c, x) + 1];
  }

  lemma NoExchange(s: seq<int>, a: nat, c: nat)
    requires a <= c <= |s|
    ensures Exchanged(s, a, a, c) == s
  {
    assert s == s[..a] + s[a..c] + s[c..];
  }

  /** Exchanging blocks of lines in the table, where entry 0 comes before the first. */
  lemma ExchangedInside(s: seq<int>, dol: nat, a: nat, b: nat, c: nat)
    requires a <= b <= c <= dol < |s|
    ensures var r := Exchanged(s, a + 1, b + 1, c + 1);
      r[1..dol + 1] == Exchanged(s[1..dol + 1], a, b, c) && r[0] == s[0] && (a == b ==> r == s)
  {
    var r, q := Exchanged(s, a + 1, b + 1, c + 1), Exchanged(s[1..dol + 1], a, b, c);
    ExchangedAt(s, a + 1, b + 1, c + 1, 0);
    NoExchange(s, a + 1, c + 1);
    hide Exchanged;
    forall x | 0 <= x < dol ensures r[1..dol + 1][x] == q[x] {
      ExchangedLine(s, dol, a, b, c, x);
    }
    assert r[1..dol + 1] == q;
  }

  lemma MovedUp(s: seq<int>, dol: nat, i: nat, j: nat, t: nat)
    requires 1 <= i <= j <= dol < |s| && t < i
    ensures var r := Exchanged(s, t + 1, i, j + 1);
      && r[1..dol + 1] == Moved(s[1..dol + 1], i, j, t) && r[0] == s[0]
      && (t + 1 == i ==> r == s)
  {
    hide Moved, Exchanged;
    MovedUpParts(s[1..dol + 1], i, j, t);
    ExchangedInside(s, dol, t, i - 1, j);
  }

  lemma MovedDown(s: seq<int>, dol: nat, i: nat, j: nat, t: nat)
    requires 1 <= i <= j < t <= dol < |s|
    ensures var r := Exchanged(s, i, j + 1, t + 1);
      && r[1..dol + 1] == Moved(s[1..dol + 1], i, j, t) && r[0] == s[0]
  {
    hide Moved, Exchanged;
    MovedDownParts(s[1..dol + 1], i, j, t);
    ExchangedInside(s, dol, i - 1, j, t);
  }

  /** Moving loses and invents no line, keeps the block and the rest in order, and puts the block
      right after the target line. */
  lemma MovedPermutes(lines: seq<int>, i: nat, j: nat, t: nat)
    requires 1 <= i <= j <= |lines| && (t < i || j < t <= |lines|)
    ensures multiset(Moved(lines, i, j, t)) == multiset(lines)
    ensures var m, at, n := Moved(lines, i, j, t), if t < i then t else t - (j + 1 - i), j + 1 - i;
      && |m| == |lines|
      && m[at..at + n] == lines[i - 1..j]
      && m[..at] + m[at + n..] == lines[..i - 1] + lines[j..]
      && (t > 0 ==> at > 0 && m[at - 1] == lines[t - 1])
  {
    hide Moved, Exchanged;
    if t < i {
      MovedUpParts(lines, i, j, t);
      ExchangedParts(lines, t, i - 1, j);
      ExchangedRest(lines, t, i - 1, j);
    } else {
      MovedDownParts(lines, i, j, t);
      ExchangedParts(lines, i - 1, j, t);
      ExchangedRest(lines, i - 1, j, t);
    }
  }

  lemma ExchangedParts(s: seq<int>, a: nat, b: nat, c: nat)
    requires a <= b <= c <= |s|
    ensures var m, k := Exchanged(s, a, b, c), a + (c - b);
      && multiset(m) == multiset(s)
      && m[..a] == s[..a] && m[a..k] == s[b..c] && m[k..c] == s[a..b] && m[c..] == s[c..]
  {
    Cut(s, a, b, c);
    hide Exchanged;
    FourBlocks(s[..a], s[b..c], s[a..b], s[c..]);
  }

  /** Each block taken out leaves what the other one leaves in the original order. */
  lemma ExchangedRest(s: seq<int>, a: nat, b: nat, c: nat)
    requires a <= b <= c <= |s|
    ensures var m, k := Exchanged(s, a, b, c), a + (c - b);
      m[..a] + m[k..] == s[..b] + s[c..] && m[..k] + m[c..] == s[..a] + s[b..]
  {
    var w, x, y, z := s[..a], s[a..b], s[b..c], s[c..];
    Cut(s, a, b, c);
    var m, k := Exchanged(s, a, b, c), a + (c - b);
    assert m[..a] == w && m[k..] == x + z && m[..k] == w + y && m[c..] == z by {
      hide Exchanged;
      FourBlocks(w, y, x, z);
      FourEnds(w, y, x, z);
    }
    hide Exchanged;
    Assoc(w, x, z);
    Assoc(w, y, z);
  }

  lemma FourEnds(w: seq<int>, x: seq<int>, y: seq<int>, z: seq<int>)
    ensures (w + x + y + z)[|w| + |x|..] == y + z
  {
  }

  lemma Cut(s: seq<int>, a: nat, b: nat, c: nat)
    requires a <= b <= c <= |s|
    ensures s[..b] == s[..a] + s[a..b] && s[b..] == s[b..c] + s[c..] && s == s[..a] + s[a..b] + s[b..c] + s[c..]
    ensures Exchanged(s, a, b, c) == s[..a] + s[b..c] + s[a..b] + s[c..]
    ensures multiset(s) == multiset(s[..a]) + multiset(s[a..b]) + multiset(s[b..c]) + multiset(s[c..])
  {
    assert s == s[..a] + s[a..b] + s[b..c] + s[c..];
  }

  lemma Assoc(x: seq<int>, y: seq<int>, z: seq<int>)
    ensures x + (y + z) == (x + y) + z
  {
  }

  lemma FourBlocks(w: seq<int>, x: seq<int>, y: seq<int>, z: seq<int>)
    ensures var m, i, j, k := w + x + y + z, |w|, |w| + |x|, |w| + |x| + |y|;
      && m[..i] == w && m[i..j] == x && m[j..k] == y && m[k..] == z
      && m[..j] == w + x && m[j..] == y + z
      && multiset(m) == multiset(w) + multiset(x) + multiset(y) + multiset(z)
  {
  }
}

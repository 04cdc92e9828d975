/** calls: print who calls whom, as an indented tree, from a call graph that may have cycles. */
module Calls {

  type Name = string

  const MAXDEPTH: nat := 300

  /** A function seen in the source text: one only called, or one defined with the calls it makes. */
  datatype Proc = External | Defined(callees: seq<Name>)

  type Graph = map<Name, Proc>

  /** Every function called has been entered in the graph. */
  predicate Closed(g: Graph) {
    forall f :: f in g && g[f].Defined? ==> forall i :: 0 <= i < |g[f].callees| ==> g[f].callees[i] in g
  }

  predicate IsDefined(g: Graph, f: Name) {
    f in g && g[f].Defined?
  }

  function Definitions(g: Graph): set<Name> {
    set f | f in g && g[f].Defined?
  }

  /** Each name on p but the first is called by the one before. */
  predicate Path(g: Graph, p: seq<Name>) {
    p != [] && forall i :: 0 <= i < |p| - 1 ==> IsDefined(g, p[i]) && p[i + 1] in g[p[i]].callees
  }

  ghost predicate Reaches(g: Graph, f: Name, u: Name) {
    exists p :: Path(g, p) && p[0] == f && p[|p| - 1] == u
  }

  predicate Distinct(s: seq<Name>) {
    forall i, j :: 0 <= i < j < |s| ==> s[i] != s[j]
  }

  /** The calls the functions of a list make between them. */
  function CallsOf(g: Graph, s: seq<Name>): nat {
    if s == [] then 0 else CallsOf(g, s[..|s| - 1]) + if IsDefined(g, s[|s| - 1]) then |g[s[|s| - 1]].callees| else 0
  }

  /** One line of the listing. */
  datatype Line = TooDeep | Recursive(name: Name) | Outside(name: Name) | Listed(name: Name) | See(name: Name, line: nat)

  lemma {:induction false} CallsOfConcat(g: Graph, a: seq<Name>, b: seq<Name>)
    ensures CallsOf(g, a + b) == CallsOf(g, a) + CallsOf(g, b)
  {
    if b == [] {
      assert a + b == a;
    } else {
      CallsOfConcat(g, a, b[..|b| - 1]);
      assert (a + b)[..|a + b| - 1] == a + b[..|b| - 1];
    }
  }

  /** A list without repetition is no longer than a set it is drawn from. */
  lemma {:induction false} Pigeonhole(s: seq<Name>, all: set<Name>)
    requires Distinct(s) && forall i :: 0 <= i < |s| ==> s[i] in all
    ensures |s| <= |all|
  {
    if s != [] {
      var n := |s| - 1;
      Pigeonhole(s[..n], all - {s[n]});
    }
  }

  lemma ReachesSelf(g: Graph, f: Name)
    ensures Reaches(g, f, f)
  {
    assert Path(g, [f]) && [f][0] == f;
  }

  lemma ReachesThrough(g: Graph, f: Name, w: Name, u: Name)
    requires IsDefined(g, f) && w in g[f].callees && Reaches(g, w, u)
    ensures Reaches(g, f, u)
  {
    var p :| Path(g, p) && p[0] == w && p[|p| - 1] == u;
    var q := [f] + p;
    assert Path(g, q) by {
      forall i | 0 <= i < |q| - 1 ensures IsDefined(g, q[i]) && q[i + 1] in g[q[i]].callees {
        if i > 0 {
          assert IsDefined(g, p[i - 1]) && p[i - 1 + 1] in g[p[i - 1]].callees;
        }
      }
    }
    assert q[0] == f && q[|q| - 1] == u;
  }

  /** The defined functions u calls are all in s. */
  ghost predicate CalleesIn(g: Graph, u: Name, s: seq<Name>) {
    IsDefined(g, u) ==> forall w :: w in g[u].callees && IsDefined(g, w) ==> w in s
  }

  /** What one call of output may do to the record of the functions expanded: add functions never
      expanded before, reachable from f, whose own defined callees are all expanded in the end. */
  ghost predicate Explored(g: Graph, f: Name, before: seq<Name>, after: seq<Name>) {
    && before <= after
    && Distinct(after)
    && (IsDefined(g, f) ==> f in after)
    && (forall i :: |before| <= i < |after| ==> IsDefined(g, after[i]) && Reaches(g, f, after[i]))
    && (forall i :: |before| <= i < |after| ==> CalleesIn(g, after[i], after))
  }

  /** The same part of the way through, with the first k calls of f done. */
  ghost predicate Exploring(g: Graph, f: Name, before: seq<Name>, after: seq<Name>, k: nat) {
    && before <= after
    && Distinct(after)
    && IsDefined(g, f) && k <= |g[f].callees| && f in after
    && (forall i :: |before| <= i < |after| ==> IsDefined(g, after[i]) && Reaches(g, f, after[i]))
    && (forall i :: |before| <= i < |after| && after[i] != f ==> CalleesIn(g, after[i], after))
    && (forall i :: 0 <= i < k && IsDefined(g, g[f].callees[i]) ==> g[f].callees[i] in after)
  }

  lemma ExploreStep(g: Graph, f: Name, before: seq<Name>, mid: seq<Name>, after: seq<Name>, k: nat)
    requires Exploring(g, f, before, mid, k) && k < |g[f].callees|
    requires Explored(g, g[f].callees[k], mid, after)
    ensures Exploring(g, f, before, after, k + 1)
  {
    var c := g[f].callees[k];
    forall i | |before| <= i < |after| ensures IsDefined(g, after[i]) && Reaches(g, f, after[i]) {
      if i < |mid| {
        assert after[i] == mid[i];
      } else {
        ReachesThrough(g, f, c, after[i]);
      }
    }
    forall i | |before| <= i < |after| && after[i] != f ensures CalleesIn(g, after[i], after) {
      if i < |mid| {
        assert after[i] == mid[i] && CalleesIn(g, mid[i], mid);
      }
    }
    forall i | 0 <= i < k + 1 && IsDefined(g, g[f].callees[i]) ensures g[f].callees[i] in after {
      if i < k {
        assert g[f].callees[i] in mid;
      }
    }
  }

  lemma ExploreEnd(g: Graph, f: Name, before: seq<Name>, after: seq<Name>)
    requires IsDefined(g, f) && Exploring(g, f, before, after, |g[f].callees|)
    ensures Explored(g, f, before, after)
  {
    forall i | |before| <= i < |after| ensures CalleesIn(g, after[i], after) {
      if after[i] == f {
        forall w | w in g[f].callees && IsDefined(g, w) ensures w in after {
          var j :| 0 <= j < |g[f].callees| && g[f].callees[j] == w;
        }
      }
    }
  }

  lemma ExploreBegin(g: Graph, f: Name, before: seq<Name>)
    requires IsDefined(g, f) && Distinct(before)
    ensures Exploring(g, f, before, if f in before then before else before + [f], 0)
  {
    ReachesSelf(g, f);
  }

  /** The functions of a stack are defined, expanded, and all different. */
  ghost predicate Stack(g: Graph, s: seq<Name>, order: seq<Name>) {
    Distinct(s) && forall i :: 0 <= i < |s| ==> IsDefined(g, s[i]) && s[i] in order
  }

  lemma StackPush(g: Graph, s: seq<Name>, order: seq<Name>, f: Name)
    requires Stack(g, s, order) && f !in s && IsDefined(g, f) && f in order
    ensures Stack(g, s + [f], order)
  {
  }

  lemma StackLater(g: Graph, s: seq<Name>, order: seq<Name>, order': seq<Name>)
    requires Stack(g, s, order) && order <= order'
    ensures Stack(g, s, order')
  {
  }

  lemma OnStack(g: Graph, s: seq<Name>, order: seq<Name>, f: Name)
    requires Stack(g, s, order) && f in s
    ensures f in order
  {
  }

  lemma DistinctStack(g: Graph, s: seq<Name>, order: seq<Name>)
    requires Stack(g, s, order)
    ensures Distinct(s)
  {
  }

  /** Line n, counted from one, is the first that lists f. */
  ghost predicate FirstListed(lines: seq<Line>, f: Name, n: nat) {
    0 < n <= |lines| && lines[n - 1] == Listed(f) && Listed(f) !in lines[..n - 1]
  }

  /** Just the functions expanded are listed, and marked with the number of the first line that does. */
  ghost predicate Marking(order: seq<Name>, lines: seq<Line>, marks: map<Name, nat>) {
    && Distinct(order)
    && (forall f :: f in marks <==> f in order)
    && (forall f :: f in marks <==> Listed(f) in lines)
    && (forall f :: f in marks ==> FirstListed(lines, f, marks[f]))
  }

  lemma MarkingMore(order: seq<Name>, lines: seq<Line>, marks: map<Name, nat>, line: Line)
    requires Marking(order, lines, marks) && (line.Listed? ==> line.name in marks)
    ensures Marking(order, lines + [line], marks)
  {
    forall f | f in marks ensures FirstListed(lines + [line], f, marks[f]) {
      assert FirstListed(lines, f, marks[f]);
      assert (lines + [line])[..marks[f] - 1] == lines[..marks[f] - 1];
    }
  }

  lemma MarkingFirst(order: seq<Name>, lines: seq<Line>, marks: map<Name, nat>, f: Name)
    requires Marking(order, lines, marks)
    ensures if f in marks then Marking(order, lines + [Listed(f)], marks)
      else f !in order && Marking(order + [f], lines + [Listed(f)], marks[f := |lines| + 1])
  {
    if f in marks {
      MarkingMore(order, lines, marks, Listed(f));
    } else {
      var lines', marks' := lines + [Listed(f)], marks[f := |lines| + 1];
      forall u | u in marks' ensures FirstListed(lines', u, marks'[u]) {
        if u == f {
          assert lines'[..|lines|] == lines;
        } else {
          assert FirstListed(lines, u, marks[u]);
          assert lines'[..marks[u] - 1] == lines[..marks[u] - 1];
        }
      }
    }
  }

  /**
   * Lines i up to j of a listing are those for f under the functions of a stack. Past the stack's end, for a
   * function on it, for one not defined, and in a terse listing for one listed before, that is one line, which
   * names f; the reference to an earlier line gives the first that lists f. Otherwise a line lists f, and under
   * it come the lines for the functions it calls.
   */
  ghost predicate Block(g: Graph, terse: bool, stack: seq<Name>, f: Name, lines: seq<Line>, i: nat, j: nat)
    decreases MAXDEPTH - |stack|, 0
  {
    && i < j <= |lines|
    && if |stack| >= MAXDEPTH then
      lines[i] == TooDeep && j == i + 1
    else if f in stack then
      lines[i] == Recursive(f) && j == i + 1
    else if !IsDefined(g, f) then
      lines[i] == Outside(f) && j == i + 1
    else if terse && Listed(f) in lines[..i] then
      && j == i + 1
      && if g[f].callees == [] then lines[i] == Listed(f)
        else lines[i].See? && lines[i].name == f && FirstListed(lines[..i], f, lines[i].line)
    else
      lines[i] == Listed(f) && Blocks(g, terse, stack + [f], g[f].callees, lines, i + 1, j)
  }

  /** Lines i up to j are those for some functions, one after another. */
  ghost predicate Blocks(g: Graph, terse: bool, stack: seq<Name>, fs: seq<Name>, lines: seq<Line>, i: nat, j: nat)
    decreases MAXDEPTH - |stack|, |fs|
  {
    if fs == [] then
      i == j <= |lines|
    else
      var n := |fs| - 1;
      exists k :: i <= k && Blocks(g, terse, stack, fs[..n], lines, i, k) && Block(g, terse, stack, fs[n], lines, k, j)
  }

  lemma NoBlocks(g: Graph, terse: bool, stack: seq<Name>, fs: seq<Name>, lines: seq<Line>)
    ensures Blocks(g, terse, stack, fs[..0], lines, |lines|, |lines|)
  {
  }

  lemma BlocksEnd(g: Graph, terse: bool, stack: seq<Name>, fs: seq<Name>, lines: seq<Line>, i: nat, j: nat)
    requires Blocks(g, terse, stack, fs, lines, i, j)
    ensures i <= j <= |lines|
  {
    if fs != [] {
      var n := |fs| - 1;
      var k: nat :| i <= k && Blocks(g, terse, stack, fs[..n], lines, i, k)
                    && Block(g, terse, stack, fs[n], lines, k, j);
    }
  }

  /** What is listed stays when more is. */
  lemma {:induction false} BlockStays(g: Graph, terse: bool, stack: seq<Name>, f: Name, lines: seq<Line>,
                                      more: seq<Line>, i: nat, j: nat)
    requires Block(g, terse, stack, f, lines, i, j) && lines <= more
    ensures Block(g, terse, stack, f, more, i, j)
    decreases MAXDEPTH - |stack|, 0
  {
    assert more[..i] == lines[..i];
    if |stack| < MAXDEPTH && f !in stack && IsDefined(g, f) && !(terse && Listed(f) in lines[..i]) {
      BlocksStay(g, terse, stack + [f], g[f].callees, lines, more, i + 1, j);
    }
  }

  lemma {:induction false} BlocksStay(g: Graph, terse: bool, stack: seq<Name>, fs: seq<Name>, lines: seq<Line>,
                                      more: seq<Line>, i: nat, j: nat)
    requires Blocks(g, terse, stack, fs, lines, i, j) && lines <= more
    ensures Blocks(g, terse, stack, fs, more, i, j)
    decreases MAXDEPTH - |stack|, |fs|
  {
    if fs != [] {
      var n := |fs| - 1;
      var k: nat :| i <= k && Blocks(g, terse, stack, fs[..n], lines, i, k)
                    && Block(g, terse, stack, fs[n], lines, k, j);
      BlocksStay(g, terse, stack, fs[..n], lines, more, i, k);
      BlockStays(g, terse, stack, fs[n], lines, more, k, j);
    }
  }

  lemma BlocksMore(g: Graph, terse: bool, stack: seq<Name>, fs: seq<Name>, n: nat, lines: seq<Line>,
                   more: seq<Line>, i: nat)
    requires n < |fs| && lines <= more
    requires Blocks(g, terse, stack, fs[..n], lines, i, |lines|)
    requires Block(g, terse, stack, fs[n], more, |lines|, |more|)
    ensures Blocks(g, terse, stack, fs[..n + 1], more, i, |more|)
  {
    BlocksEnd(g, terse, stack, fs[..n], lines, i, |lines|);
    BlocksStay(g, terse, stack, fs[..n], lines, more, i, |lines|);
    assert fs[..n + 1][..n] == fs[..n];
  }

  lemma BlocksNext(g: Graph, terse: bool, fs: seq<Name>, f: Name, lines: seq<Line>, more: seq<Line>)
    requires lines <= more && Blocks(g, terse, [], fs, lines, 0, |lines|)
    requires Block(g, terse, [], f, more, |lines|, |more|)
    ensures Blocks(g, terse, [], fs + [f], more, 0, |more|)
  {
    var all := fs + [f];
    assert all[..|fs|] == fs && all[..|all|] == all;
    BlocksMore(g, terse, [], all, |fs|, lines, more, 0);
  }

  /** What is printed for a function is determined by what was printed before it. */
  lemma {:induction false} OneBlock(g: Graph, terse: bool, stack: seq<Name>, f: Name, a: seq<Line>, b: seq<Line>,
                                    i: nat, j: nat, k: nat)
    requires Block(g, terse, stack, f, a, i, j) && Block(g, terse, stack, f, b, i, k) && a[..i] == b[..i]
    ensures j == k && a[..j] == b[..j]
    decreases MAXDEPTH - |stack|, 0
  {
    if |stack| < MAXDEPTH && f !in stack && IsDefined(g, f) && !(terse && Listed(f) in a[..i]) {
      assert a[..i + 1] == a[..i] + [a[i]] && b[..i + 1] == b[..i] + [b[i]];
      OneListing(g, terse, stack + [f], g[f].callees, a, b, i + 1, j, k);
    } else {
      if a[i].See? {
        OneFirst(a[..i], f, a[i].line, b[i].line);
      }
      assert a[..j] == a[..i] + [a[i]] && b[..k] == b[..i] + [b[i]];
    }
  }

  lemma OneFirst(lines: seq<Line>, f: Name, m: nat, n: nat)
    requires FirstListed(lines, f, m) && FirstListed(lines, f, n)
    ensures m == n
  {
    if m < n {
      NotFirst(lines, f, m, n);
    } else if n < m {
      NotFirst(lines, f, n, m);
    }
  }

  lemma NotFirst(lines: seq<Line>, f: Name, m: nat, n: nat)
    requires 0 < m < n <= |lines| && lines[m - 1] == Listed(f)
    ensures !FirstListed(lines, f, n)
  {
    assert lines[..n - 1][m - 1] == Listed(f);
  }

  /** So there is just one listing of a graph from given roots. */
  lemma {:induction false} OneListing(g: Graph, terse: bool, stack: seq<Name>, fs: seq<Name>, a: seq<Line>,
                                      b: seq<Line>, i: nat, j: nat, k: nat)
    requires i <= |a| && i <= |b| && a[..i] == b[..i]
    requires Blocks(g, terse, stack, fs, a, i, j) && Blocks(g, terse, stack, fs, b, i, k)
    ensures j <= |a| && j <= |b| && j == k && a[..j] == b[..j]
    decreases MAXDEPTH - |stack|, |fs|
  {
    if fs != [] {
      var n := |fs| - 1;
      var j': nat :| i <= j' && Blocks(g, terse, stack, fs[..n], a, i, j') && Block(g, terse, stack, fs[n], a, j', j);
      var k': nat :| i <= k' && Blocks(g, terse, stack, fs[..n], b, i, k') && Block(g, terse, stack, fs[n], b, k', k);
      OneListing(g, terse, stack, fs[..n], a, b, i, j', k');
      OneBlock(g, terse, stack, fs[n], a, b, j', j, k);
    }
  }

  lemma ShortBlock(g: Graph, terse: bool, stack: seq<Name>, f: Name, lines: seq<Line>, line: Line)
    requires if |stack| >= MAXDEPTH then line == TooDeep
      else if f in stack then line == Recursive(f)
      else if !IsDefined(g, f) then line == Outside(f)
      else && terse && Listed(f) in lines
           && if g[f].callees == [] then line == Listed(f)
              else line.See? && line.name == f && FirstListed(lines, f, line.line)
    ensures Block(g, terse, stack, f, lines + [line], |lines|, |lines| + 1)
  {
    assert (lines + [line])[..|lines|] == lines;
  }

  lemma LongBlock(g: Graph, terse: bool, stack: seq<Name>, f: Name, lines: seq<Line>, i: nat)
    requires |stack| < MAXDEPTH && f !in stack && IsDefined(g, f)
    requires i < |lines| && lines[i] == Listed(f) && !(terse && Listed(f) in lines[..i])
    requires Blocks(g, terse, stack + [f], g[f].callees, lines, i + 1, |lines|)
    ensures Block(g, terse, stack, f, lines, i, |lines|)
  {
  }

  /** What line number j + 1 of a terse listing may be, when marks gives the line each function was
      listed on first: that line itself, or a leaf named again, or a later reference to it. */
  ghost predicate Mention(g: Graph, marks: map<Name, nat>, line: Line, j: nat) {
    match line
    case TooDeep => true
    case Outside(f) => f in g && g[f].External?
    case Recursive(f) => f in marks && marks[f] <= j
    case See(f, n) => f in marks && n == marks[f] <= j
    case Listed(f) =>
      IsDefined(g, f) && f in marks && (marks[f] == j + 1 || (marks[f] <= j && g[f].callees == []))
  }

  ghost predicate Mentions(g: Graph, marks: map<Name, nat>, lines: seq<Line>) {
    forall j :: 0 <= j < |lines| ==> Mention(g, marks, lines[j], j)
  }

  lemma MentionsMore(g: Graph, marks: map<Name, nat>, lines: seq<Line>, line: Line)
    requires Mentions(g, marks, lines) && Mention(g, marks, line, |lines|)
    ensures Mentions(g, marks, lines + [line])
  {
    forall j | 0 <= j < |lines| + 1 ensures Mention(g, marks, (lines + [line])[j], j) {
      if j < |lines| {
        assert Mention(g, marks, lines[j], j);
      }
    }
  }

  lemma MentionsFirst(g: Graph, marks: map<Name, nat>, lines: seq<Line>, f: Name)
    requires Mentions(g, marks, lines) && f !in marks && IsDefined(g, f)
    ensures Mentions(g, marks[f := |lines| + 1], lines + [Listed(f)])
  {
    forall j | 0 <= j < |lines| + 1 ensures Mention(g, marks[f := |lines| + 1], (lines + [Listed(f)])[j], j) {
      if j < |lines| {
        assert Mention(g, marks, lines[j], j);
      }
    }
  }

  /** A function that makes calls is listed on one line only. */
  ghost predicate ListedOnce(g: Graph, marks: map<Name, nat>, lines: seq<Line>, f: Name)
    requires IsDefined(g, f)
  {
    && f in marks && 0 < marks[f] <= |lines| && lines[marks[f] - 1] == Listed(f)
    && (g[f].callees != [] ==> forall j :: 0 <= j < |lines| && lines[j] == Listed(f) ==> j == marks[f] - 1)
  }

  lemma MentionedOnce(g: Graph, marks: map<Name, nat>, lines: seq<Line>, f: Name)
    requires Mentions(g, marks, lines) && IsDefined(g, f)
    requires f in marks && 0 < marks[f] <= |lines| && lines[marks[f] - 1] == Listed(f)
    ensures ListedOnce(g, marks, lines, f)
  {
    forall j | 0 <= j < |lines| && lines[j] == Listed(f) && g[f].callees != [] ensures j == marks[f] - 1 {
      assert Mention(g, marks, lines[j], j);
    }
  }

  /** q goes on from s by calls, one name deeper than the stack holds, with no function on it twice. */
  ghost predicate DeepPath(g: Graph, s: seq<Name>, q: seq<Name>) {
    s <= q && |q| == MAXDEPTH + 1 && Path(g, q) && Distinct(q[..MAXDEPTH])
  }

  ghost predicate DeepFrom(g: Graph, s: seq<Name>) {
    exists q :: DeepPath(g, s, q)
  }

  /** A full stack of different functions, and one more call. */
  lemma DeepNow(g: Graph, s: seq<Name>, f: Name)
    requires |s| == MAXDEPTH && Distinct(s) && Path(g, s + [f])
    ensures DeepFrom(g, s + [f])
  {
    assert (s + [f])[..MAXDEPTH] == s;
    assert DeepPath(g, s + [f], s + [f]);
  }

  lemma DeepGoesOn(g: Graph, s: seq<Name>, f: Name, q: seq<Name>)
    requires |s| < MAXDEPTH && DeepPath(g, s + [f], q)
    ensures IsDefined(g, f) && f !in s
  {
    var n := |s|;
    assert q[n] == (s + [f])[n];
    forall i | 0 <= i < n ensures s[i] != f {
      assert q[..MAXDEPTH][i] == (s + [f])[i] && q[..MAXDEPTH][n] == f;
    }
  }

  /** A function on the stack already, or one that is not defined, leads no deeper. */
  lemma DeepStops(g: Graph, s: seq<Name>, f: Name)
    requires |s| < MAXDEPTH && (f in s || !IsDefined(g, f))
    ensures !DeepFrom(g, s + [f])
  {
    if q :| DeepPath(g, s + [f], q) {
      DeepGoesOn(g, s, f, q);
      assert false;
    }
  }

  /** Deeper through one of the calls is deeper. */
  lemma DeepUp(g: Graph, s: seq<Name>, f: Name)
    requires DeepFrom(g, s + [f])
    ensures DeepFrom(g, s)
  {
    var q :| DeepPath(g, s + [f], q);
    assert DeepPath(g, s, q);
  }

  /** What leads deeper leads there through one of the calls. */
  lemma DeepDown(g: Graph, s: seq<Name>, f: Name) returns (k: nat)
    requires |s| < MAXDEPTH && IsDefined(g, f) && DeepFrom(g, s + [f])
    ensures k < |g[f].callees| && DeepFrom(g, s + [f] + [g[f].callees[k]])
  {
    var q :| DeepPath(g, s + [f], q);
    var n := |s|;
    assert q[n] == (s + [f])[n] == f;
    assert q[n + 1] in g[q[n]].callees;
    k :| 0 <= k < |g[f].callees| && g[f].callees[k] == q[n + 1];
    assert s + [f] + [g[f].callees[k]] == q[..n + 2];
    assert DeepPath(g, s + [f] + [g[f].callees[k]], q);
  }

  lemma PathOn(g: Graph, s: seq<Name>, f: Name, k: nat)
    requires Path(g, s + [f]) && IsDefined(g, f) && k < |g[f].callees|
    ensures Path(g, s + [f] + [g[f].callees[k]])
  {
    var t, c := s + [f], g[f].callees[k];
    forall i | 0 <= i < |t| ensures IsDefined(g, (t + [c])[i]) && (t + [c])[i + 1] in g[(t + [c])[i]].callees {
      if i < |t| - 1 {
        assert IsDefined(g, t[i]) && t[i + 1] in g[t[i]].callees;
      }
    }
  }

  /** With fewer definitions than the stack holds nothing is too deep. */
  lemma FewIsShallow(g: Graph, s: seq<Name>)
    requires |Definitions(g)| < MAXDEPTH
    ensures !DeepFrom(g, s)
  {
    if q :| DeepPath(g, s, q) {
      forall i | 0 <= i < MAXDEPTH ensures q[..MAXDEPTH][i] in Definitions(g) {
        assert IsDefined(g, q[i]) && q[i + 1] in g[q[i]].callees;
      }
      Pigeonhole(q[..MAXDEPTH], Definitions(g));
    }
  }

  class Printer {
    const graph: Graph
    const terse: bool
    const activelist: array<Name>
    var activep: nat
    var linect: nat
    var rnameout: map<Name, nat>
    var lines: seq<Line>
    ghost var order: seq<Name>

    ghost predicate StackOk()
      reads this`activep, this`order, activelist
    {
      && activelist.Length == MAXDEPTH && activep <= MAXDEPTH
      && Stack(graph, activelist[..activep], order)
    }

    /** A function's mark is the number of the line that lists it first. */
    ghost predicate MarksOk()
      reads this`linect, this`lines, this`rnameout, this`order
    {
      && linect == |lines|
      && Marking(order, lines, rnameout)
      && (terse ==> Mentions(graph, rnameout, lines))
    }

    ghost predicate Valid()
      reads this, activelist
    {
      Closed(graph) && StackOk() && MarksOk()
    }

    constructor (g: Graph, terse: bool)
      requires Closed(g)
      ensures Valid() && graph == g && this.terse == terse && order == [] && lines == [] && activep == 0
      ensures fresh(activelist)
    {
      graph, this.terse := g, terse;
      activelist := new Name[MAXDEPTH](_ => "");
      activep, linect, rnameout, lines, order := 0, 0, map[], [], [];
    }

    /** Push a function, unless the stack is full (lines 365-374). */
    method MakeActive(func: Name) returns (ok: bool)
      requires activelist.Length == MAXDEPTH && activep <= MAXDEPTH
      modifies this`activep, activelist
      ensures ok <==> old(activep) < MAXDEPTH
      ensures activep == old(activep) + if ok then 1 else 0
      ensures activelist[..activep] == old(activelist[..activep]) + if ok then [func] else []
    {
      if activep < MAXDEPTH {
        activelist[activep] := func;
        activep := activep + 1;
        return true;
      }
      return false;
    }

    /** Pop the stack (lines 353-357). */
    method Backup()
      requires activep <= activelist.Length
      modifies this`activep, activelist
      ensures activep == if old(activep) > 0 then old(activep) - 1 else 0
      ensures activelist[..activep] == old(activelist[..if activep > 0 then activep - 1 else 0])
    {
      if activep > 0 {
        activep := activep - 1;
        activelist[activep] := "";
      }
    }

    /** Whether a function is on the stack below its top (lines 381-389). */
    method Active(func: Name) returns (r: bool)
      requires 0 < activep <= activelist.Length
      ensures r <==> func in activelist[..activep - 1]
    {
      var i := 0;
      while i < activep - 1
        invariant i <= activep - 1
        invariant func !in activelist[..i]
      {
        if func == activelist[i] {
          return true;
        }
        i := i + 1;
      }
      r := false;
    }

    method Put(line: Line)
      modifies this`linect, this`lines
      ensures linect == old(linect) + 1 && lines == old(lines) + [line]
    {
      linect := linect + 1;
      lines := lines + [line];
    }

    method Print(line: Line)
      requires MarksOk()
      requires terse ==> Mention(graph, rnameout, line, |lines|)
      requires line.Listed? ==> line.name in rnameout
      modifies this`linect, this`lines
      ensures MarksOk() && lines == old(lines) + [line]
    {
      hide Mentions, Mention, Marking;
      MarkingMore(order, lines, rnameout, line);
      if terse {
        MentionsMore(graph, rnameout, lines, line);
      }
      Put(line);
    }

    /** Whether what was printed since says that the nesting is too deep: only if some path of calls from
        the stack s is, and in full mode exactly then. */
    twostate predicate DepthTold(s: seq<Name>)
      reads this
    {
      && (TooDeep in lines ==> TooDeep in old(lines) || DeepFrom(graph, s))
      && (TooDeep in old(lines) || (!terse && DeepFrom(graph, s)) ==> TooDeep in lines)
    }

    /** Print a function, and under it, the first time, what it calls (lines 402-454). */
    method Output(func: Name)
      requires Valid() && func in graph && Path(graph, activelist[..activep] + [func])
      modifies this, activelist
      ensures Valid() && activep == old(activep) && activelist[..activep] == old(activelist[..activep])
      ensures old(lines) < lines
      ensures Block(graph, terse, activelist[..activep], func, lines, |old(lines)|, |lines|)
      ensures lines[|old(lines)|] ==
        if activep == MAXDEPTH then TooDeep
        else if func in activelist[..activep] then Recursive(func)
        else if graph[func].External? then Outside(func)
        else if terse && func in old(rnameout) && graph[func].callees != [] then See(func, old(rnameout)[func])
        else Listed(func)
      ensures DepthTold(activelist[..activep] + [func])
      ensures TooDeep !in lines ==> Explored(graph, func, old(order), order)
      ensures old(order) <= order
      ensures TooDeep !in lines && terse ==> |lines| == |old(lines)| + 1 + CallsOf(graph, order[|old(order)|..])
      decreases MAXDEPTH - activep, 0
    {
      hide Explored, MarksOk, Stack, Closed, DeepFrom, Path, Block;
      ghost var stack := activelist[..activep];
      var ok := MakeActive(func);
      if !ok {
        assert activelist[..activep] == stack;
        DeepNow(graph, stack, func) by { DistinctStack(graph, stack, order); }
        ShortBlock(graph, terse, stack, func, lines, TooDeep);
        Print(TooDeep);
        return;
      }
      assert activelist[..activep - 1] == stack && activelist[activep - 1] == func by { TopOf(stack, func); }
      var again := Active(func);
      if again {
        OnStack(graph, stack, order, func);
        NothingNew(graph, func, order) by { DistinctOrder(); }
        NoCalls(graph, order);
        MarkedBefore(func);
        DeepStops(graph, stack, func);
        ShortBlock(graph, terse, stack, func, lines, Recursive(func));
        Print(Recursive(func));
      } else if graph[func].External? {
        NothingNew(graph, func, order) by { DistinctOrder(); }
        NoCalls(graph, order);
        DeepStops(graph, stack, func);
        ShortBlock(graph, terse, stack, func, lines, Outside(func));
        Print(Outside(func));
      } else {
        ListProc(func, stack);
      }
      Backup();
      assert activelist[..activep] == stack;
      StackLater(graph, stack, old(order), order);
    }

    /** The functions expanded are listed once each, as far as they call anything. */
    lemma AllListedOnce()
      requires MarksOk() && terse
      ensures Mentions(graph, rnameout, lines)
      ensures forall u :: u in order ==> IsDefined(graph, u) && ListedOnce(graph, rnameout, lines, u)
    {
      forall u | u in order ensures IsDefined(graph, u) && ListedOnce(graph, rnameout, lines, u) {
        assert u in rnameout;
        assert Mention(graph, rnameout, lines[rnameout[u] - 1], rnameout[u] - 1);
        MentionedOnce(graph, rnameout, lines, u);
      }
    }

    lemma MarkedIff(func: Name)
      requires MarksOk()
      ensures func in rnameout <==> func in order
    {
    }

    lemma MarkedBefore(func: Name)
      requires MarksOk() && func in order
      ensures func in rnameout && 0 < rnameout[func] <= |lines|
    {
    }

    lemma MarkedFirst(func: Name)
      requires MarksOk() && func in rnameout
      ensures Listed(func) in lines && FirstListed(lines, func, rnameout[func])
    {
    }

    lemma NotListed(func: Name)
      requires MarksOk() && func !in rnameout
      ensures Listed(func) !in lines
    {
    }

    lemma DistinctOrder()
      requires MarksOk()
      ensures Distinct(order)
    {
    }

    /** List a defined function now on top of the stack (lines 432-451). */
    method ListProc(func: Name, ghost stack: seq<Name>)
      requires Closed(graph) && MarksOk() && IsDefined(graph, func)
      requires activelist.Length == MAXDEPTH && activep <= MAXDEPTH && activelist[..activep] == stack + [func]
      requires Stack(graph, stack, order) && func !in stack && Path(graph, stack + [func])
      modifies this, activelist
      ensures MarksOk() && old(order) <= order
      ensures activep == old(activep) && activelist[..activep] == old(activelist[..activep])
      ensures old(lines) < lines
      ensures Block(graph, terse, stack, func, lines, |old(lines)|, |lines|)
      ensures lines[|old(lines)|] ==
        if terse && func in old(rnameout) && graph[func].callees != [] then See(func, old(rnameout)[func]) else Listed(func)
      ensures DepthTold(stack + [func])
      ensures TooDeep !in lines ==> Explored(graph, func, old(order), order)
      ensures TooDeep !in lines && terse ==> |lines| == |old(lines)| + 1 + CallsOf(graph, order[|old(order)|..])
      decreases MAXDEPTH - activep, 3
    {
      hide Explored, Stack, Closed, CallsOf, MarksOk, DeepFrom, Path, Block;
      if !terse || func !in rnameout {
        Expand(func, stack);
      } else {
        NoCalls(graph, order);
        ghost var before := lines;
        MarkedFirst(func);
        Refer(func);
        ShortBlock(graph, terse, stack, func, before, lines[|before|]);
      }
    }

    /** Refer to the line a function was listed on, or list it again if it calls nothing (lines 432 and 450-451). */
    method Refer(func: Name)
      requires MarksOk() && IsDefined(graph, func) && func in rnameout
      modifies this`linect, this`lines
      ensures MarksOk()
      ensures lines == old(lines) + [if graph[func].callees != [] then See(func, rnameout[func]) else Listed(func)]
      ensures Explored(graph, func, order, order)
    {
      hide Explored, MarksOk;
      MarkedBefore(func) by { MarkedIff(func); }
      NothingNew(graph, func, order) by { DistinctOrder(); MarkedIff(func); }
      if graph[func].callees != [] {
        Print(See(func, rnameout[func]));
      } else {
        Print(Listed(func));
      }
    }

    /** List a function, mark it with the number of its line, and go through its calls (lines 432-449). */
    method Expand(func: Name, ghost stack: seq<Name>)
      requires Closed(graph) && MarksOk() && IsDefined(graph, func)
      requires activelist.Length == MAXDEPTH && activep <= MAXDEPTH && activelist[..activep] == stack + [func]
      requires Stack(graph, stack, order) && func !in stack && Path(graph, stack + [func])
      requires terse ==> func !in rnameout
      modifies this, activelist
      ensures MarksOk() && old(order) <= order
      ensures activep == old(activep) && activelist[..activep] == old(activelist[..activep])
      ensures old(lines) < lines
      ensures Block(graph, terse, stack, func, lines, |old(lines)|, |lines|) && lines[|old(lines)|] == Listed(func)
      ensures DepthTold(stack + [func])
      ensures TooDeep !in lines ==> Explored(graph, func, old(order), order)
      ensures TooDeep !in lines && terse ==> |lines| == |old(lines)| + 1 + CallsOf(graph, order[|old(order)|..])
      decreases MAXDEPTH - activep, 2
    {
      hide Explored, Exploring, Stack, Closed, CallsOf, MarksOk, DeepFrom, Path, Block, Blocks;
      ghost var before, above := order, lines;
      if terse {
        NotListed(func);
      }
      Mark(func, stack);
      ListCallees(func, before, stack);
      assert lines[..|above|] == above;
      LongBlock(graph, terse, stack, func, lines, |above|);
      if terse && TooDeep !in lines {
        assert order[|before|..] == [func] + order[|before| + 1..];
        CallsOfFirst(graph, func, order[|before| + 1..]);
      }
    }

    /** List a function and mark it, the first time, with the number of its line. */
    method Mark(func: Name, ghost stack: seq<Name>)
      requires MarksOk() && IsDefined(graph, func) && Stack(graph, stack, order) && func !in stack
      requires terse ==> func !in rnameout
      modifies this`linect, this`lines, this`rnameout, this`order
      ensures MarksOk() && lines == old(lines) + [Listed(func)]
      ensures order == if func in old(rnameout) then old(order) else old(order) + [func]
      ensures Stack(graph, stack + [func], order) && Exploring(graph, func, old(order), order, 0)
    {
      hide Exploring, Stack, Mentions, Mention, Marking;
      ghost var before := order;
      ExploreBegin(graph, func, order) by { DistinctOrder(); }
      MarkedIff(func);
      MarkingFirst(order, lines, rnameout, func);
      if terse {
        MentionsFirst(graph, rnameout, lines, func);
      }
      Put(Listed(func));
      if func !in rnameout {
        rnameout := rnameout[func := linect];
        order := order + [func];
      }
      StackLater(graph, stack, before, order);
      StackPush(graph, stack, order, func);
    }

    /** List what a function calls (lines 443-444). */
    method ListCallees(func: Name, ghost before: seq<Name>, ghost stack: seq<Name>)
      requires Valid() && IsDefined(graph, func)
      requires Exploring(graph, func, before, order, 0)
      requires activelist[..activep] == stack + [func] && Path(graph, stack + [func])
      modifies this, activelist
      ensures Valid() && activep == old(activep) && activelist[..activep] == old(activelist[..activep])
      ensures old(lines) <= lines && old(order) <= order
      ensures Blocks(graph, terse, stack + [func], graph[func].callees, lines, |old(lines)|, |lines|)
      ensures DepthTold(stack + [func])
      ensures TooDeep !in lines ==> Explored(graph, func, before, order)
      ensures TooDeep !in lines && terse ==>
        |lines| == |old(lines)| + |graph[func].callees| + CallsOf(graph, order[|old(order)|..])
      decreases MAXDEPTH - activep, 1
    {
      hide Explored, Exploring, Closed, Stack, MarksOk, CallsOf, DeepFrom, Path, Block, Blocks;
      var k := 0;
      NoCalls(graph, order);
      NoBlocks(graph, terse, stack + [func], graph[func].callees, lines);
      while k < |graph[func].callees|
        invariant k <= |graph[func].callees|
        invariant Valid() && activep == old(activep) && activelist[..activep] == old(activelist[..activep])
        invariant old(lines) <= lines && old(order) <= order
        invariant Blocks(graph, terse, stack + [func], graph[func].callees[..k], lines, |old(lines)|, |lines|)
        invariant TooDeep in old(lines) ==> TooDeep in lines
        invariant TooDeep in lines ==> TooDeep in old(lines) || DeepFrom(graph, stack + [func])
        invariant !terse ==> forall j :: 0 <= j < k && DeepFrom(graph, stack + [func] + [graph[func].callees[j]]) ==>
          TooDeep in lines
        invariant TooDeep !in lines ==> Exploring(graph, func, before, order, k)
        invariant TooDeep !in lines && terse ==> |lines| == |old(lines)| + k + CallsOf(graph, order[|old(order)|..])
      {
        ghost var mid, above := order, lines;
        CalleeKnown(graph, func, k);
        PathOn(graph, stack, func, k);
        Output(graph[func].callees[k]);
        BlocksMore(graph, terse, stack + [func], graph[func].callees, k, above, lines, |old(lines)|);
        if DeepFrom(graph, stack + [func] + [graph[func].callees[k]]) {
          DeepUp(graph, stack + [func], graph[func].callees[k]);
        }
        if TooDeep !in lines {
          ExploreStep(graph, func, before, mid, order, k);
          assert order[|old(order)|..] == mid[|old(order)|..] + order[|mid|..];
          CallsOfConcat(graph, mid[|old(order)|..], order[|mid|..]);
        }
        k := k + 1;
      }
      assert graph[func].callees[..k] == graph[func].callees;
      if DeepFrom(graph, stack + [func]) {
        ghost var j := DeepDown(graph, stack, func);
      }
      if TooDeep !in lines {
        ExploreEnd(graph, func, before, order);
      }
    }
  }

  lemma TopOf(stack: seq<Name>, f: Name)
    ensures (stack + [f])[..|stack|] == stack && (stack + [f])[|stack|] == f
  {
  }

  lemma CalleeKnown(g: Graph, f: Name, k: nat)
    requires Closed(g) && IsDefined(g, f) && k < |g[f].callees|
    ensures g[f].callees[k] in g
  {
  }

  lemma NoCalls(g: Graph, s: seq<Name>)
    ensures CallsOf(g, s[|s|..]) == 0
  {
  }

  lemma CallsOfFirst(g: Graph, f: Name, s: seq<Name>)
    requires IsDefined(g, f)
    ensures CallsOf(g, [f] + s) == |g[f].callees| + CallsOf(g, s)
  {
    CallsOfConcat(g, [f], s);
    assert [f][..0] == [];
  }

  lemma NothingNew(g: Graph, f: Name, order: seq<Name>)
    requires Distinct(order) && (IsDefined(g, f) ==> f in order)
    ensures Explored(g, f, order, order)
  {
  }

  // ---- from a fresh start ---------------------------------------------------------

  lemma {:induction false} PathStays(g: Graph, p: seq<Name>, done: seq<Name>)
    requires forall i :: 0 <= i < |done| ==> CalleesIn(g, done[i], done)
    requires Path(g, p) && (IsDefined(g, p[0]) ==> p[0] in done) && IsDefined(g, p[|p| - 1])
    ensures p[|p| - 1] in done
    decreases |p|
  {
    var n := |p| - 1;
    if n > 0 {
      assert IsDefined(g, p[n - 1]) && p[n - 1 + 1] in g[p[n - 1]].callees;
      forall i | 0 <= i < n - 1 ensures IsDefined(g, p[..n][i]) && p[..n][i + 1] in g[p[..n][i]].callees {
        assert IsDefined(g, p[i]) && p[i + 1] in g[p[i]].callees;
      }
      PathStays(g, p[..n], done);
      var i :| 0 <= i < |done| && done[i] == p[n - 1];
      assert CalleesIn(g, done[i], done);
    }
  }

  /** From a fresh start the functions expanded are exactly the defined ones that can be reached. */
  lemma ExploredIsReachable(g: Graph, f: Name, done: seq<Name>)
    requires Explored(g, f, [], done)
    ensures forall u :: u in done <==> IsDefined(g, u) && Reaches(g, f, u)
  {
    forall u | IsDefined(g, u) && Reaches(g, f, u) ensures u in done {
      var p :| Path(g, p) && p[0] == f && p[|p| - 1] == u;
      PathStays(g, p, done);
    }
  }

  ghost predicate ReachesAny(g: Graph, roots: seq<Name>, u: Name) {
    exists i :: 0 <= i < |roots| && Reaches(g, roots[i], u)
  }

  /** What listing some roots one after another has expanded. */
  ghost predicate Gathered(g: Graph, roots: seq<Name>, done: seq<Name>) {
    && Distinct(done)
    && (forall i :: 0 <= i < |done| ==> IsDefined(g, done[i]) && ReachesAny(g, roots, done[i]))
    && (forall i :: 0 <= i < |done| ==> CalleesIn(g, done[i], done))
    && (forall i :: 0 <= i < |roots| ==> IsDefined(g, roots[i]) ==> roots[i] in done)
  }

  lemma ReachesMore(g: Graph, roots: seq<Name>, root: Name, u: Name)
    requires ReachesAny(g, roots, u) || Reaches(g, root, u)
    ensures ReachesAny(g, roots + [root], u)
  {
    if ReachesAny(g, roots, u) {
      var i :| 0 <= i < |roots| && Reaches(g, roots[i], u);
      assert (roots + [root])[i] == roots[i];
    } else {
      assert (roots + [root])[|roots|] == root;
    }
  }

  lemma GatherMore(g: Graph, roots: seq<Name>, root: Name, before: seq<Name>, after: seq<Name>)
    requires Gathered(g, roots, before) && Explored(g, root, before, after)
    ensures Gathered(g, roots + [root], after)
  {
    forall i | 0 <= i < |after|
      ensures IsDefined(g, after[i]) && ReachesAny(g, roots + [root], after[i]) && CalleesIn(g, after[i], after)
    {
      if i < |before| {
        assert after[i] == before[i] && CalleesIn(g, before[i], before);
      }
      ReachesMore(g, roots, root, after[i]);
    }
  }

  lemma GatherUnknown(g: Graph, roots: seq<Name>, root: Name, done: seq<Name>)
    requires Gathered(g, roots, done) && root !in g
    ensures Gathered(g, roots + [root], done)
  {
    forall i | 0 <= i < |done| ensures ReachesAny(g, roots + [root], done[i]) {
      ReachesMore(g, roots, root, done[i]);
    }
  }

  /** Everything defined that any of the roots reaches was expanded, and nothing else. */
  lemma GatheredIsReachable(g: Graph, roots: seq<Name>, done: seq<Name>)
    requires Gathered(g, roots, done)
    ensures forall u :: u in done <==> IsDefined(g, u) && ReachesAny(g, roots, u)
  {
    forall u | IsDefined(g, u) && ReachesAny(g, roots, u) ensures u in done {
      var i :| 0 <= i < |roots| && Reaches(g, roots[i], u);
      var p :| Path(g, p) && p[0] == roots[i] && p[|p| - 1] == u;
      PathStays(g, p, done);
    }
  }

  /** In terse mode, with no function printed yet, a tree that nowhere nests too deep lists every
      defined function its root reaches, expands each exactly once however cyclic the graph, and
      takes one line more than the calls those functions make. It says that the nesting is too deep only
      when a path of calls from the root, with no function on it twice, is longer than the stack. */
  method Tree(g: Graph, root: Name) returns (p: Printer)
    requires Closed(g) && root in g
    ensures fresh(p) && p.graph == g && p.activep == 0 && Distinct(p.order)
    ensures Block(g, true, [], root, p.lines, 0, |p.lines|)
    ensures TooDeep in p.lines ==> DeepFrom(g, [root])
    ensures |Definitions(g)| < MAXDEPTH ==> TooDeep !in p.lines
    ensures TooDeep !in p.lines ==> forall u :: u in p.order <==> IsDefined(g, u) && Reaches(g, root, u)
    ensures TooDeep !in p.lines ==> |p.lines| == 1 + CallsOf(g, p.order)
    ensures Mentions(g, p.rnameout, p.lines)
    ensures forall u :: u in p.order ==> IsDefined(g, u) && ListedOnce(g, p.rnameout, p.lines, u)
  {
    hide Block;
    p := new Printer(g, true);
    assert p.activelist[..p.activep] == [];
    assert p.activelist[..p.activep] + [root] == [root];
    p.Output(root);
    if TooDeep !in p.lines {
      ExploredIsReachable(g, root, p.order);
    } else if |Definitions(g)| < MAXDEPTH {
      FewIsShallow(g, [root]);
      assert false;
    }
    assert p.order[0..] == p.order;
    p.AllListedOnce();
  }

  /** The names that are in the graph. */
  function Known(g: Graph, roots: seq<Name>): seq<Name> {
    if roots == [] then [] else Known(g, roots[..|roots| - 1]) + if roots[|roots| - 1] in g then [roots[|roots| - 1]] else []
  }

  lemma KnownSnoc(g: Graph, roots: seq<Name>, n: nat)
    requires n < |roots|
    ensures Known(g, roots[..n + 1]) == Known(g, roots[..n]) + if roots[n] in g then [roots[n]] else []
  {
    assert roots[..n + 1][..n] == roots[..n];
  }

  /** s is what stands at some places of names, in their order. */
  ghost predicate Picked(s: seq<Name>, names: seq<Name>, at: seq<nat>) {
    && |at| == |s|
    && (forall i :: 0 <= i < |at| ==> at[i] < |names| && s[i] == names[at[i]])
    && (forall i, j :: 0 <= i < j < |at| ==> at[i] < at[j])
  }

  lemma PickMore(s: seq<Name>, names: seq<Name>, at: seq<nat>, n: nat)
    requires n < |names| && Picked(s, names[..n], at)
    ensures Picked(s, names, at) && Picked(s + [names[n]], names, at + [n])
  {
  }

  /** Just the names in the graph are kept, in their order. */
  lemma {:induction false} KnownPicks(g: Graph, roots: seq<Name>) returns (at: seq<nat>)
    ensures Picked(Known(g, roots), roots, at)
    ensures forall k: nat :: k in at <==> k < |roots| && roots[k] in g
  {
    at := [];
    if roots != [] {
      var n := |roots| - 1;
      at := KnownPicks(g, roots[..n]);
      PickMore(Known(g, roots[..n]), roots, at, n);
      if roots[n] in g {
        at := at + [n];
      }
    }
  }

  lemma CalledIs(g: Graph, f: Name)
    ensures !Called(g, f) <==> forall h :: IsDefined(g, h) && f in g[h].callees ==> h == f
  {
    if Called(g, f) {
      var h :| h in g && h != f && g[h].Defined? && f in g[h].callees;
      assert IsDefined(g, h);
    }
  }

  /** Just the names that no function but themselves calls are kept, in their order. */
  lemma {:induction false} UncalledPicks(g: Graph, names: seq<Name>) returns (at: seq<nat>)
    ensures Picked(Uncalled(g, names), names, at)
    ensures forall k: nat :: k in at <==>
      k < |names| && forall h :: IsDefined(g, h) && names[k] in g[h].callees ==> h == names[k]
  {
    at := [];
    if names != [] {
      var n := |names| - 1;
      hide Called, IsDefined;
      at := UncalledPicks(g, names[..n]);
      CalledIs(g, names[n]);
      PickMore(Uncalled(g, names[..n]), names, at, n);
      if !Called(g, names[n]) {
        at := at + [n];
      }
    }
  }

  predicate Names(line: Line, f: Name) {
    !line.TooDeep? && line.name == f
  }

  /** Each function asked for has a line that names it. */
  lemma {:induction false} AllNamed(g: Graph, terse: bool, fs: seq<Name>, lines: seq<Line>, i: nat, j: nat, f: Name)
    requires Blocks(g, terse, [], fs, lines, i, j) && f in fs
    ensures exists m :: 0 <= m < |lines| && Names(lines[m], f)
  {
    var n := |fs| - 1;
    var k: nat :| i <= k && Blocks(g, terse, [], fs[..n], lines, i, k) && Block(g, terse, [], fs[n], lines, k, j);
    if f == fs[n] {
      assert Names(lines[k], f);
    } else {
      AllNamed(g, terse, fs[..n], lines, i, k, f);
    }
  }

  /** Some path of calls from one of the roots is too deep. */
  ghost predicate DeepFromAny(g: Graph, roots: seq<Name>) {
    exists i :: 0 <= i < |roots| && roots[i] in g && DeepFrom(g, [roots[i]])
  }

  lemma DeepSnoc(g: Graph, roots: seq<Name>, n: nat)
    requires n < |roots|
    ensures DeepFromAny(g, roots[..n + 1]) <==>
      DeepFromAny(g, roots[..n]) || (roots[n] in g && DeepFrom(g, [roots[n]]))
  {
    hide DeepFrom;
    assert roots[..n + 1] == roots[..n] + [roots[n]];
    if DeepFromAny(g, roots[..n]) {
      var i :| 0 <= i < n && roots[..n][i] in g && DeepFrom(g, [roots[..n][i]]);
      assert roots[..n + 1][i] == roots[i];
    }
    if roots[n] in g && DeepFrom(g, [roots[n]]) {
      assert roots[..n + 1][n] == roots[n];
    }
  }

  lemma FewNowhere(g: Graph, roots: seq<Name>)
    ensures |Definitions(g)| < MAXDEPTH ==> !DeepFromAny(g, roots)
  {
    if |Definitions(g)| < MAXDEPTH {
      forall i | 0 <= i < |roots| && roots[i] in g ensures !DeepFrom(g, [roots[i]]) {
        FewIsShallow(g, [roots[i]]);
      }
    }
  }

  /** Whether some other function calls f: what add2call records. */
  predicate Called(g: Graph, f: Name) {
    exists h :: h in g && h != f && g[h].Defined? && f in g[h].callees
  }

  /** The names that no other function calls, in the order of the table. */
  function Uncalled(g: Graph, names: seq<Name>): seq<Name> {
    if names == [] then []
    else
      var n := |names| - 1;
      Uncalled(g, names[..n]) + if Called(g, names[n]) then [] else [names[n]]
  }

  lemma UncalledSnoc(g: Graph, names: seq<Name>, n: nat)
    requires n < |names|
    ensures Uncalled(g, names[..n + 1]) == Uncalled(g, names[..n]) + if Called(g, names[n]) then [] else [names[n]]
  {
    assert names[..n + 1][..n] == names[..n];
  }

  /** List the trees of the roots asked for, or of all names of the table that no other function calls
      (lines 460-484). */
  method Dumptree(g: Graph, terse: bool, roots: seq<Name>, names: seq<Name>) returns (p: Printer)
    requires Closed(g)
    ensures p.graph == g && p.activep == 0 && Distinct(p.order)
    ensures |Definitions(g)| < MAXDEPTH ==> TooDeep !in p.lines
    ensures var from := if roots != [] then roots else Uncalled(g, names);
      && Blocks(g, terse, [], Known(g, from), p.lines, 0, |p.lines|)
      && (TooDeep in p.lines ==> DeepFromAny(g, from))
      && (!terse && DeepFromAny(g, from) ==> TooDeep in p.lines)
      && (TooDeep !in p.lines ==> forall u :: u in p.order <==> IsDefined(g, u) && ReachesAny(g, from, u))
      && (TooDeep !in p.lines && terse ==> |p.lines| == |Known(g, from)| + CallsOf(g, p.order))
    ensures roots == [] ==>
      forall f :: f in names && f in g && (forall h :: IsDefined(g, h) && f in g[h].callees ==> h == f) ==>
        exists m :: 0 <= m < |p.lines| && Names(p.lines[m], f)
    ensures terse ==> Mentions(g, p.rnameout, p.lines)
    ensures terse ==> forall u :: u in p.order ==> IsDefined(g, u) && ListedOnce(g, p.rnameout, p.lines, u)
  {
    hide Called, Blocks;
    var from := roots;
    if roots == [] {
      var i := 0;
      while i < |names|
        invariant 0 <= i <= |names| && from == Uncalled(g, names[..i])
      {
        UncalledSnoc(g, names, i);
        if !Called(g, names[i]) {
          from := from + [names[i]];
        }
        i := i + 1;
      }
      assert names[..i] == names;
    }
    p := ListRoots(g, terse, from);
    if terse {
      p.AllListedOnce();
    }
    if roots == [] {
      UncalledNamed(g, terse, names, p.lines);
    }
  }

  lemma UncalledNamed(g: Graph, terse: bool, names: seq<Name>, lines: seq<Line>)
    requires Blocks(g, terse, [], Known(g, Uncalled(g, names)), lines, 0, |lines|)
    ensures forall f :: f in names && f in g && (forall h :: IsDefined(g, h) && f in g[h].callees ==> h == f) ==>
      exists m :: 0 <= m < |lines| && Names(lines[m], f)
  {
    var from := Uncalled(g, names);
    var at := UncalledPicks(g, names);
    var inside := KnownPicks(g, from);
    hide Uncalled, Known, Blocks, Names;
    forall f | f in names && f in g && (forall h :: IsDefined(g, h) && f in g[h].callees ==> h == f)
      ensures exists m :: 0 <= m < |lines| && Names(lines[m], f)
    {
      var k: nat :| k < |names| && names[k] == f;
      assert k in at;
      var i :| 0 <= i < |at| && at[i] == k;
      assert from[i] == f && i in inside;
      var e :| 0 <= e < |inside| && inside[e] == i;
      AllNamed(g, terse, Known(g, from), lines, 0, |lines|, f);
    }
  }

  /** List the trees of several roots, leaving out the unknown ones. A later root does not expand again
      what an earlier one has. */
  method ListRoots(g: Graph, terse: bool, roots: seq<Name>) returns (p: Printer)
    requires Closed(g)
    ensures p.graph == g && p.terse == terse && p.activep == 0 && p.Valid()
    ensures Blocks(g, terse, [], Known(g, roots), p.lines, 0, |p.lines|)
    ensures TooDeep in p.lines ==> DeepFromAny(g, roots)
    ensures |Definitions(g)| < MAXDEPTH ==> TooDeep !in p.lines
    ensures !terse && DeepFromAny(g, roots) ==> TooDeep in p.lines
    ensures TooDeep !in p.lines ==> forall u :: u in p.order <==> IsDefined(g, u) && ReachesAny(g, roots, u)
    ensures TooDeep !in p.lines && terse ==> |p.lines| == |Known(g, roots)| + CallsOf(g, p.order)
  {
    hide Gathered, Explored, CallsOf, Printer.StackOk, DeepFromAny, DeepFrom, Known, Block, Blocks;
    p := new Printer(g, terse);
    var i := 0;
    NothingGathered(g, roots);
    while i < |roots|
      invariant 0 <= i <= |roots|
      invariant fresh(p) && fresh(p.activelist) && p.Valid() && p.graph == g && p.terse == terse && p.activep == 0
      invariant Blocks(g, terse, [], Known(g, roots[..i]), p.lines, 0, |p.lines|)
      invariant TooDeep in p.lines ==> DeepFromAny(g, roots[..i])
      invariant !terse && DeepFromAny(g, roots[..i]) ==> TooDeep in p.lines
      invariant TooDeep !in p.lines ==> Gathered(g, roots[..i], p.order)
      invariant TooDeep !in p.lines && terse ==> |p.lines| == |Known(g, roots[..i])| + CallsOf(g, p.order)
    {
      KnownSnoc(g, roots, i);
      assert roots[i] !in g ==> Known(g, roots[..i + 1]) == Known(g, roots[..i]);
      DeepSnoc(g, roots, i);
      assert roots[..i + 1] == roots[..i] + [roots[i]];
      if roots[i] in g {
        ghost var before, above := p.order, p.lines;
        assert p.activelist[..p.activep] == [];
        assert p.activelist[..p.activep] + [roots[i]] == [roots[i]];
        p.Output(roots[i]);
        BlocksNext(g, terse, Known(g, roots[..i]), roots[i], above, p.lines);
        if TooDeep !in p.lines {
          GatherMore(g, roots[..i], roots[i], before, p.order);
          assert p.order == before + p.order[|before|..];
          CallsOfConcat(g, before, p.order[|before|..]);
        }
      } else if TooDeep !in p.lines {
        GatherUnknown(g, roots[..i], roots[i], p.order);
      }
      i := i + 1;
    }
    assert roots[..i] == roots;
    if TooDeep !in p.lines {
      GatheredIsReachable(g, roots, p.order);
    }
    FewNowhere(g, roots);
  }

  lemma NothingGathered(g: Graph, roots: seq<Name>)
    ensures Gathered(g, roots[..0], []) && CallsOf(g, []) == 0 && Known(g, roots[..0]) == []
    ensures !DeepFromAny(g, roots[..0]) && forall terse :: Blocks(g, terse, [], [], [], 0, 0)
  {
  }
}

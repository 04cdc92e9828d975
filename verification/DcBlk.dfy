/** dc's digit buffers and the cursor macros on them. The contents between beg and wt
    are the sequence s; the read cursor is an index into it, which may reach |s|.
    Every stored digit is a Char, so each store carries a proof that it fits. */
module DcBlk {
  import opened DcDigits

  /** s with c written at position i, which may be the one just past the end. */
  function Put(s: seq<Char>, i: nat, c: Char): (t: seq<Char>)
    requires i <= |s|
    ensures |t| == if i < |s| then |s| else |s| + 1
    ensures t[i] == c && t[..i] == s[..i] && t[..i + 1] == s[..i] + [c]
    ensures i < |s| ==> t[i + 1..] == s[i + 1..]
  {
    if i < |s| then s[i := c] else s + [c]
  }

  class Blk {
    var s: seq<Char>
    var rd: nat

    constructor ()
      ensures s == [] && rd == 0
    {
      s, rd := [], 0;
    }

    method Copy() returns (b: Blk)
      ensures fresh(b) && b.s == s && b.rd == 0
    {
      b := new Blk();
      b.s := s;
    }

    predicate Sfeof()
      reads this
    {
      rd == |s|
    }

    predicate Sfbeg()
      reads this
    {
      rd == 0
    }

    function Slookc(): int
      reads this
      requires rd <= |s|
    {
      if rd == |s| then -1 else s[rd]
    }

    method Rewind()
      modifies this`rd
      ensures rd == 0
    {
      rd := 0;
    }

    method Fsfile()
      modifies this`rd
      ensures rd == |s|
    {
      rd := |s|;
    }

    method Create()
      modifies this
      ensures s == [] && rd == 0
    {
      s, rd := [], 0;
    }

    method Truncate()
      requires rd <= |s|
      modifies this`s
      ensures s == old(s)[..rd]
    {
      s := s[..rd];
    }

    method Sgetc() returns (c: int)
      requires rd <= |s|
      modifies this`rd
      ensures rd <= |s|
      ensures c == old(Slookc())
      ensures rd == if old(rd) == |s| then |s| else old(rd) + 1
    {
      c := Slookc();
      if rd < |s| {
        rd := rd + 1;
      }
    }

    method Skipc()
      modifies this`rd
      ensures rd == if old(rd) < |s| then old(rd) + 1 else old(rd)
    {
      if rd < |s| {
        rd := rd + 1;
      }
    }

    method Sbackc() returns (c: int)
      requires rd <= |s|
      modifies this`rd
      ensures old(rd) == 0 ==> c == -1 && rd == 0
      ensures old(rd) > 0 ==> rd == old(rd) - 1 && c == s[rd]
    {
      if rd == 0 {
        c := -1;
      } else {
        rd := rd - 1;
        c := s[rd];
      }
    }

    method Backc()
      modifies this`rd
      ensures rd == if old(rd) > 0 then old(rd) - 1 else 0
    {
      if rd > 0 {
        rd := rd - 1;
      }
    }

    method Sputc(c: Char)
      modifies this`s
      ensures s == old(s) + [c]
    {
      s := s + [c];
    }

    method Salterc(c: Char)
      requires rd <= |s|
      modifies this
      ensures s == Put(old(s), old(rd), c)
      ensures rd == old(rd) + 1
      ensures rd <= |s|
    {
      s := Put(s, rd, c);
      rd := rd + 1;
    }

    /** Move the cursor to n; digits uncovered by growing the buffer are arbitrary. */
    method Seekc(n: nat)
      modifies this
      ensures rd == n <= |s|
      ensures |s| == if n > |old(s)| then n else |old(s)|
      ensures s[..|old(s)|] == old(s)
    {
      while |s| < n
        invariant |old(s)| <= |s| <= if n > |old(s)| then n else |old(s)|
        invariant s[..|old(s)|] == old(s)
      {
        var junk: Char := *;
        s := s + [junk];
      }
      rd := n;
    }
  }
}

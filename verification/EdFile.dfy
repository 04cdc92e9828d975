/** ed's temporary file: an append-only log of lines in blocks on disk, behind one block
    buffer for reading and one for writing. */
module EdFile {

  type Rune = x: int | 0 <= x < 0x1_0000

  /** Runes per block, blocks in the file, runes per line. */
  const BLK: nat := 2048
  const NBLK: nat := 8191
  const LBSIZE: nat := 4096

  const NL: Rune := 10

  /** Position in its block of the rune at an address, whose low bit is ed's global mark. */
  function Offset(atl: nat): (o: nat)
    ensures o < BLK && o % 2 == 0
  {
    atl % BLK - atl % 2
  }

  function Unmarked(atl: nat): nat {
    atl - atl % 2
  }

  /** Whether a line of a given length, stored at address t, ends before the end of the file. */
  predicate FitsAt(t: nat, len: nat) {
    (t + len) / BLK < NBLK
  }

  /** Where the next line goes after a line of that length and its 0 (line 1028). */
  function NextAddress(t: nat, len: nat): nat {
    t + ((len + 4) - (len + 4) % 2) % 0x8000
  }

  lemma BlockOf(atl: nat)
    ensures Unmarked(atl) == atl / BLK * BLK + Offset(atl)
    ensures Unmarked(atl) / BLK == atl / BLK && Unmarked(atl) % BLK == Offset(atl)
  {
  }

  lemma Place(a: nat, b: nat, p: nat)
    requires a == b * BLK + p && p < BLK
    ensures a / BLK == b && a % BLK == p
  {
  }

  /** The cells of a line stored at address t: its runes, none of them 0, and a 0. */
  ghost predicate Record(cells: map<nat, Rune>, t: nat, x: seq<Rune>) {
    && t % 2 == 0 && |x| < LBSIZE && t + |x| in cells && cells[t + |x|] == 0
    && (forall k :: 0 <= k < |x| ==> !Ends(x[k]))
    && (forall a :: t <= a < t + |x| ==> a in cells && cells[a] == x[a - t])
  }

  /** The lines stored are at even addresses, apart from each other, below the end of the log. */
  ghost predicate Recorded(cells: map<nat, Rune>, texts: map<nat, seq<Rune>>, tline: nat) {
    && (forall a :: a in cells ==> a < tline)
    && (forall t :: t in texts ==> Record(cells, t, texts[t]))
    && (forall t, u :: t in texts && u in texts && t < u ==> t + |texts[t]| < u)
  }

  class TempFile {
    const ibuff: array<Rune>
    const obuff: array<Rune>
    const linebuf: array<Rune>
    var disk: map<int, seq<Rune>>
    var iblock: int
    var oblock: int
    var ichanged: bool
    var tline: nat
    ghost var cells: map<nat, Rune>
    ghost var texts: map<nat, seq<Rune>>

    ghost predicate Arrays() {
      && ibuff.Length == BLK && obuff.Length == BLK && linebuf.Length == LBSIZE
      && ibuff != obuff && ibuff != linebuf && obuff != linebuf
    }

    lemma ArraysOf()
      requires Shape()
      ensures Arrays()
    {
    }

    ghost predicate Shape()
      reads this`disk, this`iblock, this`oblock, this`ichanged
    {
      && Arrays()
      && (forall b :: b in disk ==> |disk[b]| == BLK)
      && -1 <= iblock && oblock < NBLK && (iblock == -1 || iblock < oblock) && (iblock == -1 ==> !ichanged)
    }

    ghost predicate Held(b: int)
      reads this`disk, this`iblock, this`oblock
    {
      b >= 0 && (b == iblock || b == oblock || b in disk)
    }

    /** The rune the file holds at an address, wherever its block is at the moment. */
    ghost function Look(a: nat): Rune
      requires Shape() && Held(a / BLK)
      reads this`disk, this`iblock, this`oblock, this`ichanged, ibuff, obuff
    {
      if a / BLK == iblock then ibuff[a % BLK]
      else if a / BLK == oblock then obuff[a % BLK]
      else disk[a / BLK][a % BLK]
    }

    /** The buffers and the disk together hold every rune written, none past the write block. */
    ghost predicate Stored()
      requires Shape()
      reads this`disk, this`iblock, this`oblock, this`ichanged, this`cells, ibuff, obuff
    {
      && (forall a :: a in cells ==> a / BLK <= oblock && Held(a / BLK) && Look(a) == cells[a])
      && (iblock >= 0 && !ichanged ==> iblock in disk && disk[iblock] == ibuff[..])
    }

    ghost predicate Valid()
      reads this, ibuff, obuff
    {
      Shape() && Stored() && Recorded(cells, texts, tline) && tline % 2 == 0
    }

    /** The block of the write buffer is not past the end of the log, so that appending there is safe. */
    ghost predicate Appendable()
      reads this
    {
      oblock <= tline / BLK
    }

    constructor ()
      ensures Valid() && Appendable() && texts == map[] && fresh(ibuff) && fresh(obuff) && fresh(linebuf)
    {
      ibuff, obuff, linebuf := new Rune[BLK], new Rune[BLK], new Rune[LBSIZE];
      disk, iblock, oblock, ichanged, tline := map[], -1, -1, false, 2;
      cells, texts := map[], map[];
    }

    /** Bring a block into a buffer and say where in it the address lies; false past the end of the file. */
    method GetBlock(atl: nat, write: bool) returns (ok: bool, buf: array<Rune>, off: nat, nleft: nat)
      requires Shape() && Stored()
      requires if write then atl / BLK == iblock || atl / BLK >= oblock else Held(atl / BLK) && atl / BLK <= oblock
      modifies this`disk, this`iblock, this`oblock, this`ichanged, ibuff
      ensures Shape() && Stored()
      ensures ok <==> atl / BLK < NBLK
      ensures !ok ==> oblock == old(oblock)
      ensures ok ==> off == Offset(atl) && nleft == BLK - off
      ensures ok ==> (buf == ibuff && atl / BLK == iblock && (write ==> ichanged)) || (buf == obuff && atl / BLK == oblock)
      ensures ok && write ==> if old(iblock) == atl / BLK then oblock == old(oblock) else oblock == atl / BLK
      ensures !write ==> oblock == old(oblock)
      ensures obuff[..] == old(obuff[..])
      ensures forall b :: old(Held(b)) ==> Held(b)
    {
      var bno := atl / BLK;
      off := Offset(atl);
      nleft := BLK - off;
      buf := obuff;
      if bno >= NBLK {
        return false, buf, off, nleft;
      }
      ok := true;
      if bno == iblock {
        ichanged := ichanged || write;
        buf := ibuff;
        return;
      }
      if bno == oblock {
        return;
      }
      if !write {
        if ichanged {
          disk := disk[iblock := ibuff[..]];
        }
        ichanged := false;
        iblock := bno;
        forall i | 0 <= i < BLK {
          ibuff[i] := disk[bno][i];
        }
        assert ibuff[..] == disk[bno];
        buf := ibuff;
        return;
      }
      if oblock >= 0 {
        disk := disk[oblock := obuff[..]];
      }
      oblock := bno;
    }

    /** The line in the line buffer: the runes before the first 0 or newline. */
    ghost function Line(): seq<Rune>
      reads linebuf
      requires exists i :: 0 <= i < linebuf.Length && Ends(linebuf[i])
    {
      linebuf[..LineLength(linebuf[..])]
    }

    /** Address a is position pos of a buffer holding its block, with nl runes left there; tl is
        the address of the block. */
    ghost predicate Cursor(a: nat, tl: nat, buf: array<Rune>, pos: int, nl: int, write: bool)
      reads this`iblock, this`oblock, this`ichanged
    {
      && a == tl + pos && tl % BLK == 0 && 0 <= pos < BLK && nl == BLK - pos
      && buf.Length == BLK && buf != linebuf
      && ((buf == ibuff && a / BLK == iblock && (write ==> ichanged)) || (buf == obuff && a / BLK == oblock))
    }

    /** Find the first rune of a line (lines 989-991, 1011-1013). */
    method First(atl: nat, write: bool) returns (ok: bool, tl: nat, buf: array<Rune>, pos: int, nl: int)
      requires Shape() && Stored()
      requires if write then oblock <= atl / BLK else Held(atl / BLK) && atl / BLK <= oblock
      modifies this`disk, this`iblock, this`oblock, this`ichanged, ibuff
      ensures Shape() && Stored() && obuff[..] == old(obuff[..])
      ensures ok <==> atl / BLK < NBLK
      ensures ok ==> Cursor(Unmarked(atl), tl, buf, pos, nl, write)
      ensures ok && write ==> oblock <= atl / BLK
      ensures !write ==> ok && oblock == old(oblock)
    {
      hide Stored;
      BlockOf(atl);
      ok, buf, pos, nl := GetBlock(atl, write);
      tl := atl / BLK * BLK;
      Place(tl, atl / BLK, 0);
    }

    /** Go on to the next rune, in the next block when this one is used up (lines 993-997, 1020-1025). */
    method Next(ghost a: nat, tl0: nat, buf0: array<Rune>, pos0: int, nl0: int, write: bool)
      returns (ok: bool, tl: nat, buf: array<Rune>, pos: int, nl: int)
      requires Shape() && Stored() && Cursor(a, tl0, buf0, pos0, nl0, write)
      requires if write then oblock <= a / BLK else Held((a + 1) / BLK) && (a + 1) / BLK <= oblock
      modifies this`disk, this`iblock, this`oblock, this`ichanged, ibuff
      ensures Shape() && Stored() && obuff[..] == old(obuff[..])
      ensures ok <==> (a + 1) / BLK < NBLK
      ensures ok ==> Cursor(a + 1, tl, buf, pos, nl, write)
      ensures ok && write ==> oblock <= (a + 1) / BLK
      ensures !write ==> ok && oblock == old(oblock)
    {
      hide Stored;
      ok, tl, buf, pos, nl := true, tl0, buf0, pos0 + 1, nl0 - 1;
      if nl == 0 {
        tl := tl + BLK;
        NextBlock(a, tl0);
        var off;
        ok, buf, off, nl := GetBlock(tl, write);
        pos := off;
      } else {
        SameBlock(a, tl0);
      }
    }

    /** Put one rune at the cursor. */
    method Store(ghost a: nat, ghost tl: nat, buf: array<Rune>, pos: int, ghost nl: int, c: Rune)
      requires Shape() && Stored() && Cursor(a, tl, buf, pos, nl, true)
      modifies this`cells, buf
      ensures Shape() && Stored()
      ensures cells == old(cells)[a := c]
    {
      AtCursor(a, tl, pos);
      buf[pos] := c;
      cells := cells[a := c];
    }

    /** Drop from the account cells written past the end of the log. */
    ghost method Forget(less: map<nat, Rune>)
      requires Shape() && Stored()
      requires forall a :: a in less ==> a in cells && cells[a] == less[a]
      modifies this`cells
      ensures Stored() && cells == less
    {
      cells := less;
    }

    /** Append the line in the line buffer to the log and return its address; false exactly when the
        line would run past the end of the file, and then what was stored before can all still be read. */
    method PutLine() returns (ok: bool, addr: nat)
      requires Valid() && Appendable()
      requires exists i :: 0 <= i < linebuf.Length && Ends(linebuf[i])
      modifies this, ibuff, obuff
      ensures Valid() && (ok ==> Appendable())
      ensures ok <==> FitsAt(old(tline), |Line()|)
      ensures tline == if ok then NextAddress(old(tline), |Line()|) else old(tline)
      ensures !ok ==> texts == old(texts)
      ensures ok ==> addr % 2 == 0 && addr !in old(texts) && texts == old(texts)[addr := Line()]
    {
      hide Stored, Recorded, Ended, LineLength;
      ghost var cells0, text := cells, Line();
      NoneAbove(cells, texts, tline);
      var n;
      ok, n := PutRunes();
      if !ok {
        Forget(cells0);
        return false, 0;
      }
      NextLine(tline, n);
      RecordedGrows(cells0, cells, texts, tline, linebuf[..], n, NextAddress(tline, n - 1));
      addr := tline;
      tline := tline + ((n + 3) - (n + 3) % 2) % 0x8000;
      texts := texts[addr := text];
    }

    /** The copying loop of putline; n runes were taken, the end of the line among them. */
    method PutRunes() returns (ok: bool, n: nat)
      requires Shape() && Stored() && Appendable() && tline % 2 == 0
      requires forall a :: a in cells ==> a < tline
      requires exists i :: 0 <= i < linebuf.Length && Ends(linebuf[i])
      modifies this`disk, this`iblock, this`oblock, this`ichanged, this`cells, ibuff, obuff
      ensures Shape() && Stored() && linebuf[..] == old(linebuf[..])
      ensures forall a :: a in old(cells) ==> a in cells && cells[a] == old(cells[a])
      ensures ok <==> FitsAt(tline, LineLength(linebuf[..]))
      ensures ok ==> n == LineLength(linebuf[..]) + 1 && oblock <= (tline + n - 1) / BLK
      ensures ok ==> Ended(old(cells), cells, tline, linebuf[..], n)
    {
      hide Stored, Shape, Cursor, LineLength, Kept, Ended;
      ArraysOf();
      ghost var len := LineLength(linebuf[..]);
      n := 0;
      var tl, buf, pos, nl;
      ok, tl, buf, pos, nl := First(tline, true);
      if !ok {
        BlockMono(tline, tline + len);
        return;
      }
      KeptStart(cells, tline, linebuf[..]);
      while true
        invariant Shape() && Stored() && linebuf[..] == old(linebuf[..])
        invariant n <= len && Cursor(tline + n, tl, buf, pos, nl, true) && oblock <= (tline + n) / BLK
        invariant ok && (tline + n) / BLK < NBLK
        invariant Kept(old(cells), cells, tline, linebuf[..], n)
        decreases len - n
      {
        CursorBuffer(tline + n, tl, buf, pos, nl, true);
        var last := StoreRune(old(cells), n, len, tl, buf, pos, nl);
        if last {
          n := n + 1;
          break;
        }
        ok, tl, buf, pos, nl := Next(tline + n, tl, buf, pos, nl, true);
        n := n + 1;
        if !ok {
          BlockMono(tline + n, tline + len);
          KeptOld(old(cells), cells, tline, linebuf[..], n);
          return;
        }
      }
    }

    /** Copy rune n of the line buffer to the cursor, and a newline as a 0; whether it ends the line. */
    method StoreRune(ghost was: map<nat, Rune>, n: nat, ghost len: nat, ghost tl: nat,
                     buf: array<Rune>, pos: int, ghost nl: int)
      returns (last: bool)
      requires Shape() && Stored() && Arrays() && Cursor(tline + n, tl, buf, pos, nl, true)
      requires exists i :: 0 <= i < linebuf.Length && Ends(linebuf[i])
      requires n <= len == LineLength(linebuf[..]) && Kept(was, cells, tline, linebuf[..], n)
      modifies this`cells, buf
      ensures Shape() && Stored() && linebuf[..] == old(linebuf[..])
      ensures last ==> n == len && Ended(was, cells, tline, linebuf[..], n + 1)
      ensures last ==> forall a :: a in was ==> a in cells && cells[a] == was[a]
      ensures !last ==> n < len && Kept(was, cells, tline, linebuf[..], n + 1)
    {
      hide Stored, Shape, Cursor, LineLength, Kept, Ended;
      var c := linebuf[n];
      assert c == linebuf[..][n];
      KeptStep(was, cells, tline, linebuf[..], n);
      CursorBuffer(tline + n, tl, buf, pos, nl, true);
      Store(tline + n, tl, buf, pos, nl, c);
      last := c == 0 || c == NL;
      if c == 0 {
        KeptStops(was, cells, tline, linebuf[..], n + 1, len);
      } else if c == NL {
        KeptEnds(was, cells, tline, linebuf[..], n + 1, len);
        Store(tline + n, tl, buf, pos, nl, 0);
      } else {
        BeforeEnd(linebuf[..], n);
      }
    }

    lemma CursorBuffer(a: nat, tl: nat, buf: array<Rune>, pos: int, nl: int, write: bool)
      requires Cursor(a, tl, buf, pos, nl, write)
      ensures buf in {ibuff, obuff} && buf != linebuf && 0 <= pos < buf.Length
    {
    }

    /** A rune written is in the file, and in the buffer that holds its block. */
    lemma Present(a: nat)
      requires Shape() && Stored() && a in cells
      ensures Held(a / BLK) && a / BLK <= oblock && Look(a) == cells[a]
    {
    }

    /** Copy the line at an address, marked or not, into the line buffer. */
    method GetLine(atl: nat)
      requires Valid() && Unmarked(atl) in texts
      modifies this`disk, this`iblock, this`oblock, this`ichanged, ibuff, linebuf
      ensures Valid() && oblock == old(oblock)
      ensures var x := texts[Unmarked(atl)];
        |x| < LBSIZE && linebuf[..|x|] == x && linebuf[|x|] == 0 && forall k :: 0 <= k < |x| ==> !Ends(x[k])
    {
      hide Stored, Shape, Held, Cursor, Recorded, Look;
      ArraysOf();
      ghost var u := Unmarked(atl);
      ghost var x := texts[u];
      ReadBack(cells, texts, tline, u);
      BlockOf(atl);
      Present(u);
      var i := 0;
      var ok, tl, buf, pos, nl := First(atl, false);
      while true
        invariant Shape() && Stored() && oblock == old(oblock) && obuff[..] == old(obuff[..])
        invariant i <= |x| && Cursor(u + i, tl, buf, pos, nl, false)
        invariant linebuf[..i] == x[..i]
        decreases |x| - i
      {
        Present(u + i);
        CursorBuffer(u + i, tl, buf, pos, nl, false);
        LookIn(u + i, tl, buf, pos, nl);
        var c := buf[pos];
        linebuf[i] := c;
        i := i + 1;
        if c == 0 {
          break;
        }
        Present(u + i);
        ok, tl, buf, pos, nl := Next(u + i - 1, tl, buf, pos, nl, false);
      }
    }

    lemma LookIn(a: nat, tl: nat, buf: array<Rune>, pos: int, nl: int)
      requires Shape() && Held(a / BLK) && Cursor(a, tl, buf, pos, nl, false)
      ensures 0 <= pos < buf.Length && buf[pos] == Look(a)
    {
      AtCursor(a, tl, pos);
    }
  }

  lemma AtCursor(a: nat, tl: nat, pos: int)
    requires a == tl + pos && tl % BLK == 0 && 0 <= pos < BLK
    ensures pos == a % BLK
  {
  }

  lemma NextBlock(a: nat, tl: nat)
    requires a == tl + BLK - 1 && tl % BLK == 0
    ensures (tl + BLK) % BLK == 0 && (tl + BLK) / BLK == a / BLK + 1 && Offset(tl + BLK) == 0
  {
    var k := tl / BLK;
    assert tl == k * BLK;
    Place(a, k, BLK - 1);
    Place(tl + BLK, k + 1, 0);
  }

  lemma SameBlock(a: nat, tl: nat)
    requires tl % BLK == 0 && tl <= a < tl + BLK - 1
    ensures (a + 1) / BLK == a / BLK
  {
  }

  lemma ReadBack(cells: map<nat, Rune>, texts: map<nat, seq<Rune>>, tline: nat, u: nat)
    requires Recorded(cells, texts, tline) && u in texts
    ensures var x := texts[u];
      && |x| < LBSIZE && u % 2 == 0 && u < tline && (forall k :: 0 <= k < |x| ==> !Ends(x[k]))
      && (forall a :: u <= a <= u + |x| ==> a in cells && cells[a] == if a < u + |x| then x[a - u] else 0)
  {
    assert Record(cells, u, texts[u]);
  }

  /** c has the old cells, and the first n runes of the line from address t on. */
  ghost predicate Kept(was: map<nat, Rune>, c: map<nat, Rune>, t: nat, line: seq<Rune>, n: nat) {
    && n <= |line|
    && (forall a :: a in was ==> a < t && a in c && c[a] == was[a])
    && (forall a :: a in c ==> a in was || t <= a < t + n)
    && (forall a :: t <= a < t + n ==> a in c && c[a] == line[a - t])
  }

  /** As Kept, but the last of the n cells is a 0. */
  ghost predicate Ended(was: map<nat, Rune>, c: map<nat, Rune>, t: nat, line: seq<Rune>, n: nat) {
    && 0 < n <= |line|
    && (forall a :: a in was ==> a < t && a in c && c[a] == was[a])
    && (forall a :: a in c ==> a in was || t <= a < t + n)
    && (forall a :: t <= a < t + n - 1 ==> a in c && c[a] == line[a - t])
    && t + n - 1 in c && c[t + n - 1] == 0
  }

  lemma KeptStart(c: map<nat, Rune>, t: nat, line: seq<Rune>)
    requires forall a :: a in c ==> a < t
    ensures Kept(c, c, t, line, 0)
  {
  }

  lemma KeptStep(was: map<nat, Rune>, c: map<nat, Rune>, t: nat, line: seq<Rune>, n: nat)
    requires Kept(was, c, t, line, n) && n < |line|
    ensures Kept(was, c[t + n := line[n]], t, line, n + 1)
  {
  }

  lemma KeptOld(was: map<nat, Rune>, c: map<nat, Rune>, t: nat, line: seq<Rune>, n: nat)
    requires Kept(was, c, t, line, n)
    ensures forall a :: a in was ==> a in c && c[a] == was[a]
  {
  }

  lemma KeptStops(was: map<nat, Rune>, c: map<nat, Rune>, t: nat, line: seq<Rune>, n: nat, len: nat)
    requires Kept(was, c, t, line, n) && 0 < n && line[n - 1] == 0
    requires exists i :: 0 <= i < |line| && Ends(line[i])
    requires len == LineLength(line) && n - 1 <= len
    ensures Ended(was, c, t, line, n) && n == len + 1
    ensures forall a :: a in was ==> a in c && c[a] == was[a]
  {
  }

  lemma KeptEnds(was: map<nat, Rune>, c: map<nat, Rune>, t: nat, line: seq<Rune>, n: nat, len: nat)
    requires Kept(was, c, t, line, n) && 0 < n && line[n - 1] == NL
    requires exists i :: 0 <= i < |line| && Ends(line[i])
    requires len == LineLength(line) && n - 1 <= len
    ensures Ended(was, c[t + n - 1 := 0], t, line, n) && n == len + 1
    ensures forall a :: a in was ==> a in c[t + n - 1 := 0] && c[t + n - 1 := 0][a] == was[a]
  {
  }

  lemma BeforeEnd(line: seq<Rune>, k: nat)
    requires exists i :: 0 <= i < |line| && Ends(line[i])
    requires k <= LineLength(line) && !Ends(line[k])
    ensures k < LineLength(line)
  {
  }

  lemma NextLine(t: nat, n: nat)
    requires t % 2 == 0 && 0 < n <= LBSIZE
    ensures var t' := NextAddress(t, n - 1);
      t' % 2 == 0 && t + n < t' && (t + n - 1) / BLK <= t' / BLK
  {
    var m := (n + 3) - (n + 3) % 2;
    assert m % 0x8000 == m && m % 2 == 0 && m > n;
    BlockMono(t + n - 1, t + m);
  }

  lemma BlockMono(a: nat, b: nat)
    requires a <= b
    ensures a / BLK <= b / BLK
  {
  }

  lemma NoneAbove(cells: map<nat, Rune>, texts: map<nat, seq<Rune>>, t: nat)
    requires Recorded(cells, texts, t)
    ensures t !in texts && forall a :: a in cells ==> a < t
  {
    assert t in texts ==> Record(cells, t, texts[t]);
  }

  /** The line just copied joins the lines recorded before. */
  lemma RecordedGrows(was: map<nat, Rune>, c: map<nat, Rune>, texts: map<nat, seq<Rune>>, t: nat,
                      line: seq<Rune>, n: nat, t': nat)
    requires Recorded(was, texts, t) && Ended(was, c, t, line, n) && |line| <= LBSIZE
    requires exists i :: 0 <= i < |line| && Ends(line[i])
    requires n == LineLength(line) + 1 && t + n < t' && t % 2 == 0
    ensures Recorded(c, texts[t := line[..n - 1]], t')
  {
    forall u | u in texts ensures Record(c, u, texts[u]) && u + |texts[u]| < t {
      assert Record(was, u, texts[u]);
    }
    assert Record(c, t, line[..n - 1]);
  }

  predicate Ends(c: Rune) {
    c == 0 || c == NL
  }

  function LineLength(s: seq<Rune>): (n: nat)
    requires exists i :: 0 <= i < |s| && Ends(s[i])
    ensures n < |s| && Ends(s[n]) && forall i :: 0 <= i < n ==> !Ends(s[i])
  {
    if Ends(s[0]) then 0 else
      assert exists i :: 0 <= i < |s[1..]| && Ends(s[1..][i]) by {
        var i :| 0 <= i < |s| && Ends(s[i]);
        assert s[1..][i - 1] == s[i];
      }
      1 + LineLength(s[1..])
  }
}

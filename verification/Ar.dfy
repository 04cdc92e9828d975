/** ar: gathering members into the three temporary files and installing the archive. */
module Ar {
  import opened ArBytes
  import opened ArIndex
  import opened ArStore
  import opened ArSystem

  /** What objtype and objtraverse make of a file. */
  datatype Object = NotObject | Symbols(syms: seq<Sym>)

  const TEXT: byte := 84
  const DATA: byte := 68

  /** The program's globals. */
  class Archive {
    const os: Machine
    var astart: Arfile?
    var amiddle: Arfile?
    var aend: Arfile?
    var allobj: bool
    var symdefsize: nat
    var dupfound: bool
    var texts: set<Name>

    ghost function Files(): set<Arfile>
      reads this`astart, this`amiddle, this`aend
    {
      Only(astart) + Only(amiddle) + Only(aend)
    }

    ghost predicate Apart()
      reads this`astart, this`amiddle, this`aend
    {
      && (astart != null ==> astart != amiddle && astart != aend)
      && (amiddle != null ==> amiddle != aend)
    }

    ghost function Nodes(): set<Armember>
      reads this`astart, this`amiddle, this`aend, Files()`chain
    {
      (if astart == null then {} else set m | m in astart.chain)
      + (if amiddle == null then {} else set m | m in amiddle.chain)
      + (if aend == null then {} else set m | m in aend.chain)
    }

    /** The files are in order, and hold all the bytes that failed writes left behind. */
    ghost predicate Valid()
      reads this`astart, this`amiddle, this`aend, os`writes, os`torn
      reads Files()`paged, Files()`disk, Files()`head, Files()`tail, Files()`chain, Files()`core
      reads Files()`images, Files()`torn
      reads Nodes()`hdr, Nodes()`member, Nodes()`size, Nodes()`next, Nodes()`owner
    {
      && Apart()
      && os.Valid() && Torn() == os.torn
      && (astart != null ==> astart.Valid())
      && (amiddle != null ==> amiddle.Valid())
      && (aend != null ==> aend.Valid())
    }

    /** All that spilling may change is where the members are. */
    twostate predicate Spilled()
      reads this`astart, this`amiddle, this`aend, Files()`images, Files()`defs, Files()`size, Files()`sym
      reads Files()`torn, Files()`refused, Files()`tail
    {
      && astart == old(astart) && amiddle == old(amiddle) && aend == old(aend)
      && Files() == old(Files())
      && (astart != null ==> astart.Spilled())
      && (amiddle != null ==> amiddle.Spilled())
      && (aend != null ==> aend.Spilled())
    }

    /** How many members are in core. */
    ghost function Held(): nat
      reads this`astart, this`amiddle, this`aend, Files()`chain
    {
      InCore(astart) + InCore(amiddle) + InCore(aend)
    }

    /** Every file with a member in core has had a spill refused since. */
    twostate predicate Stuck()
      reads this`astart, this`amiddle, this`aend, Files()`chain, Files()`refused
    {
      && astart == old(astart) && amiddle == old(amiddle) && aend == old(aend)
      && (astart != null ==> astart.Refused())
      && (amiddle != null ==> amiddle.Refused())
      && (aend != null ==> aend.Refused())
    }

    /** The files were tried in their order up to the first that gave a member up, and only that one did. */
    twostate predicate InOrder(ok: bool)
      reads os`creates, os`writes, this`astart, this`amiddle, this`aend, Files()
    {
      var t1 := old(Attempt(os, Tally(false, os.creates, os.writes), astart));
      var t2 := old(Attempt(os, t1, amiddle));
      && Tally(ok, os.creates, os.writes) == old(Attempt(os, t2, aend))
      && InCore(astart) == old(InCore(astart)) - (if t1.ok then 1 else 0)
      && InCore(amiddle) == old(InCore(amiddle)) - (if t2.ok && !t1.ok then 1 else 0)
      && InCore(aend) == old(InCore(aend)) - (if ok && !t2.ok then 1 else 0)
    }

    ghost function Torn(): nat
      reads this`astart, this`amiddle, this`aend, Files()`torn
    {
      TornIn(astart) + TornIn(amiddle) + TornIn(aend)
    }

    /** Nothing has been read yet. */
    constructor (os: Machine)
      requires os.Valid() && os.torn == 0
      ensures this.os == os && Valid() && Sized() && Complete() && Files() == {}
      ensures allobj && !dupfound && texts == {} && symdefsize == 0
    {
      this.os := os;
      astart, amiddle, aend := null, null, null;
      allobj, symdefsize, dupfound, texts := true, 0, false, {};
    }

    /**
     * Reclaim space by spilling one member, of the first file that will, tried in their order; it fails
     * exactly when every file with a member in core refuses.
     */
    method Getspace() returns (ok: bool)
      requires Valid()
      modifies Files(), os`creates, os`writes, os`torn
      ensures Valid() && Spilled()
      ensures Held() == old(Held()) - if ok then 1 else 0
      ensures (!ok ==> Stuck()) && InOrder(ok) && os.mallocs == old(os.mallocs) && os.Accounted()
    {
      hide Arfile.Valid, Machine.Valid, Attempt;
      ok := TryThree(os, astart, amiddle, aend);
    }

    method Malloc() returns (ok: bool)
      requires Valid()
      modifies os`mallocs
      ensures Valid() && Held() == old(Held())
      ensures os.mallocs == old(os.mallocs) + 1 && ok == os.Grants(old(os.mallocs))
    {
      hide Arfile.Valid, Machine.Valid;
      ok := os.Malloc();
    }

    /**
     * Allocate, spilling a member each time malloc fails; it fails only when nothing is left in core that
     * has not refused to be spilled. Nothing but the place of members changes, and if malloc is
     * willing not even that.
     */
    method Armalloc() returns (ok: bool)
      requires Valid()
      modifies Files(), os
      ensures Valid() && Spilled()
      ensures !ok ==> Stuck()
      ensures os.mallocs > old(os.mallocs) && ok == os.Grants(os.mallocs - 1)
      ensures forall i :: old(os.mallocs) <= i < os.mallocs - 1 ==> !os.Grants(i)
      ensures Held() == old(Held()) - (os.mallocs - old(os.mallocs) - 1)
      ensures os.Grants(old(os.mallocs)) ==> os.creates == old(os.creates) && os.writes == old(os.writes)
      ensures os.Accounted()
    {
      hide Valid, InOrder, InCore, Files;
      while true
        invariant Valid() && Spilled() && os.Accounted()
        invariant old(os.mallocs) <= os.mallocs && Held() == old(Held()) - (os.mallocs - old(os.mallocs))
        invariant forall i :: old(os.mallocs) <= i < os.mallocs ==> !os.Grants(i)
        invariant os.mallocs == old(os.mallocs) ==> os.creates == old(os.creates) && os.writes == old(os.writes)
        decreases Held()
      {
        ok := Malloc();
        if ok {
          return;
        }
        var more := Getspace();
        if !more {
          return;
        }
      }
    }

    /** The files but for one, ap, are as they were but for spilling. */
    twostate predicate Others(ap: Arfile)
      reads this`astart, this`amiddle, this`aend, Files()
    {
      && astart == old(astart) && amiddle == old(amiddle) && aend == old(aend)
      && Files() == old(Files())
      && (astart != null && astart != ap ==> astart.Spilled())
      && (amiddle != null && amiddle != ap ==> amiddle.Spilled())
      && (aend != null && aend != ap ==> aend.Spilled())
    }

    /** And that one has the same members. */
    twostate predicate Scanned(ap: Arfile)
      reads this`astart, this`amiddle, this`aend, Files(), ap
    {
      && Others(ap)
      && ap.images == old(ap.images) && ap.defs == old(ap.defs) && ap.size == old(ap.size)
      && ap.torn >= old(ap.torn) && ap.refused >= old(ap.refused)
      && (ap.refused == old(ap.refused) ==> ap.torn == old(ap.torn))
      && (ap.tail == null || ap.tail == old(ap.tail))
    }

    /** symdefsize is the size of the index. */
    ghost predicate Sized()
      reads this`symdefsize, this`astart, this`amiddle, this`aend, Files()`sym
    {
      symdefsize
      == (if astart == null then 0 else IndexSize(astart.sym))
         + (if amiddle == null then 0 else IndexSize(amiddle.sym))
         + (if aend == null then 0 else IndexSize(aend.sym))
    }

    /** Look a text symbol up, and enter it if it is new; entering takes storage. */
    method Duplicate(name: Name) returns (ok: bool, dup: bool)
      requires Valid()
      modifies this`texts, Files(), os
      ensures Valid() && Spilled() && dup == (name in old(texts))
      ensures texts == (if dup || !ok then old(texts) else old(texts) + {name})
      ensures os.Served(ok)
    {
      hide Valid, Files, InCore;
      ok, dup := true, name in texts;
      if !dup {
        ok := Armalloc();
        if ok {
          texts := texts + {name};
        }
      }
    }

    /** Put a symbol at the front of the chain of ap, unless it was there already, which is noticed. */
    method Enter(s: Sym, dup: bool, offset: int, ap: Arfile, ghost current: seq<Sym>) returns (ghost kept: seq<Sym>)
      requires Valid() && Sized() && ap in Files() && ap.Counted(current) && offset == ap.size
      modifies this`symdefsize, this`dupfound, ap`sym
      ensures Valid() && Sized() && ap.Counted(kept)
      ensures kept == (if dup then current else current + [s]) && dupfound == (old(dupfound) || dup)
    {
      hide Arfile.Linked, Placed, IndexSize, Chained, Machine.Valid;
      kept := current;
      if dup {
        dupfound := true;
        return;
      }
      symdefsize := symdefsize + 4 + (|s.name| + 1) + 1;
      ChainedPush(ap.defs, ap.images, ap.size, ap.sym, current, s);
      PushSize(Arsymref(s.kind, s.name, offset), ap.sym);
      ap.sym := [Arsymref(s.kind, s.name, offset)] + ap.sym;
      kept := current + [s];
    }

    /** Allocate the entry and the name. */
    method Room(ap: Arfile) returns (ok: bool, offset: int)
      requires Valid() && ap in Files()
      modifies Files(), os
      ensures Valid() && Spilled() && ap in Files() && ap.Spilled() && os.Served(ok)
      ensures ok ==> offset == ap.size
    {
      hide Valid, InCore, Arfile.Refused;
      offset := 0;
      ok := Armalloc();
      if ok {
        offset := ap.size;
        ok := Armalloc();
      }
    }

    /** And look a text symbol up. */
    method Named(s: Sym, ap: Arfile) returns (ok: bool, dup: bool, offset: int)
      requires Valid() && Sized() && ap in Files()
      modifies this`texts, Files(), os
      ensures Valid() && Spilled() && ap in Files() && ap.Spilled() && Sized()
      ensures ok ==> offset == ap.size && dup == (s.kind == TEXT && s.name in old(texts))
      ensures ok ==> texts == if s.kind == TEXT then old(texts) + {s.name} else old(texts)
      ensures os.Served(ok)
    {
      hide Valid, InCore, IndexSize, Arfile.Refused;
      dup := false;
      ok, offset := Room(ap);
      if ok && s.kind == TEXT {
        ok, dup := Duplicate(s.name);
      }
    }

    /**
     * Add a text or data symbol to the chain of ap, with the offset its member will have there.
     * A second text symbol of the same name is left out, and noticed.
     */
    method Objsym(s: Sym, ap: Arfile, ghost current: seq<Sym>) returns (ok: bool, ghost kept: seq<Sym>)
      requires Valid() && Sized() && ap in Files() && ap.Counted(current)
      modifies this`symdefsize, this`dupfound, this`texts, Files(), os
      ensures Valid() && Scanned(ap)
      ensures ok ==> Sized() && ap.Counted(kept)
      ensures ok ==> kept == if Exported(s, old(texts)) then current + [s] else current
      ensures old(dupfound) ==> dupfound
      ensures ok ==> dupfound == (old(dupfound) || (s.kind == TEXT && s.name in old(texts)))
      ensures ok ==> texts == if s.kind == TEXT then old(texts) + {s.name} else old(texts)
      ensures os.Served(ok)
    {
      hide Valid, Files, Sized, Chained, Machine.Plenty;
      ok, kept := true, current;
      if s.kind == TEXT || s.kind == DATA {
        var dup, offset;
        ok, dup, offset := Named(s, ap);
        if ok {
          kept := Enter(s, dup, offset, ap, current);
        }
      }
    }

    /** Add the symbols of one member, in order. */
    method Objtraverse(syms: seq<Sym>, ap: Arfile) returns (ok: bool, ghost kept: seq<Sym>)
      requires Valid() && Sized() && ap in Files() && ap.Counted([])
      modifies this`symdefsize, this`dupfound, this`texts, Files(), os
      ensures Valid() && Scanned(ap)
      ensures ok ==> Sized() && ap.Counted(kept)
      ensures dupfound || !ok || kept == Listed(syms)
      ensures old(dupfound) ==> dupfound
      ensures ok ==> texts == Seen(old(texts), syms) && dupfound == (old(dupfound) || Twice(old(texts), syms))
      ensures os.Served(ok)
    {
      hide Valid, Files, Chained, IndexSize, Listed, Seen, Twice, Machine.Plenty;
      ok, kept := true, [];
      var i := 0;
      ListedNone(syms);
      NoneSeen(texts, syms);
      while i < |syms|
        invariant 0 <= i <= |syms|
        invariant Valid() && Scanned(ap) && Sized() && ap.Counted(kept) && ok
        invariant dupfound || kept == Listed(syms[..i])
        invariant old(dupfound) ==> dupfound
        invariant os.Served(ok)
        invariant texts == Seen(old(texts), syms[..i])
        invariant dupfound == (old(dupfound) || Twice(old(texts), syms[..i]))
      {
        SeenSnoc(old(texts), syms, i);
        ok, kept := Objsym(syms[i], ap, kept);
        if !ok {
          return;
        }
        ListedSnoc(syms, i);
        i := i + 1;
      }
      assert syms[..i] == syms;
    }

    /** A file that is no object ends the scanning. */
    method Kind(obj: Object)
      requires Valid() && Sized()
      modifies this`allobj
      ensures Valid() && Sized() && allobj == (old(allobj) && obj.Symbols?)
    {
      hide Arfile.Valid, Machine.Valid, IndexSize;
      if allobj && obj.NotObject? {
        allobj := false;
      }
    }

    /**
     * Scan the file of a member for its symbols, unless some file already was no object. A file that
     * is none, or of another kind than the last, or with bad symbols, ends the scanning.
     */
    method Scanobj(obj: Object, ap: Arfile) returns (ok: bool, ghost kept: seq<Sym>)
      requires Valid() && Sized() && ap in Files() && ap.Counted([])
      modifies this`allobj, this`symdefsize, this`dupfound, this`texts, Files(), os
      ensures Valid() && Scanned(ap) && allobj == (old(allobj) && obj.Symbols?)
      ensures ok ==> Sized() && ap.Counted(kept)
      ensures dupfound || !ok || (allobj ==> kept == Listed(obj.syms))
      ensures old(dupfound) ==> dupfound
      ensures ok && allobj ==>
        texts == Seen(old(texts), obj.syms) && dupfound == (old(dupfound) || Twice(old(texts), obj.syms))
      ensures os.Served(ok)
    {
      hide Valid, Files, Sized, Arfile.Counted, Machine.Plenty;
      ok, kept := true, [];
      Kind(obj);
      if allobj {
        ok, kept := Objtraverse(obj.syms, ap);
      }
    }

    /** Read n bytes into a new buffer for bp; what a short read leaves stays zero. */
    method Arread(bp: Armember, n: nat, data: seq<byte>) returns (ok: bool)
      requires Valid() && bp.owner == null && |data| <= n
      modifies bp`member, Files(), os
      ensures Valid() && Spilled()
      ensures ok ==> |bp.member| == n && data <= bp.member
      ensures os.Served(ok)
    {
      hide Arfile.Linked, Placed;
      ok := Armalloc();
      if ok {
        Foreign(bp);
        bp.member := data + seq(n - |data|, _ => 0);
      }
    }

    /** A member that is not inserted is in no chain. */
    lemma Foreign(bp: Armember)
      requires Valid() && bp.owner == null
      ensures astart != null ==> bp !in astart.chain
      ensures amiddle != null ==> bp !in amiddle.chain
      ensures aend != null ==> bp !in aend.chain
    {
    }

    /** Insert a member that was read, and count its length. */
    method Insert(bp: Armember, n: nat, ap: Arfile, ghost current: seq<Sym>)
      requires Valid() && Sized() && ap in Files() && ap.Counted(current)
      requires bp.owner == null && bp.Whole() && n == Even(bp.size)
      modifies ap`head, ap`tail, ap`chain, ap`core, ap`images, ap`defs, ap`size
      modifies bp`next, bp`owner, ap.Last()`next
      ensures Valid() && Sized() && ap.Counted([])
      ensures ap.images == old(ap.images) + [bp.hdr + bp.member] && ap.defs == old(ap.defs) + [current]
      ensures ap.torn == old(ap.torn) && ap.tail == bp && ap.chain == old(ap.chain) + [bp]
    {
      hide Valid, Sized, Chained;
      ChainedInsert(ap.defs, ap.images, ap.size, ap.sym, current, bp.hdr + bp.member);
      Append(bp, ap);
      ap.size := ap.size + n + SAR_HDR;
      ap.defs := ap.defs + [current];
    }

    /** Put a member at the end of the chain of ap; what is in the other chains is not touched. */
    method Append(bp: Armember, ap: Arfile)
      requires Valid() && ap in Files() && bp.owner == null && bp.Whole()
      modifies ap`head, ap`tail, ap`chain, ap`core, ap`images, bp`next, bp`owner, ap.Last()`next
      ensures Valid() && ap.tail == bp && ap.images == old(ap.images) + [bp.hdr + bp.member]
      ensures ap.chain == old(ap.chain) + [bp]
      ensures bp.hdr == old(bp.hdr) && bp.member == old(bp.member)
    {
      hide Arfile.Linked, Placed, Machine.Valid;
      OthersApart(ap, bp);
      ap.Arinsert(bp);
    }

    /** What inserting bp into ap changes is in no other chain. */
    lemma OthersApart(ap: Arfile, bp: Armember)
      requires Valid() && ap in Files() && bp.owner == null
      ensures astart != null && astart != ap ==> bp !in astart.chain && ap.Last() !! set m | m in astart.chain
      ensures amiddle != null && amiddle != ap ==> bp !in amiddle.chain && ap.Last() !! set m | m in amiddle.chain
      ensures aend != null && aend != ap ==> bp !in aend.chain && ap.Last() !! set m | m in aend.chain
    {
    }

    /** Copy an archive member, whose header was read, into ap. */
    method Arcopy(bp: Armember, data: seq<byte>, ap: Arfile, ghost current: seq<Sym>) returns (ok: bool)
      requires Valid() && Sized() && ap in Files() && ap.Counted(current)
      requires bp.owner == null && |bp.hdr| == SAR_HDR && |data| <= Even(bp.size)
      modifies bp`member, bp`next, bp`owner, Files(), os, ap.Last()`next
      ensures ok ==> Valid() && Sized() && ap.Counted([])
      ensures ok ==> ap.images == old(ap.images) + [bp.hdr + bp.member] && ap.defs == old(ap.defs) + [current]
      ensures ok ==> data <= bp.member && |bp.member| == Even(bp.size) && Others(ap) && ap.tail == bp
      ensures os.Served(ok)
    {
      hide Valid, Chained, IndexSize, Machine.Plenty;
      var n := bp.size;
      if n % 2 == 1 {
        n := n + 1;
      }
      ok := Arread(bp, n, data);
      if ok {
        Insert(bp, n, ap, current);
      }
    }

    /**
     * Copy a file of some length into ap under a new header. The buffer holds the length itself; past
     * stands for the byte behind it that arwrite writes after an odd one.
     */
    method Armove(bp: Armember, hdr: seq<byte>, length: nat, data: seq<byte>, past: byte, ap: Arfile,
                  ghost current: seq<Sym>)
      returns (ok: bool)
      requires Valid() && Sized() && ap in Files() && ap.Counted(current)
      requires bp.owner == null && |hdr| == SAR_HDR && |data| <= length
      modifies bp`hdr, bp`size, bp`member, bp`next, bp`owner, Files(), os, ap.Last()`next
      ensures ok ==> Valid() && Sized() && ap.Counted([])
      ensures ok ==> ap.images == old(ap.images) + [hdr + bp.member] && ap.defs == old(ap.defs) + [current]
      ensures ok ==> data <= bp.member && |bp.member| == Even(length) && Others(ap)
      ensures os.Served(ok)
    {
      hide Valid, Chained, IndexSize, Machine.Plenty;
      ok := Fill(bp, hdr, length, data, past);
      if ok {
        Insert(bp, Even(length), ap, current);
      }
    }

    /** Make the member up from a file of some length. */
    method Fill(bp: Armember, hdr: seq<byte>, length: nat, data: seq<byte>, past: byte) returns (ok: bool)
      requires Valid() && bp.owner == null && |hdr| == SAR_HDR && |data| <= length
      modifies bp`hdr, bp`size, bp`member, Files(), os
      ensures Valid() && Spilled()
      ensures ok ==> bp.Whole() && bp.hdr == hdr && bp.size == length && data <= bp.member
      ensures os.Served(ok)
    {
      hide Arfile.Valid;
      Head(bp, hdr, length);
      ok := Arread(bp, bp.size, data);
      if ok && length % 2 == 1 {
        Grow(bp, [past]);
      }
    }

    method Head(bp: Armember, hdr: seq<byte>, length: nat)
      requires Valid() && bp.owner == null
      modifies bp`hdr, bp`size
      ensures Valid() && bp.hdr == hdr && bp.size == length
    {
      hide Arfile.Linked, Placed;
      Foreign(bp);
      bp.hdr := hdr;
      bp.size := length;
    }

    method Grow(bp: Armember, more: seq<byte>)
      requires Valid() && bp.owner == null
      modifies bp`member
      ensures Valid() && bp.member == old(bp.member) + more
    {
      hide Arfile.Linked, Placed;
      Foreign(bp);
      bp.member := bp.member + more;
    }

    /** A member kept from the old archive: its symbols, then its bytes. */
    method Keep(obj: Object, bp: Armember, data: seq<byte>, ap: Arfile) returns (ok: bool)
      requires Valid() && Sized() && ap in Files() && ap.Counted([])
      requires bp.owner == null && |bp.hdr| == SAR_HDR && |data| <= Even(bp.size)
      modifies this`allobj, this`symdefsize, this`dupfound, this`texts
      modifies bp`member, bp`next, bp`owner, Files(), os, ap.Last()`next
      ensures ok ==> Valid() && Sized() && ap.Counted([]) && Others(ap)
      ensures ok ==> data <= bp.member && |bp.member| == Even(bp.size) && ap.tail == bp
      ensures ok ==> ap.images == old(ap.images) + [bp.hdr + bp.member]
      ensures ok ==> ap.defs[..|ap.defs| - 1] == old(ap.defs) && |ap.defs| == |old(ap.defs)| + 1
      ensures ok && obj.Symbols? && allobj && !dupfound ==> ap.defs == old(ap.defs) + [Listed(obj.syms)]
      ensures allobj == (old(allobj) && obj.Symbols?) && (old(dupfound) ==> dupfound)
      ensures ok && allobj && obj.Symbols? ==>
        texts == Seen(old(texts), obj.syms) && dupfound == (old(dupfound) || Twice(old(texts), obj.syms))
      ensures os.Served(ok)
    {
      hide Valid, Files, Chained, IndexSize, Listed, Seen, Twice, Machine.Plenty;
      ghost var kept;
      ok, kept := Scanobj(obj, ap);
      if ok {
        ok := Arcopy(bp, data, ap, kept);
      }
    }

    /** Every file's symbol chain is that of the members inserted. */
    ghost predicate Complete()
      reads this`astart, this`amiddle, this`aend
      reads Files()`defs, Files()`images, Files()`size, Files()`sym
    {
      && (astart != null ==> astart.Counted([]))
      && (amiddle != null ==> amiddle.Counted([]))
      && (aend != null ==> aend.Counted([]))
    }

    /** Write the index: its header, the entries of the files, and the padding. */
    method Rl(hdr: seq<byte>, out0: seq<byte>) returns (out: seq<byte>)
      requires Sized() && Complete() && |hdr| == SAR_HDR && |out0| == SARMAG
      ensures out == out0 + hdr + Body(PartOf(astart), PartOf(amiddle), PartOf(aend))
    {
      hide Index, IndexSize, Flat, Chained;
      var len := symdefsize;
      if len % 2 == 1 {
        len := len + 1;
      }
      out := out0 + hdr;
      len := len + |out|;
      assert symdefsize == BodySize(PartOf(astart), PartOf(amiddle), PartOf(aend)) by { NoEntries(); }
      var entries := AllEntries(len);
      if symdefsize % 2 == 1 {
        entries := entries + [0];
      }
      out := out + entries;
    }

    /** The entries of the three files, whose first member stands at base. */
    method AllEntries(base: nat) returns (entries: seq<byte>)
      requires Complete()
      ensures var s, m, e := PartOf(astart), PartOf(amiddle), PartOf(aend);
        var next := base + |Flat(s.images)|;
        entries == Index(s.sym, base) + Index(m.sym, next) + Index(e.sym, next + |Flat(m.images)|)
    {
      hide Index, Flat, Chained;
      NoEntries();
      var len := base;
      len, entries := Entries(astart, len, []);
      len, entries := Entries(amiddle, len, entries);
      len, entries := Entries(aend, len, entries);
    }

    /**
     * Write the archive, unless a text symbol was defined twice: the index if all members are objects,
     * and the files. What is written is right exactly when no write to a temporary file failed part of
     * the way.
     */
    method Install(hdr: seq<byte>) returns (written: bool, out: seq<byte>)
      requires Valid() && Sized() && Complete() && |hdr| == SAR_HDR
      modifies Files()`paged
      ensures written == !(allobj && dupfound)
      ensures written ==> (out == Whole(hdr) <==> os.Clean())
      ensures written ==> |out| == |Whole(hdr)| + os.torn
    {
      hide Arfile.Valid, Arfile.Counted, Machine.Clean, Flat, Body;
      if allobj && dupfound {
        return false, [];
      }
      written, out := true, ARMAG;
      if allobj {
        out := Rl(hdr, out);
      }
      out := StreamAll(out);
    }

    /** Put out the three files. */
    method StreamAll(out0: seq<byte>) returns (out: seq<byte>)
      requires Valid()
      modifies Files()`paged
      ensures var rest := Flat(PartOf(astart).images) + Flat(PartOf(amiddle).images) + Flat(PartOf(aend).images);
        |out| == |out0| + |rest| + os.torn && (os.torn == 0 ==> out == out0 + rest)
    {
      hide Arfile.Valid, Machine.Valid, Flat;
      out := Stream(astart, out0);
      ghost var out2 := out;
      out := Stream(amiddle, out);
      ghost var out3 := out;
      out := Stream(aend, out);
    }

    ghost function Whole(hdr: seq<byte>): seq<byte>
      reads this`astart, this`amiddle, this`aend, this`allobj
      reads Files()`sym, Files()`defs, Files()`images
    {
      var s, m, e := PartOf(astart), PartOf(amiddle), PartOf(aend);
      if allobj then
        Indexing(hdr, s, m, e)
      else
        ARMAG + Flat(s.images) + Flat(m.images) + Flat(e.images)
    }
  }

  ghost function Only(f: Arfile?): set<Arfile> {
    if f == null then {} else {f}
  }

  ghost function TornIn(f: Arfile?): nat
    reads Only(f)`torn
  {
    if f == null then 0 else f.torn
  }

  ghost function InCore(f: Arfile?): nat
    reads Only(f)`chain
  {
    if f == null then 0 else |f.chain|
  }

  /** What becomes of an attempt to spill a member of a file, if it is there and has any in core. */
  ghost function Attempt(os: Machine, t: Tally, f: Arfile?): Tally
    reads f
  {
    if f == null then t else os.Spilling(t, f.paged, |f.chain|)
  }

  /** Spill a member of the first of two files that will. */
  method TryTwo(os: Machine, f: Arfile?, g: Arfile?) returns (ok: bool)
    requires f != null ==> f.Valid() && f != g
    requires g != null ==> g.Valid()
    requires os.Valid()
    modifies Only(f)`paged, Only(f)`disk, Only(f)`head, Only(f)`tail
    modifies Only(f)`chain, Only(f)`core, Only(f)`torn, Only(f)`refused
    modifies Only(g)`paged, Only(g)`disk, Only(g)`head, Only(g)`tail
    modifies Only(g)`chain, Only(g)`core, Only(g)`torn, Only(g)`refused
    modifies os`creates, os`writes, os`torn
    ensures os.Valid() && os.torn - old(os.torn) == TornIn(f) + TornIn(g) - old(TornIn(f) + TornIn(g))
    ensures os.Accounted()
    ensures f != null ==> f.Valid() && f.Spilled() && (!ok ==> f.Refused())
    ensures g != null ==> g.Valid() && g.Spilled() && (!ok ==> g.Refused())
    ensures var t1 := old(Attempt(os, Tally(false, os.creates, os.writes), f));
      && Tally(ok, os.creates, os.writes) == old(Attempt(os, t1, g))
      && InCore(f) == old(InCore(f)) - (if t1.ok then 1 else 0)
      && InCore(g) == old(InCore(g)) - (if ok && !t1.ok then 1 else 0)
  {
    hide Arfile.Valid, Machine.Valid;
    ok := Try(os, f);
    if !ok {
      ok := Try(os, g);
    }
  }

  /** Spill a member of the first of three files that will. */
  method TryThree(os: Machine, f: Arfile?, g: Arfile?, h: Arfile?) returns (ok: bool)
    requires f != null ==> f.Valid() && f != g && f != h
    requires g != null ==> g.Valid() && g != h
    requires h != null ==> h.Valid()
    requires os.Valid()
    modifies Only(f)`paged, Only(f)`disk, Only(f)`head, Only(f)`tail
    modifies Only(f)`chain, Only(f)`core, Only(f)`torn, Only(f)`refused
    modifies Only(g)`paged, Only(g)`disk, Only(g)`head, Only(g)`tail
    modifies Only(g)`chain, Only(g)`core, Only(g)`torn, Only(g)`refused
    modifies Only(h)`paged, Only(h)`disk, Only(h)`head, Only(h)`tail
    modifies Only(h)`chain, Only(h)`core, Only(h)`torn, Only(h)`refused
    modifies os`creates, os`writes, os`torn
    ensures os.Valid() && os.Accounted()
    ensures os.torn - old(os.torn) == TornIn(f) + TornIn(g) + TornIn(h) - old(TornIn(f) + TornIn(g) + TornIn(h))
    ensures f != null ==> f.Valid() && f.Spilled() && (!ok ==> f.Refused())
    ensures g != null ==> g.Valid() && g.Spilled() && (!ok ==> g.Refused())
    ensures h != null ==> h.Valid() && h.Spilled() && (!ok ==> h.Refused())
    ensures var t1 := old(Attempt(os, Tally(false, os.creates, os.writes), f));
      var t2 := old(Attempt(os, t1, g));
      && Tally(ok, os.creates, os.writes) == old(Attempt(os, t2, h))
      && (t1.ok ==> t2.ok) && (t2.ok ==> ok)
      && InCore(f) == old(InCore(f)) - (if t1.ok then 1 else 0)
      && InCore(g) == old(InCore(g)) - (if t2.ok && !t1.ok then 1 else 0)
      && InCore(h) == old(InCore(h)) - (if ok && !t2.ok then 1 else 0)
  {
    hide Arfile.Valid, Machine.Valid;
    ok := Try(os, f);
    if !ok {
      ok := TryTwo(os, g, h);
    }
  }

  /** Spill a member of one file, if it is there and has any in core. */
  method Try(os: Machine, f: Arfile?) returns (ok: bool)
    requires f != null ==> f.Valid()
    requires os.Valid()
    modifies Only(f)`paged, Only(f)`disk, Only(f)`head, Only(f)`tail
    modifies Only(f)`chain, Only(f)`core, Only(f)`torn, Only(f)`refused
    modifies os`creates, os`writes, os`torn
    ensures os.Valid() && os.Accounted() && os.torn - old(os.torn) == TornIn(f) - old(TornIn(f))
    ensures Tally(ok, os.creates, os.writes) == old(Attempt(os, Tally(false, os.creates, os.writes), f))
    ensures f != null ==> f.Valid() && f.Spilled()
    ensures InCore(f) == old(InCore(f)) - if ok then 1 else 0
    ensures !ok && f != null ==> f.Refused()
  {
    hide Arfile.Valid;
    ok := false;
    if f != null {
      f.HeadIsFirst();
      if f.head != null {
        ok := f.Page(os);
      }
    }
  }

  ghost function PartOf(f: Arfile?): Part
    reads Only(f)`sym, Only(f)`defs, Only(f)`images
  {
    if f == null then Part([], [], []) else Part(f.sym, f.defs, f.images)
  }

  /** The chains that install writes out are the symbols of the members, so its index is right. */
  lemma CompleteIsIndexed(a: Archive)
    requires a.Complete()
    ensures Indexed(PartOf(a.astart)) && Indexed(PartOf(a.amiddle)) && Indexed(PartOf(a.aend))
  {
  }

  lemma NoEntries()
    ensures IndexSize([]) == 0 && Flat([]) == []
    ensures forall base :: Index([], base) == []
  {
  }

  /** Write the entries of one file, if it is there, and step over its members. */
  method Entries(f: Arfile?, len: nat, out0: seq<byte>) returns (next: nat, out: seq<byte>)
    requires f != null ==> f.Counted([])
    ensures out == out0 + Index(PartOf(f).sym, len) && next == len + |Flat(PartOf(f).images)|
  {
    next, out := len, out0;
    if f != null {
      out := Wrsym(f.sym, len, out);
      next := len + f.size;
    }
  }

  /** Stream one file, if it is there. */
  method Stream(f: Arfile?, out0: seq<byte>) returns (out: seq<byte>)
    requires f != null ==> f.Valid()
    modifies Only(f)`paged
    ensures |out| == |out0| + |Flat(PartOf(f).images)| + TornIn(f)
    ensures f == null || f.torn == 0 ==> out == out0 + Flat(PartOf(f).images)
  {
    hide Arfile.Valid, Flat;
    out := out0;
    NoEntries();
    if f != null {
      out := f.Arstream(out);
    }
  }

  /** One index entry: the type, the offset's four low bytes, low first, and the name with its zero. */
  method Putsym(r: Arsymref, offset: int, out0: seq<byte>) returns (out: seq<byte>)
    ensures out == out0 + Entry(r, offset)
  {
    var off := r.offset + offset;
    out := out0 + [r.kind];
    out := out + [LowByte(off)];
    out := out + [LowByte(off / 256)];
    out := out + [LowByte(off / 0x1_0000)];
    out := out + [LowByte(off / 0x100_0000)];
    out := out + (r.name + [0]);
  }

  /** Write the entries of one file, whose members start at offset. */
  method Wrsym(refs: seq<Arsymref>, offset: int, out0: seq<byte>) returns (out: seq<byte>)
    ensures out == out0 + Index(refs, offset)
  {
    hide Entry;
    out := out0;
    var i := 0;
    while i < |refs|
      invariant 0 <= i <= |refs|
      invariant out0 + Index(refs, offset) == out + Index(refs[i..], offset)
    {
      assert refs[i..][1..] == refs[i + 1..];
      ghost var was := out;
      out := Putsym(refs[i], offset, out);
      assert was + (Entry(refs[i], offset) + Index(refs[i + 1..], offset)) == out + Index(refs[i + 1..], offset);
      i := i + 1;
    }
  }

  /** The names of text symbols met. */
  function Seen(seen: set<Name>, syms: seq<Sym>): set<Name> {
    if syms == [] then
      seen
    else
      var s := syms[|syms| - 1];
      Seen(seen, syms[..|syms| - 1]) + if s.kind == TEXT then {s.name} else {}
  }

  /** Whether one of the symbols is a text symbol met before. */
  predicate Twice(seen: set<Name>, syms: seq<Sym>) {
    syms != [] &&
    var n := |syms| - 1;
    Twice(seen, syms[..n]) || (syms[n].kind == TEXT && syms[n].name in Seen(seen, syms[..n]))
  }

  lemma NoneSeen(seen: set<Name>, syms: seq<Sym>)
    ensures Seen(seen, syms[..0]) == seen && !Twice(seen, syms[..0])
  {
  }

  lemma SeenSnoc(seen: set<Name>, syms: seq<Sym>, i: nat)
    requires i < |syms|
    ensures Seen(seen, syms[..i + 1]) == Seen(seen, syms[..i]) + if syms[i].kind == TEXT then {syms[i].name} else {}
    ensures Twice(seen, syms[..i + 1]) <==>
      Twice(seen, syms[..i]) || (syms[i].kind == TEXT && syms[i].name in Seen(seen, syms[..i]))
  {
    assert syms[..i + 1][..i] == syms[..i];
  }

  lemma {:induction false} SeenConcat(seen: set<Name>, a: seq<Sym>, b: seq<Sym>)
    ensures Seen(seen, a + b) == Seen(Seen(seen, a), b)
    ensures Twice(seen, a + b) <==> Twice(seen, a) || Twice(Seen(seen, a), b)
  {
    if b == [] {
      assert a + b == a;
    } else {
      var n := |b| - 1;
      SeenConcat(seen, a, b[..n]);
      assert (a + b)[..|a + b| - 1] == a + b[..n];
    }
  }

  lemma {:induction false} SeenIs(syms: seq<Sym>, name: Name)
    ensures name in Seen({}, syms) <==> exists i :: 0 <= i < |syms| && syms[i].kind == TEXT && syms[i].name == name
  {
    if syms != [] {
      var n := |syms| - 1;
      SeenIs(syms[..n], name);
      assert forall i :: 0 <= i < n ==> syms[..n][i] == syms[i];
    }
  }

  ghost predicate SameText(syms: seq<Sym>, i: int, j: int) {
    0 <= i < j < |syms| && syms[i].kind == TEXT && syms[j].kind == TEXT && syms[i].name == syms[j].name
  }

  /** Two text symbols have the same name. */
  ghost predicate TextTwice(syms: seq<Sym>) {
    exists i, j :: SameText(syms, i, j)
  }

  /** From the start, that is so when two text symbols have the same name. */
  lemma {:induction false} TwiceIs(syms: seq<Sym>)
    ensures Twice({}, syms) <==> TextTwice(syms)
  {
    if syms != [] {
      var n := |syms| - 1;
      var t := syms[..n];
      TwiceIs(t);
      SeenIs(t, syms[n].name);
      if i, j :| SameText(t, i, j) {
        assert SameText(syms, i, j);
      }
      if i :| 0 <= i < n && syms[n].kind == TEXT && t[i].kind == TEXT && t[i].name == syms[n].name {
        assert SameText(syms, i, n);
      }
      if i, j :| SameText(syms, i, j) {
        if j < n {
          assert SameText(t, i, j);
        } else {
          assert t[i] == syms[i];
        }
      }
    }
  }

  /** The symbols that go into the index. */
  function Listed(syms: seq<Sym>): seq<Sym> {
    if syms == [] then
      []
    else
      var s := syms[|syms| - 1];
      Listed(syms[..|syms| - 1]) + if s.kind == TEXT || s.kind == DATA then [s] else []
  }

  /** They are just the text and data symbols, in their order. */
  lemma {:induction false} ListedPicks(syms: seq<Sym>) returns (at: seq<nat>)
    ensures Picked(Listed(syms), syms, at)
    ensures forall k: nat :: k in at <==> k < |syms| && (syms[k].kind == 'T' as byte || syms[k].kind == 'D' as byte)
  {
    at := [];
    if syms != [] {
      var n := |syms| - 1;
      var s := syms[n];
      at := ListedPicks(syms[..n]);
      PickMore(Listed(syms[..n]), syms[..n], at, s);
      assert syms == syms[..n] + [s];
      if s.kind == TEXT || s.kind == DATA {
        at := at + [n];
      }
    }
  }

  lemma ListedNone(syms: seq<Sym>)
    ensures Listed(syms[..0]) == []
  {
  }

  lemma ListedSnoc(syms: seq<Sym>, i: nat)
    requires i < |syms|
    ensures Listed(syms[..i + 1])
      == Listed(syms[..i]) + if syms[i].kind == TEXT || syms[i].kind == DATA then [syms[i]] else []
  {
    assert syms[..i + 1][..i] == syms[..i];
  }

  /** Whether a symbol goes into the index, given the text symbols already seen. */
  predicate Exported(s: Sym, texts: set<Name>) {
    s.kind == DATA || (s.kind == TEXT && s.name !in texts)
  }

  lemma PushSize(r: Arsymref, refs: seq<Arsymref>)
    ensures IndexSize([r] + refs) == EntrySize(r.name) + IndexSize(refs)
  {
    assert ([r] + refs)[1..] == refs;
  }
}

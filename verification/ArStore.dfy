/** ar: the temporary files, kept in core as chains of members and spilled to disk when malloc fails. */
module ArStore {
  import opened ArBytes
  import opened ArIndex
  import opened ArSystem

  /**
   * What is on disk followed by what is in core is what was inserted, but for the torn bytes that
   * failed writes left behind.
   */
  ghost predicate Placed(disk: seq<byte>, core: seq<seq<byte>>, images: seq<seq<byte>>, torn: nat) {
    && |disk| + |Flat(core)| == |Flat(images)| + torn
    && (torn == 0 ==> disk + Flat(core) == Flat(images))
  }

  lemma PlacedInsert(disk: seq<byte>, core: seq<seq<byte>>, images: seq<seq<byte>>, torn: nat, image: seq<byte>)
    requires Placed(disk, core, images, torn)
    ensures Placed(disk, core + [image], images + [image], torn)
  {
    FlatSnoc(core, image);
    FlatSnoc(images, image);
    assert disk + (Flat(core) + image) == (disk + Flat(core)) + image;
  }

  lemma PlacedPage(disk: seq<byte>, core: seq<seq<byte>>, images: seq<seq<byte>>, torn: nat)
    requires Placed(disk, core, images, torn) && core != []
    ensures Placed(disk + core[0], core[1..], images, torn)
  {
    FlatHead(core);
    assert (disk + core[0]) + Flat(core[1..]) == disk + (core[0] + Flat(core[1..]));
  }

  lemma PlacedTorn(disk: seq<byte>, core: seq<seq<byte>>, images: seq<seq<byte>>, torn: nat, part: seq<byte>)
    requires Placed(disk, core, images, torn)
    ensures Placed(disk + part, core, images, torn + |part|)
  {
    if part == [] {
      assert disk + part == disk;
    }
  }

  lemma PlacedStream(disk: seq<byte>, core: seq<seq<byte>>, images: seq<seq<byte>>, torn: nat, out0: seq<byte>)
    requires Placed(disk, core, images, torn)
    ensures var out := out0 + disk + Flat(core);
      |out| == |out0| + |Flat(images)| + torn && (out == out0 + Flat(images) <==> torn == 0)
  {
    assert out0 + disk + Flat(core) == out0 + (disk + Flat(core));
  }

  /** An entry of a member chain. */
  class Armember {
    var hdr: seq<byte>
    var size: nat
    var member: seq<byte>
    var next: Armember?
    ghost var owner: Arfile?

    ghost predicate Whole()
      reads this`hdr, this`member, this`size
    {
      |hdr| == SAR_HDR && |member| == Even(size)
    }

    constructor (hdr: seq<byte>, size: nat)
      ensures owner == null && this.hdr == hdr && this.size == size && member == []
    {
      this.hdr, this.size, member, next, owner := hdr, size, [], null, null;
    }

    /** What arwrite puts out: the header, then the body rounded up to an even length. */
    method Arwrite() returns (out: seq<byte>)
      requires Whole()
      ensures out == hdr + member && |out| == SAR_HDR + Even(size)
    {
      var len := size;
      if len % 2 == 1 {
        len := len + 1;
      }
      out := hdr + member[..len];
    }
  }

  ghost predicate Chained(defs: seq<seq<Sym>>, images: seq<seq<byte>>, size: nat, sym: seq<Arsymref>, current: seq<Sym>) {
    && |defs| == |images| && size == |Flat(images)|
    && sym == Pushed(current, size) + Refs(defs, images)
  }

  lemma ChainedPush(defs: seq<seq<Sym>>, images: seq<seq<byte>>, size: nat, sym: seq<Arsymref>, current: seq<Sym>, s: Sym)
    requires Chained(defs, images, size, sym, current)
    ensures Chained(defs, images, size, [Arsymref(s.kind, s.name, size)] + sym, current + [s])
  {
    PushedSnoc(current, s, size);
    assert [Arsymref(s.kind, s.name, size)] + (Pushed(current, size) + Refs(defs, images))
        == ([Arsymref(s.kind, s.name, size)] + Pushed(current, size)) + Refs(defs, images);
  }

  lemma ChainedInsert(defs: seq<seq<Sym>>, images: seq<seq<byte>>, size: nat, sym: seq<Arsymref>, current: seq<Sym>,
                      image: seq<byte>)
    requires Chained(defs, images, size, sym, current)
    ensures Chained(defs + [current], images + [image], size + |image|, sym, [])
  {
    RefsSnoc(defs, images, current, image);
    FlatSnoc(images, image);
  }

  /** A temporary file. */
  class Arfile {
    var paged: bool
    var disk: seq<byte>
    var size: nat
    var head: Armember?
    var tail: Armember?
    var sym: seq<Arsymref>
    ghost var chain: seq<Armember>
    ghost var core: seq<seq<byte>>
    ghost var images: seq<seq<byte>>
    ghost var defs: seq<seq<Sym>>
    ghost var torn: nat
    ghost var refused: nat

    ghost predicate Linked()
      reads this`head, this`tail, this`chain, this`core
      reads chain`hdr, chain`member, chain`size, chain`next, chain`owner
    {
      && |core| == |chain|
      && (chain == [] ==> head == null && tail == null)
      && (chain != [] ==> head == chain[0] && tail == chain[|chain| - 1])
      && (forall i :: 0 <= i < |chain| ==> chain[i].owner == this && chain[i].Whole())
      && (forall i :: 0 <= i < |chain| ==> chain[i].hdr + chain[i].member == core[i])
      && (forall i :: 0 <= i < |chain| - 1 ==> chain[i].next == chain[i + 1])
      && (chain != [] ==> chain[|chain| - 1].next == null)
    }

    ghost predicate Valid()
      reads this`paged, this`disk, this`head, this`tail, this`chain, this`core, this`images, this`torn
      reads chain`hdr, chain`member, chain`size, chain`next, chain`owner
    {
      Linked() && (!paged ==> disk == []) && Placed(disk, core, images, torn)
    }

    /** The symbols of the members, and those of the member now being scanned, are all in the chain. */
    ghost predicate Counted(current: seq<Sym>)
      reads this`defs, this`images, this`size, this`sym
    {
      Chained(defs, images, size, sym, current)
    }

    /** Spilling changes nothing but where the members are. */
    twostate predicate Spilled()
      reads this`images, this`defs, this`size, this`sym, this`torn, this`refused, this`tail
    {
      && images == old(images) && defs == old(defs) && size == old(size) && sym == old(sym)
      && torn >= old(torn) && refused >= old(refused) && (tail == null || tail == old(tail))
      && (refused == old(refused) ==> torn == old(torn))
    }

    /** If a member is in core, a spill has been refused since. */
    twostate predicate Refused()
      reads this`chain, this`refused
    {
      chain != [] ==> refused > old(refused)
    }

    ghost function Last(): set<Armember>
      reads this`tail
    {
      if tail == null then {} else {tail}
    }

    constructor ()
      ensures Valid() && images == [] && defs == [] && sym == [] && size == 0 && torn == 0 && tail == null
      ensures chain == [] && !paged
    {
      paged, disk, size, head, tail, sym := false, [], 0, null, null, [];
      chain, core, images, defs, torn, refused := [], [], [], [], 0, 0;
    }

    /** Append a member to the chain. */
    method Link(bp: Armember)
      requires Linked() && bp.owner == null && bp.Whole()
      modifies this`head, this`tail, this`chain, this`core, bp`next, bp`owner, Last()`next
      ensures Linked()
      ensures tail == bp && chain == old(chain) + [bp] && core == old(core) + [bp.hdr + bp.member]
      ensures bp.hdr == old(bp.hdr) && bp.member == old(bp.member)
    {
      assert forall i :: 0 <= i < |chain| ==> chain[i] != bp;
      forall i | 0 <= i < |chain| - 1 ensures chain[i] != tail {
        assert chain[i].next == chain[i + 1];
      }
      bp.next := null;
      if tail == null {
        head := bp;
      } else {
        tail.next := bp;
      }
      tail := bp;
      bp.owner := this;
      chain, core := chain + [bp], core + [bp.hdr + bp.member];
    }

    method Arinsert(bp: Armember)
      requires Valid() && bp.owner == null && bp.Whole()
      modifies this`head, this`tail, this`chain, this`core, this`images, bp`next, bp`owner, Last()`next
      ensures Valid()
      ensures tail == bp && chain == old(chain) + [bp]
      ensures images == old(images) + [old(bp.hdr + bp.member)]
    {
      hide Flat, Placed, Linked;
      PlacedInsert(disk, core, images, torn, bp.hdr + bp.member);
      Link(bp);
      images := images + [bp.hdr + bp.member];
    }

    /** Take the first member, now on disk, off the chain. */
    method Unlink(bp: Armember)
      requires Linked() && bp == head
      modifies this`head, this`tail, this`chain, this`core
      ensures Linked() && |old(chain)| > 0 && (tail == null || tail == old(tail))
      ensures chain == old(chain[1..]) && core == old(core[1..])
    {
      head := bp.next;
      if tail == bp {
        tail := bp.next;
      }
      chain, core := chain[1..], core[1..];
    }

    method Header() returns (bp: Armember, image: seq<byte>)
      requires Linked() && head != null
      ensures bp == head && |core| == |chain| > 0 && image == core[0] && |image| > 0
    {
      bp := head;
      image := bp.Arwrite();
    }

    lemma HeadIsFirst()
      requires Valid()
      ensures head == null <==> chain == []
    {
    }

    /**
     * Spill the first member of the chain. The spill is refused when the temporary file cannot be
     * created, which changes nothing, or when the write fails, which leaves what was written of it.
     */
    method Page(os: Machine) returns (ok: bool)
      requires Valid() && head != null && os.Valid()
      modifies this`paged, this`disk, this`head, this`tail, this`chain, this`core, this`torn, this`refused
      modifies os`creates, os`writes, os`torn
      ensures Valid() && Spilled() && os.Valid() && os.torn - old(os.torn) == torn - old(torn)
      ensures os.Accounted()
      ensures |old(core)| == |old(chain)| > 0
      ensures Tally(ok, os.creates, os.writes)
        == os.Spilling(Tally(false, old(os.creates), old(os.writes)), old(paged), |old(chain)|)
      ensures ok ==> chain == old(chain[1..]) && core == old(core[1..]) && disk == old(disk + core[0])
      ensures ok == ((old(paged) || os.Opens(old(os.creates))) && os.Outcome(old(os.writes)).Whole?)
      ensures os.writes == old(os.writes) + if old(paged) || os.Opens(old(os.creates)) then 1 else 0
      ensures ok ==> torn == old(torn) && refused == old(refused)
      ensures !ok ==> chain == old(chain) && core == old(core) && refused == old(refused) + 1
      ensures !ok ==>
        var left := if os.writes == old(os.writes) then 0 else Left(os.Outcome(old(os.writes)), |old(core[0])|);
        disk == old(disk) + old(core[0])[..left] && torn == old(torn) + left
    {
      hide Flat, Placed, Linked, Machine.Valid;
      ok := Open(os);
      if ok {
        ok := Out(os);
      } else {
        refused := refused + 1;
        NothingLeft();
      }
    }

    lemma NothingLeft()
      requires Linked() && head != null
      ensures |core| == |chain| > 0 && disk == disk + core[0][..0]
    {
    }

    /** Write the first member in core, and take it off the chain if that went well. */
    method Out(os: Machine) returns (ok: bool)
      requires Linked() && Placed(disk, core, images, torn) && head != null && os.Valid()
      modifies this`disk, this`head, this`tail, this`chain, this`core, this`torn, this`refused
      modifies os`writes, os`torn
      ensures Linked() && Placed(disk, core, images, torn) && (tail == null || tail == old(tail))
      ensures os.Valid() && os.torn - old(os.torn) == torn - old(torn) && os.Accounted()
      ensures os.writes == old(os.writes) + 1 && ok == os.Outcome(old(os.writes)).Whole?
      ensures |old(core)| == |old(chain)| > 0
      ensures ok ==> chain == old(chain[1..]) && core == old(core[1..]) && disk == old(disk + core[0])
      ensures ok ==> torn == old(torn) && refused == old(refused)
      ensures !ok ==> chain == old(chain) && core == old(core) && refused == old(refused) + 1
      ensures !ok ==> var left := Left(os.Outcome(old(os.writes)), |old(core[0])|);
        disk == old(disk + core[0][..left]) && torn == old(torn) + left
    {
      hide Flat, Placed, Linked, Machine.Valid;
      var bp, image := Header();
      ok := Spill(os, image);
      if ok {
        Unlink(bp);
      } else {
        refused := refused + 1;
      }
    }

    /** Create the temporary file, if it was not before. */
    method Open(os: Machine) returns (ok: bool)
      modifies this`paged, os`creates
      ensures ok ==> paged
      ensures !ok ==> paged == old(paged)
      ensures ok == (old(paged) || os.Opens(old(os.creates)))
      ensures os.creates == old(os.creates) + if old(paged) then 0 else 1
    {
      ok := true;
      if !paged {
        ok := os.Create();
        paged := ok;
      }
    }

    /** Write the image of the first member in core to the disk. */
    method Spill(os: Machine, image: seq<byte>) returns (ok: bool)
      requires os.Valid() && |image| > 0
      requires core != [] && image == core[0] && Placed(disk, core, images, torn)
      modifies this`disk, this`torn, os`writes, os`torn
      ensures os.Valid() && os.torn - old(os.torn) == torn - old(torn) && os.Accounted()
      ensures os.writes == old(os.writes) + 1 && ok == os.Outcome(old(os.writes)).Whole?
      ensures Placed(disk, if ok then core[1..] else core, images, torn)
      ensures ok ==> disk == old(disk) + image && torn == old(torn)
      ensures !ok ==> var left := Left(os.Outcome(old(os.writes)), |image|);
        disk == old(disk) + image[..left] && torn == old(torn) + left
    {
      hide Flat, Placed, Machine.Valid;
      var k;
      ok, k := os.Write(|image|);
      if ok {
        PlacedPage(disk, core, images, torn);
        disk := disk + image;
      } else {
        PlacedTorn(disk, core, images, torn, image[..k]);
        disk, torn := disk + image[..k], torn + k;
      }
    }

    /** Put out what is on disk, a buffer at a time. */
    method Reload(out0: seq<byte>) returns (out: seq<byte>)
      requires paged
      modifies this`paged
      ensures out == out0 + disk
    {
      out := out0;
      var pos := 0;
      while true
        invariant 0 <= pos <= |disk| && out == out0 + disk[..pos]
        decreases |disk| - pos
      {
        var i := if |disk| - pos < 8192 then |disk| - pos else 8192;
        if i == 0 {
          break;
        }
        out := out + disk[pos..pos + i];
        pos := pos + i;
      }
      paged := false;
    }

    /** Put out the chain. */
    method Dump(out0: seq<byte>) returns (out: seq<byte>)
      requires Linked()
      ensures out == out0 + Flat(core)
    {
      hide Flat;
      out := out0;
      var bp := head;
      ghost var i := 0;
      FlatEmpty();
      while bp != null
        invariant 0 <= i <= |chain|
        invariant bp == if i < |chain| then chain[i] else null
        invariant out == out0 + Flat(core[..i])
        decreases |chain| - i
      {
        FlatSnoc(core[..i], core[i]);
        assert core[..i + 1] == core[..i] + [core[i]];
        var image := bp.Arwrite();
        assert image == core[i];
        out := out + image;
        bp := bp.next;
        i := i + 1;
      }
      assert core[..i] == core;
    }

    /** Put out everything inserted: exactly that, unless a write was torn. */
    method Arstream(out0: seq<byte>) returns (out: seq<byte>)
      requires Valid()
      modifies this`paged
      ensures |out| == |out0| + |Flat(images)| + torn
      ensures out == out0 + Flat(images) <==> torn == 0
    {
      hide Flat, Placed;
      PlacedStream(disk, core, images, torn, out0);
      out := out0;
      if paged {
        out := Reload(out);
      }
      assert out == out0 + disk;
      out := Dump(out);
    }
  }
}

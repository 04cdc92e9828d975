/** ar: whole runs, from an empty start to the archive installed. */
module ArRun {
  import opened ArBytes
  import opened ArIndex
  import opened ArStore
  import opened ArSystem
  import opened Ar

  /** The temporary file a member goes to. */
  datatype Place = AtStart | InMiddle | AtEnd

  /** A member to keep: where, what its file is, its header, and its bytes with their padding. */
  datatype Incoming = Incoming(place: Place, obj: Object, hdr: seq<byte>, size: nat, data: seq<byte>)

  predicate Proper(x: Incoming) {
    |x.hdr| == SAR_HDR && |x.data| == Even(x.size)
  }

  predicate AllObjects(xs: seq<Incoming>) {
    forall i :: 0 <= i < |xs| ==> xs[i].obj.Symbols?
  }

  /** The symbols of all members, in the order they are scanned. */
  function AllSyms(xs: seq<Incoming>): seq<Sym> {
    if xs == [] then
      []
    else
      var x := xs[|xs| - 1];
      AllSyms(xs[..|xs| - 1]) + if x.obj.Symbols? then x.obj.syms else []
  }

  /** The members of one file, as they stand in the archive. */
  function ImagesAt(xs: seq<Incoming>, place: Place): seq<seq<byte>> {
    if xs == [] then
      []
    else
      var x := xs[|xs| - 1];
      ImagesAt(xs[..|xs| - 1], place) + if x.place == place then [x.hdr + x.data] else []
  }

  /** The symbols each of them defines. */
  function DefsAt(xs: seq<Incoming>, place: Place): seq<seq<Sym>> {
    if xs == [] then
      []
    else
      var x := xs[|xs| - 1];
      DefsAt(xs[..|xs| - 1], place)
      + if x.place == place then [if x.obj.Symbols? then Listed(x.obj.syms) else []] else []
  }

  /** The symbols of each object stand there one after another, right after those of the members before. */
  lemma {:induction false} AllSymsAt(xs: seq<Incoming>, k: nat)
    requires k < |xs|
    ensures var syms, o := if xs[k].obj.Symbols? then xs[k].obj.syms else [], |AllSyms(xs[..k])|;
      && |AllSyms(xs[..k + 1])| == o + |syms| <= |AllSyms(xs)| && AllSyms(xs)[o..o + |syms|] == syms
  {
    var n := |xs| - 1;
    if k == n {
      assert xs[..k + 1] == xs;
    } else {
      AllSymsAt(xs[..n], k);
      assert xs[..n][..k] == xs[..k] && xs[..n][..k + 1] == xs[..k + 1];
    }
  }

  lemma {:induction false} AsManyDefs(xs: seq<Incoming>, place: Place)
    ensures |DefsAt(xs, place)| == |ImagesAt(xs, place)|
  {
    if xs != [] {
      AsManyDefs(xs[..|xs| - 1], place);
    }
  }

  lemma ObjectsSnoc(xs: seq<Incoming>, x: Incoming)
    ensures AllObjects(xs + [x]) <==> AllObjects(xs) && x.obj.Symbols?
  {
    var ys := xs + [x];
    if AllObjects(ys) {
      forall i | 0 <= i < |xs| ensures xs[i].obj.Symbols? {
        assert ys[i] == xs[i];
      }
      assert ys[|xs|] == x;
    }
  }

  lemma Snoc(xs: seq<Incoming>, x: Incoming)
    ensures AllObjects(xs + [x]) <==> AllObjects(xs) && x.obj.Symbols?
    ensures AllSyms(xs + [x]) == AllSyms(xs) + if x.obj.Symbols? then x.obj.syms else []
    ensures forall p :: ImagesAt(xs + [x], p) == ImagesAt(xs, p) + if x.place == p then [x.hdr + x.data] else []
    ensures forall p :: DefsAt(xs + [x], p)
                        == DefsAt(xs, p) + if x.place == p then [if x.obj.Symbols? then Listed(x.obj.syms) else []] else []
  {
    ObjectsSnoc(xs, x);
    hide AllObjects;
    assert (xs + [x])[..|xs|] == xs;
  }

  /** The members of a file are just those sent to it, in their order, with the symbols listed of each. */
  lemma {:induction false} PartPicks(xs: seq<Incoming>, place: Place) returns (at: seq<nat>)
    ensures forall k: nat :: k in at <==> k < |xs| && xs[k].place == place
    ensures forall i, j :: 0 <= i < j < |at| ==> at[i] < at[j]
    ensures |ImagesAt(xs, place)| == |DefsAt(xs, place)| == |at|
    ensures forall i :: 0 <= i < |at| ==>
      && at[i] < |xs| && ImagesAt(xs, place)[i] == xs[at[i]].hdr + xs[at[i]].data
      && DefsAt(xs, place)[i] == if xs[at[i]].obj.Symbols? then Listed(xs[at[i]].obj.syms) else []
  {
    at := [];
    if xs != [] {
      var n := |xs| - 1;
      at := PartPicks(xs[..n], place);
      hide Listed;
      if xs[n].place == place {
        at := at + [n];
      }
    }
  }

  /** The part of the index theorems that the members for one file make. */
  ghost function PartAt(xs: seq<Incoming>, place: Place): Part {
    AsManyDefs(xs, place);
    Part(Refs(DefsAt(xs, place), ImagesAt(xs, place)), DefsAt(xs, place), ImagesAt(xs, place))
  }

  /** The archive to be: with its index if every member is an object. */
  ghost function Built(xs: seq<Incoming>, hdr: seq<byte>): seq<byte> {
    if AllObjects(xs) then
      Indexing(hdr, PartAt(xs, AtStart), PartAt(xs, InMiddle), PartAt(xs, AtEnd))
    else
      ARMAG + Flat(ImagesAt(xs, AtStart)) + Flat(ImagesAt(xs, InMiddle)) + Flat(ImagesAt(xs, AtEnd))
  }

  /** What one file holds is what was sent to it; defs only while an index can still be written. */
  ghost predicate Has(images: seq<seq<byte>>, defs: seq<seq<Sym>>, xs: seq<Incoming>, place: Place, indexed: bool) {
    images == ImagesAt(xs, place) && (indexed ==> defs == DefsAt(xs, place))
  }

  lemma HasMore(images: seq<seq<byte>>, defs: seq<seq<Sym>>, xs: seq<Incoming>, place: Place, was: bool,
                x: Incoming, defs': seq<seq<Sym>>, indexed: bool)
    requires Has(images, defs, xs, place, was) && (indexed ==> was)
    requires x.place == place && indexed ==> x.obj.Symbols? && defs' == defs + [Listed(x.obj.syms)]
    ensures if x.place == place then Has(images + [x.hdr + x.data], defs', xs + [x], place, indexed)
      else Has(images, defs, xs + [x], place, indexed)
  {
    Snoc(xs, x);
  }

  ghost predicate FilesHave(a: Archive, xs: seq<Incoming>)
    reads a, a.Files()
  {
    var indexed := a.allobj && !a.dupfound;
    && a.astart != null && a.amiddle != null && a.aend != null
    && Has(a.astart.images, a.astart.defs, xs, AtStart, indexed)
    && Has(a.amiddle.images, a.amiddle.defs, xs, InMiddle, indexed)
    && Has(a.aend.images, a.aend.defs, xs, AtEnd, indexed)
  }

  /** What has been found out of the members so far. */
  ghost predicate Scanning(allobj: bool, texts: set<Name>, dup: bool, xs: seq<Incoming>) {
    && allobj == AllObjects(xs)
    && (allobj ==> texts == Seen({}, AllSyms(xs)) && dup == Twice({}, AllSyms(xs)))
  }

  lemma ScanMore(was: bool, texts: set<Name>, dup: bool, xs: seq<Incoming>, x: Incoming,
                 allobj: bool, texts': set<Name>, dup': bool)
    requires Scanning(was, texts, dup, xs) && allobj == (was && x.obj.Symbols?)
    requires allobj ==> texts' == Seen(texts, x.obj.syms) && dup' == (dup || Twice(texts, x.obj.syms))
    ensures Scanning(allobj, texts', dup', xs + [x])
  {
    Snoc(xs, x);
    if allobj {
      SeenConcat({}, AllSyms(xs), x.obj.syms);
    }
  }

  ghost predicate Gathered(a: Archive, xs: seq<Incoming>)
    reads a, a.os, a.Files(), a.Nodes()
  {
    a.Valid() && a.Sized() && a.Complete() && FilesHave(a, xs) && Scanning(a.allobj, a.texts, a.dupfound, xs)
  }

  /** The last members in core of all the files. */
  ghost function Tails(a: Archive): set<Armember>
    reads a, a.Files()
  {
    (if a.astart == null then {} else a.astart.Last())
    + (if a.amiddle == null then {} else a.amiddle.Last())
    + (if a.aend == null then {} else a.aend.Last())
  }

  method FileFor(a: Archive, place: Place) returns (f: Arfile)
    requires a.astart != null && a.amiddle != null && a.aend != null
    ensures f == match place case AtStart => a.astart case InMiddle => a.amiddle case AtEnd => a.aend
  {
    match place
    case AtStart => f := a.astart;
    case InMiddle => f := a.amiddle;
    case AtEnd => f := a.aend;
  }

  /** Read the header of the next member into a new buffer (lines 689-713). */
  method Getdir(a: Archive, ghost xs: seq<Incoming>, x: Incoming) returns (ok: bool, bp: Armember)
    requires Gathered(a, xs)
    modifies a.Files(), a.os
    ensures a.os.Served(ok)
    ensures Gathered(a, xs) && fresh(bp) && bp.owner == null && bp.hdr == x.hdr && bp.size == x.size
    ensures Tails(a) <= old(Tails(a))
  {
    hide Arfile.Valid, Chained, IndexSize, Has, Scanning;
    ok := a.Armalloc();
    bp := new Armember(x.hdr, x.size);
  }

  /** Read a header, and keep the member it belongs to. */
  method Add(a: Archive, ghost xs: seq<Incoming>, x: Incoming) returns (ok: bool)
    requires Gathered(a, xs) && Proper(x)
    modifies a`allobj, a`symdefsize, a`dupfound, a`texts, a.Files(), a.os, Tails(a)`next
    ensures a.os.Served(ok)
    ensures ok ==> Gathered(a, xs + [x])
    ensures ok ==> forall m :: m in Tails(a) ==> m in old(Tails(a)) || fresh(m)
  {
    hide Gathered;
    var bp;
    ok, bp := Getdir(a, xs, x);
    if ok {
      ok := Join(a, xs, x, bp);
    }
  }

  method Join(a: Archive, ghost xs: seq<Incoming>, x: Incoming, bp: Armember) returns (ok: bool)
    requires Gathered(a, xs) && Proper(x) && bp.owner == null && bp.hdr == x.hdr && bp.size == x.size
    modifies a`allobj, a`symdefsize, a`dupfound, a`texts, a.Files(), a.os, Tails(a)`next, bp
    ensures a.os.Served(ok)
    ensures ok ==> Gathered(a, xs + [x])
    ensures ok ==> forall m :: m in Tails(a) ==> m in old(Tails(a)) || m == bp
  {
    hide Seen, Twice, IndexSize, Chained, Has, Scanning, Listed;
    hide Arfile.Valid, Machine.Valid, Machine.Plenty;
    var ap := FileFor(a, x.place);
    ghost var was, texts, dup := a.allobj, a.texts, a.dupfound;
    ghost var s, m, e := PartOf(a.astart), PartOf(a.amiddle), PartOf(a.aend);
    ok := a.Keep(x.obj, bp, x.data, ap);
    if ok {
      assert bp.member == x.data;
      ScanMore(was, texts, dup, xs, x, a.allobj, a.texts, a.dupfound);
      HasMore(s.images, s.defs, xs, AtStart, was && !dup, x, a.astart.defs, a.allobj && !a.dupfound);
      HasMore(m.images, m.defs, xs, InMiddle, was && !dup, x, a.amiddle.defs, a.allobj && !a.dupfound);
      HasMore(e.images, e.defs, xs, AtEnd, was && !dup, x, a.aend.defs, a.allobj && !a.dupfound);
    }
  }

  ghost predicate Empty(f: Arfile)
    reads f`paged, f`disk, f`head, f`tail, f`chain, f`core, f`images, f`torn, f`defs, f`sym, f`size
    reads f.chain`hdr, f.chain`member, f.chain`size, f.chain`next, f.chain`owner
  {
    f.Valid() && f.torn == 0 && f.images == [] && f.defs == [] && f.sym == [] && f.size == 0 && f.tail == null
  }

  /** A control block for a temporary file; with no member in core yet there is nothing to spill. */
  method Newtempfile(a: Archive) returns (ok: bool, f: Arfile)
    requires a.Valid() && a.Files() == {}
    modifies a.os
    ensures a.Valid() && a.Files() == {} && a.os.Served(ok)
    ensures fresh(f) && Empty(f)
  {
    ok := a.Armalloc();
    f := Blank();
  }

  method Blank() returns (f: Arfile)
    ensures fresh(f) && Empty(f) && f.images == [] && f.chain == [] && f.tail == null && !f.paged
  {
    f := new Arfile();
  }

  /** Open the three temporary files. */
  method Newtempfiles(os: Machine) returns (ok: bool, a: Archive)
    requires os.Valid() && os.torn == 0
    modifies os
    ensures a.os == os && os.Served(ok)
    ensures fresh(a) && (ok ==> Gathered(a, []) && fresh(a.Files()) && Tails(a) == {})
  {
    hide Empty, Gathered, Tails, Archive.Valid, Archive.Files, Machine.Plenty;
    a := new Archive(os);
    var s, m, e;
    ok, s, m, e := Controls(a);
    if ok {
      Begin(a, s, m, e);
    }
  }

  method Controls(a: Archive) returns (ok: bool, s: Arfile, m: Arfile, e: Arfile)
    requires a.Valid() && a.Files() == {}
    modifies a.os
    ensures a.Valid() && a.Files() == {} && a.os.Served(ok)
    ensures fresh(s) && fresh(m) && fresh(e)
    ensures ok ==> Empty(s) && Empty(m) && Empty(e) && s != m && s != e && m != e
  {
    hide Empty, Archive.Valid, Archive.Files, Machine.Valid, Machine.Plenty;
    ok, s := Newtempfile(a);
    m, e := s, s;
    if ok {
      ok, m := Newtempfile(a);
    }
    if ok {
      ok, e := Newtempfile(a);
    }
  }

  method Begin(a: Archive, s: Arfile, m: Arfile, e: Arfile)
    requires a.Valid() && a.symdefsize == 0 && a.Files() == {} && a.allobj && !a.dupfound && a.texts == {}
    requires Empty(s) && Empty(m) && Empty(e) && s != m && s != e && m != e
    modifies a`astart, a`amiddle, a`aend
    ensures Gathered(a, []) && a.Files() == {s, m, e} && Tails(a) == {}
    ensures a.Valid() && a.Sized() && a.Complete() && a.astart == s && a.amiddle == m && a.aend == e
  {
    hide Arfile.Valid, Machine.Valid;
    a.astart, a.amiddle, a.aend := s, m, e;
  }

  lemma PartIsBuilt(a: Archive, xs: seq<Incoming>, hdr: seq<byte>)
    requires Gathered(a, xs) && (a.allobj ==> !a.dupfound)
    ensures a.Whole(hdr) == Built(xs, hdr)
  {
    hide Flat, Refs, Arfile.Valid, Pushed, Indexing;
    AsManyDefs(xs, AtStart);
    AsManyDefs(xs, InMiddle);
    AsManyDefs(xs, AtEnd);
    CompleteIsIndexed(a);
  }

  /**
   * Gather any members in any order and install them, whatever calls of malloc, create and write fail. The
   * archive is written unless all members are objects and two text symbols have one name, and it is the
   * one that was to be built if and only if no write to a temporary file failed part of the way. The run
   * ends early only when malloc failed last; if malloc never fails, nothing is spilled.
   */
  method Rebuild(os: Machine, xs: seq<Incoming>, hdr: seq<byte>) returns (ok: bool, written: bool, out: seq<byte>)
    requires os.Valid() && os.writes == os.torn == 0
    requires |hdr| == SAR_HDR && forall i :: 0 <= i < |xs| ==> Proper(xs[i])
    modifies os
    ensures !ok ==> os.mallocs > 0 && !os.Grants(os.mallocs - 1)
    ensures os.Plenty() ==> ok && os.writes == 0
    ensures ok ==> (written <==> !(AllObjects(xs) && TextTwice(AllSyms(xs))))
    ensures ok && written ==> (out == Built(xs, hdr) <==> os.Clean())
    ensures ok && written ==> |out| == |Built(xs, hdr)| + os.torn
    ensures ok && written && os.Reliable() ==> out == Built(xs, hdr)
  {
    hide Gathered, Built, TextTwice, Archive.Files, Tails, Machine.Clean;
    written, out := false, [];
    var a;
    ok, a := Newtempfiles(os);
    if !ok {
      return;
    }
    var i := 0;
    assert xs[..0] == [];
    while i < |xs|
      invariant 0 <= i <= |xs| && ok && a.os == os && fresh(a) && fresh(a.Files()) && fresh(Tails(a))
      invariant Gathered(a, xs[..i]) && os.Served(ok)
    {
      assert xs[..i + 1] == xs[..i] + [xs[i]];
      ok := Add(a, xs[..i], xs[i]);
      if !ok {
        return;
      }
      i := i + 1;
    }
    assert xs[..i] == xs;
    written, out := Finish(a, xs, hdr);
    os.ReliableIsClean();
  }

  method Finish(a: Archive, ghost xs: seq<Incoming>, hdr: seq<byte>) returns (written: bool, out: seq<byte>)
    requires Gathered(a, xs) && |hdr| == SAR_HDR
    modifies a.Files()`paged
    ensures written <==> !(AllObjects(xs) && TextTwice(AllSyms(xs)))
    ensures written ==> (out == Built(xs, hdr) <==> a.os.Clean()) && |out| == |Built(xs, hdr)| + a.os.torn
  {
    hide Arfile.Valid, Machine.Valid, Machine.Clean, Chained, Built, TextTwice, IndexSize, Has;
    TwiceIs(AllSyms(xs));
    if a.allobj ==> !a.dupfound {
      PartIsBuilt(a, xs, hdr);
    }
    written, out := a.Install(hdr);
  }

  /**
   * A run that ends well with a wrong archive. It keeps x and y, which are no objects, when the next malloc
   * fails. The write of x to its temporary file fails after one byte, the one of y succeeds, so malloc is
   * called again and grants. Then x stands in the archive behind the byte that was left.
   */
  method TornRun(x: Incoming, y: Incoming, hdr: seq<byte>) returns (ok: bool, written: bool, out: seq<byte>)
    requires Proper(x) && Proper(y) && |hdr| == SAR_HDR
    ensures ok && written && out != ARMAG + (x.hdr + x.data) + (y.hdr + y.data)
  {
    hide Archive.Valid, Archive.Sized, Chained, Flat;
    var os := new Machine(i => i > 0, _ => true, i => if i == 0 then Short(1) else Written.Whole);
    var a, s, m, e := TwoMembers(os, x, y);
    ok := Reclaim(a);
    assert !Harmless(os.Outcome(0)) && !os.Clean();
    written, out := a.Install(hdr);
    TwoParts(a, x, y, hdr);
  }

  /** malloc fails, and is called again once a member has been spilled. */
  method Reclaim(a: Archive) returns (ok: bool)
    requires a.Valid() && a.Sized() && a.Complete()
    requires a.os.mallocs == a.os.creates == a.os.writes == 0
    requires !a.os.Grants(0) && a.os.Grants(1) && a.os.Opens(0) && a.os.Opens(1)
    requires a.os.Outcome(0).Short? && a.os.Outcome(1).Whole?
    requires a.astart != null && a.astart.chain != [] && !a.astart.paged
    requires a.amiddle != null && a.amiddle.chain == []
    requires a.aend != null && a.aend.chain != [] && !a.aend.paged
    modifies a.Files(), a.os
    ensures a.Valid() && a.Sized() && a.Complete() && a.Spilled() && ok && a.os.writes == 2
  {
    hide Archive.Valid, Chained;
    ok := a.Malloc();
    ok := a.Getspace();
    ok := a.Malloc();
  }

  lemma TwoParts(a: Archive, x: Incoming, y: Incoming, hdr: seq<byte>)
    requires !a.allobj && a.astart != null && a.amiddle != null && a.aend != null
    requires a.astart.images == [x.hdr + x.data] && a.amiddle.images == [] && a.aend.images == [y.hdr + y.data]
    ensures a.Whole(hdr) == ARMAG + (x.hdr + x.data) + (y.hdr + y.data)
  {
    FlatEmpty();
    FlatSnoc([], x.hdr + x.data);
    FlatSnoc([], y.hdr + y.data);
    hide Flat;
    assert [] + [x.hdr + x.data] == [x.hdr + x.data] && [] + [y.hdr + y.data] == [y.hdr + y.data];
  }

  /** An archive in the making, with two members in core. */
  method TwoMembers(os: Machine, x: Incoming, y: Incoming)
    returns (a: Archive, s: Arfile, m: Arfile, e: Arfile)
    requires os.Valid() && os.torn == 0 && Proper(x) && Proper(y)
    ensures fresh(a) && a.os == os && a.Valid() && a.Sized() && a.Complete() && !a.allobj && fresh(a.Files())
    ensures a.astart == s && a.amiddle == m && a.aend == e
    ensures s.images == [x.hdr + x.data] && s.chain != [] && !s.paged
    ensures m.images == [] && m.chain == []
    ensures e.images == [y.hdr + y.data] && e.chain != [] && !e.paged
  {
    hide Archive.Valid, Archive.Sized, Arfile.Counted, IndexSize;
    a, s, m, e := ThreeFiles(os);
    a.Kind(NotObject);
    Hold(a, x, s);
    Hold(a, y, e);
  }

  method ThreeFiles(os: Machine) returns (a: Archive, s: Arfile, m: Arfile, e: Arfile)
    requires os.Valid() && os.torn == 0
    ensures fresh(a) && a.os == os && a.Valid() && a.Sized() && a.Complete()
    ensures a.astart == s && a.amiddle == m && a.aend == e && fresh(s) && fresh(m) && fresh(e)
    ensures s != m && s != e && m != e
    ensures s.images == m.images == e.images == [] && s.chain == m.chain == e.chain == []
    ensures !s.paged && !m.paged && !e.paged && s.tail == m.tail == e.tail == null
  {
    hide Empty, Gathered, Tails, Arfile.Valid, Chained;
    s := Blank();
    m := Blank();
    e := Blank();
    a := new Archive(os);
    Begin(a, s, m, e);
  }

  method Hold(a: Archive, x: Incoming, ap: Arfile)
    requires a.Valid() && a.Sized() && ap in a.Files() && ap.Counted([]) && Proper(x)
    modifies ap`head, ap`tail, ap`chain, ap`core, ap`images, ap`defs, ap`size, ap.Last()`next
    ensures a.Valid() && a.Sized() && ap.Counted([]) && ap.chain != []
    ensures ap.images == old(ap.images) + [x.hdr + x.data]
  {
    hide Arfile.Valid, IndexSize, Chained;
    var bp := new Armember(x.hdr, x.size);
    a.Grow(bp, x.data);
    assert bp.member == x.data;
    a.Insert(bp, Even(x.size), ap, []);
  }

  /** The index of the archive built: an entry is there if and only if some member defines its symbol and
      stands at its offset. */
  lemma BuiltIndexIsRight(xs: seq<Incoming>, f: Found)
    ensures var s, m, e := PartAt(xs, AtStart), PartAt(xs, InMiddle), PartAt(xs, AtEnd);
      f in ReadIndex(Body(s, m, e)) <==> exists k :: Places(s, m, e, k, f)
  {
    AsManyDefs(xs, AtStart);
    AsManyDefs(xs, InMiddle);
    AsManyDefs(xs, AtEnd);
    IndexIsRight(PartAt(xs, AtStart), PartAt(xs, InMiddle), PartAt(xs, AtEnd), f);
  }
}

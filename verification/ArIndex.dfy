/** ar: the symbol index, written before the members whose offsets it holds. */
module ArIndex {
  import opened ArBytes

  const SARMAG := 8
  const ARMAG: seq<byte> := [33, 60, 97, 114, 99, 104, 62, 10]
  const WORD := 0x1_0000_0000

  /** A symbol name: a string, so without a zero byte. */
  type Name = s: seq<byte> | forall i :: 0 <= i < |s| ==> s[i] != 0 witness []

  datatype Sym = Sym(kind: byte, name: Name)

  /** A symbol with the offset, in its temporary file, of the member that defines it. */
  datatype Arsymref = Arsymref(kind: byte, name: Name, offset: int)

  /** An index entry as a loader reads it back. */
  datatype Found = Found(kind: byte, offset: int, name: Name)

  /** One temporary file: its symbol chain, and the members with the symbols each one defines. */
  datatype Part = Part(sym: seq<Arsymref>, defs: seq<seq<Sym>>, images: seq<seq<byte>>)

  // ---- the bytes of the index ---------------------------------------------------

  function EntrySize(name: Name): nat {
    4 + (|name| + 1) + 1
  }

  function IndexSize(refs: seq<Arsymref>): nat {
    if refs == [] then 0 else EntrySize(refs[0].name) + IndexSize(refs[1..])
  }

  function LowByte(x: int): byte {
    (x % 256) as byte
  }

  function Word(off: int): seq<byte> {
    [LowByte(off), LowByte(off / 256), LowByte(off / 0x1_0000), LowByte(off / 0x100_0000)]
  }

  function Entry(r: Arsymref, base: int): seq<byte> {
    [r.kind] + Word(r.offset + base) + r.name + [0]
  }

  function Index(refs: seq<Arsymref>, base: int): seq<byte> {
    if refs == [] then [] else Entry(refs[0], base) + Index(refs[1..], base)
  }

  lemma {:induction false} IndexLength(refs: seq<Arsymref>, base: int)
    ensures |Index(refs, base)| == IndexSize(refs)
  {
    if refs != [] {
      IndexLength(refs[1..], base);
    }
  }

  // ---- reading it back ------------------------------------------------------------

  /** The bytes before the first zero. */
  function UpToZero(b: seq<byte>): Name {
    if b == [] || b[0] == 0 then [] else [b[0]] + UpToZero(b[1..])
  }

  function ReadWord(b: seq<byte>): int
    requires |b| >= 4
  {
    b[0] as int + 256 * b[1] as int + 0x1_0000 * b[2] as int + 0x100_0000 * b[3] as int
  }

  function ReadIndex(b: seq<byte>): seq<Found> {
    if |b| < 6 then
      []
    else
      var name := UpToZero(b[5..]);
      [Found(b[0], ReadWord(b[1..5]), name)]
      + (if 6 + |name| <= |b| then ReadIndex(b[6 + |name|..]) else [])
  }

  function Resolved(refs: seq<Arsymref>, base: int): seq<Found> {
    seq(|refs|, j requires 0 <= j < |refs| => Found(refs[j].kind, (refs[j].offset + base) % WORD, refs[j].name))
  }

  lemma {:induction false} UpToZeroOf(name: Name, rest: seq<byte>)
    ensures UpToZero(name + [0] + rest) == name
  {
    var b := name + [0] + rest;
    if name != [] {
      assert b[1..] == name[1..] + [0] + rest;
      UpToZeroOf(name[1..], rest);
    }
  }

  lemma WordRoundTrip(off: int)
    ensures ReadWord(Word(off)) == off % WORD
  {
    var a := off / 256;
    var b := a / 256;
    var c := b / 256;
    assert off / 0x1_0000 == b;
    assert off / 0x100_0000 == c;
  }

  /** An entry is the type, the offset's four bytes with the lowest first, the name and a zero. */
  lemma EntryBytes(r: Arsymref, base: int)
    ensures var e := Entry(r, base);
      && |e| == 6 + |r.name| && e[0] == r.kind && e[5..5 + |r.name|] == r.name && e[|e| - 1] == 0
      && e[1] as int + 256 * e[2] as int + 0x1_0000 * e[3] as int + 0x100_0000 * e[4] as int
         == (r.offset + base) % 0x1_0000_0000
  {
    var e, w := Entry(r, base), Word(r.offset + base);
    WordRoundTrip(r.offset + base);
    assert e[1] == w[0] && e[2] == w[1] && e[3] == w[2] && e[4] == w[3];
  }

  lemma ReadEntry(r: Arsymref, base: int, rest: seq<byte>)
    ensures ReadIndex(Entry(r, base) + rest)
      == [Found(r.kind, (r.offset + base) % WORD, r.name)] + ReadIndex(rest)
  {
    var b := Entry(r, base) + rest;
    assert b[5..] == r.name + [0] + rest;
    UpToZeroOf(r.name, rest);
    assert b[1..5] == Word(r.offset + base);
    WordRoundTrip(r.offset + base);
    assert b[6 + |r.name|..] == rest;
  }

  lemma ResolvedHead(refs: seq<Arsymref>, base: int)
    requires refs != []
    ensures Resolved(refs, base)
      == [Found(refs[0].kind, (refs[0].offset + base) % WORD, refs[0].name)] + Resolved(refs[1..], base)
  {
  }

  /** Reading undoes writing, whatever follows. */
  lemma {:induction false} IndexRoundTrip(refs: seq<Arsymref>, base: int, rest: seq<byte>)
    ensures ReadIndex(Index(refs, base) + rest) == Resolved(refs, base) + ReadIndex(rest)
  {
    hide ReadIndex, Entry, Resolved;
    if refs == [] {
      assert Index(refs, base) + rest == rest;
      assert Resolved(refs, base) == [] by {
        ResolvedNone(base);
      }
    } else {
      var later := Index(refs[1..], base) + rest;
      assert Index(refs, base) + rest == Entry(refs[0], base) + later;
      ReadEntry(refs[0], base, later);
      IndexRoundTrip(refs[1..], base, rest);
      ResolvedHead(refs, base);
    }
  }

  lemma ResolvedNone(base: int)
    ensures Resolved([], base) == []
  {
  }

  // ---- which member an entry belongs to ---------------------------------------------

  /** The symbol chain after a member's symbols were pushed on it one by one. */
  function Pushed(syms: seq<Sym>, offset: int): seq<Arsymref> {
    if syms == [] then
      []
    else
      var last := syms[|syms| - 1];
      [Arsymref(last.kind, last.name, offset)] + Pushed(syms[..|syms| - 1], offset)
  }

  function Refs(defs: seq<seq<Sym>>, images: seq<seq<byte>>): seq<Arsymref>
    requires |defs| == |images|
  {
    if defs == [] then
      []
    else
      var n := |defs| - 1;
      Pushed(defs[n], |Flat(images[..n])|) + Refs(defs[..n], images[..n])
  }

  lemma PushedSnoc(syms: seq<Sym>, s: Sym, offset: int)
    ensures Pushed(syms + [s], offset) == [Arsymref(s.kind, s.name, offset)] + Pushed(syms, offset)
  {
    assert (syms + [s])[..|syms|] == syms;
  }

  lemma RefsSnoc(defs: seq<seq<Sym>>, images: seq<seq<byte>>, current: seq<Sym>, image: seq<byte>)
    requires |defs| == |images|
    ensures Refs(defs + [current], images + [image]) == Pushed(current, |Flat(images)|) + Refs(defs, images)
  {
    assert (defs + [current])[..|defs|] == defs;
    assert (images + [image])[..|defs|] == images;
  }

  ghost predicate Indexed(p: Part) {
    |p.defs| == |p.images| && p.sym == Refs(p.defs, p.images)
  }

  lemma {:induction false} PushedHas(syms: seq<Sym>, offset: int, r: Arsymref)
    ensures r in Pushed(syms, offset) <==> r.offset == offset && Sym(r.kind, r.name) in syms
  {
    if syms != [] {
      var n := |syms| - 1;
      PushedHas(syms[..n], offset, r);
      assert syms == syms[..n] + [syms[n]];
    }
  }

  ghost predicate Defines(defs: seq<seq<Sym>>, images: seq<seq<byte>>, k: int, r: Arsymref) {
    0 <= k < |defs| == |images| && Sym(r.kind, r.name) in defs[k] && r.offset == |Flat(images[..k])|
  }

  lemma DefinesInit(defs: seq<seq<Sym>>, images: seq<seq<byte>>, n: nat, k: int, r: Arsymref)
    requires |defs| == |images| == n + 1 && k < n
    ensures Defines(defs, images, k, r) <==> Defines(defs[..n], images[..n], k, r)
  {
    if 0 <= k {
      assert images[..k] == images[..n][..k];
    }
  }

  lemma {:induction false} RefsHas(defs: seq<seq<Sym>>, images: seq<seq<byte>>, r: Arsymref)
    requires |defs| == |images|
    ensures r in Refs(defs, images) <==> exists k :: Defines(defs, images, k, r)
  {
    if defs != [] {
      var n := |defs| - 1;
      PushedHas(defs[n], |Flat(images[..n])|, r);
      RefsHas(defs[..n], images[..n], r);
      forall k | k < n ensures Defines(defs, images, k, r) <==> Defines(defs[..n], images[..n], k, r) {
        DefinesInit(defs, images, n, k, r);
      }
      assert Defines(defs, images, n, r) <==> r in Pushed(defs[n], |Flat(images[..n])|);
      assert forall k :: Defines(defs[..n], images[..n], k, r) ==> k < n;
      assert forall k :: Defines(defs, images, k, r) ==> k <= n;
    }
  }

  /** A member stands where the members before it end. */
  lemma FlatAt(images: seq<seq<byte>>, k: nat)
    requires k < |images|
    ensures var at := |Flat(images[..k])|;
      at + |images[k]| <= |Flat(images)| && Flat(images)[at..at + |images[k]|] == images[k]
  {
    assert images == images[..k] + images[k..];
    FlatConcat(images[..k], images[k..]);
    FlatHead(images[k..]);
  }

  // ---- the archive --------------------------------------------------------------------

  function Members(s: Part, m: Part, e: Part): seq<seq<byte>> {
    s.images + m.images + e.images
  }

  function Definitions(s: Part, m: Part, e: Part): seq<seq<Sym>> {
    s.defs + m.defs + e.defs
  }

  function BodySize(s: Part, m: Part, e: Part): nat {
    IndexSize(s.sym) + IndexSize(m.sym) + IndexSize(e.sym)
  }

  /** Where the first member after the index stands. */
  function FirstMember(s: Part, m: Part, e: Part): nat {
    SARMAG + SAR_HDR + Even(BodySize(s, m, e))
  }

  /** Where member k stands. */
  function Position(s: Part, m: Part, e: Part, k: nat): nat
    requires k <= |Members(s, m, e)|
  {
    FirstMember(s, m, e) + |Flat(Members(s, m, e)[..k])|
  }

  /** The body of the index, with its padding. */
  function Body(s: Part, m: Part, e: Part): seq<byte> {
    var base := FirstMember(s, m, e);
    var next := base + |Flat(s.images)|;
    Index(s.sym, base) + Index(m.sym, next) + Index(e.sym, next + |Flat(m.images)|)
    + if BodySize(s, m, e) % 2 == 1 then [0] else []
  }

  /** The archive with its index; hdr is the header of the index. */
  function Indexing(hdr: seq<byte>, s: Part, m: Part, e: Part): seq<byte> {
    ARMAG + hdr + Body(s, m, e) + Flat(s.images) + Flat(m.images) + Flat(e.images)
  }

  lemma BodyLength(s: Part, m: Part, e: Part)
    ensures |Body(s, m, e)| == Even(BodySize(s, m, e))
  {
    var base := FirstMember(s, m, e);
    var next := base + |Flat(s.images)|;
    IndexLength(s.sym, base);
    IndexLength(m.sym, next);
    IndexLength(e.sym, next + |Flat(m.images)|);
  }

  lemma FlatMembers(s: Part, m: Part, e: Part)
    ensures Flat(Members(s, m, e)) == Flat(s.images) + Flat(m.images) + Flat(e.images)
  {
    FlatConcat(s.images, m.images);
    FlatConcat(s.images + m.images, e.images);
  }

  /** Every member stands at its position, and the index before the first one. */
  lemma MembersStand(hdr: seq<byte>, s: Part, m: Part, e: Part, k: nat)
    requires |hdr| == SAR_HDR && k < |Members(s, m, e)|
    ensures var a, at, image := Indexing(hdr, s, m, e), Position(s, m, e, k), Members(s, m, e)[k];
      at + |image| <= |a| && a[at..at + |image|] == image
  {
    hide Flat, Body;
    BodyLength(s, m, e);
    FlatMembers(s, m, e);
    FlatAt(Members(s, m, e), k);
    var front, flat := ARMAG + hdr + Body(s, m, e), Flat(Members(s, m, e));
    assert Indexing(hdr, s, m, e) == front + flat;
    assert |front| == FirstMember(s, m, e);
  }

  lemma PadReads(pad: seq<byte>)
    requires |pad| < 6
    ensures ReadIndex(pad) == []
  {
  }

  /** Three runs of entries one after another read back as three runs. */
  lemma ThreeReads(s: seq<Arsymref>, a: int, m: seq<Arsymref>, b: int, e: seq<Arsymref>, c: int, pad: seq<byte>)
    requires |pad| < 6
    ensures ReadIndex(Index(s, a) + Index(m, b) + Index(e, c) + pad)
      == Resolved(s, a) + (Resolved(m, b) + Resolved(e, c))
  {
    hide Index, Resolved, ReadIndex;
    PadReads(pad);
    IndexRoundTrip(e, c, pad);
    IndexRoundTrip(m, b, Index(e, c) + pad);
    IndexRoundTrip(s, a, Index(m, b) + (Index(e, c) + pad));
    assert Index(s, a) + Index(m, b) + Index(e, c) + pad == Index(s, a) + (Index(m, b) + (Index(e, c) + pad));
    assert Resolved(e, c) + [] == Resolved(e, c);
  }

  lemma BodyReads(s: Part, m: Part, e: Part)
    ensures var base := FirstMember(s, m, e);
      var next := base + |Flat(s.images)|;
      ReadIndex(Body(s, m, e))
        == Resolved(s.sym, base) + (Resolved(m.sym, next) + Resolved(e.sym, next + |Flat(m.images)|))
  {
    hide Index, Resolved, Flat, IndexSize, ReadIndex;
    var base := FirstMember(s, m, e);
    var next := base + |Flat(s.images)|;
    var pad: seq<byte> := if BodySize(s, m, e) % 2 == 1 then [0] else [];
    ThreeReads(s.sym, base, m.sym, next, e.sym, next + |Flat(m.images)|, pad);
  }

  /** An entry read back from the index, and the member whose symbol and position it gives. */
  ghost predicate Places(s: Part, m: Part, e: Part, k: int, f: Found) {
    && 0 <= k < |Members(s, m, e)| == |Definitions(s, m, e)|
    && Sym(f.kind, f.name) in Definitions(s, m, e)[k]
    && f.offset == Position(s, m, e, k) % WORD
  }

  /** The same for one temporary file whose members start at base. */
  ghost predicate PlacesIn(p: Part, base: int, k: int, f: Found) {
    && 0 <= k < |p.images| == |p.defs|
    && Sym(f.kind, f.name) in p.defs[k]
    && f.offset == (|Flat(p.images[..k])| + base) % WORD
  }

  lemma ResolvedPlaces(p: Part, base: int, f: Found)
    requires Indexed(p)
    ensures f in Resolved(p.sym, base) <==> exists k :: PlacesIn(p, base, k, f)
  {
    hide Refs, Flat;
    if j :| 0 <= j < |p.sym| && Resolved(p.sym, base)[j] == f {
      var r := p.sym[j];
      RefsHas(p.defs, p.images, r);
      var k :| Defines(p.defs, p.images, k, r);
      assert PlacesIn(p, base, k, f);
    }
    if k :| PlacesIn(p, base, k, f) {
      var r := Arsymref(f.kind, f.name, |Flat(p.images[..k])|);
      RefsHas(p.defs, p.images, r);
      assert Defines(p.defs, p.images, k, r);
      var j :| 0 <= j < |p.sym| && p.sym[j] == r;
      assert Resolved(p.sym, base)[j] == f;
    }
  }

  /** Members of later files stand behind all those of earlier ones. */
  lemma FlatShift(a: seq<seq<byte>>, b: seq<seq<byte>>, c: seq<seq<byte>>, k: nat)
    requires k <= |b|
    ensures |Flat((a + b + c)[..|a| + k])| == |Flat(a)| + |Flat(b[..k])|
  {
    assert (a + b + c)[..|a| + k] == a + b[..k];
    FlatConcat(a, b[..k]);
  }

  lemma StartPlaces(s: Part, m: Part, e: Part, k: nat, f: Found)
    requires Indexed(s) && Indexed(m) && Indexed(e) && k < |s.images|
    ensures Places(s, m, e, k, f) <==> PlacesIn(s, FirstMember(s, m, e), k, f)
  {
    assert Members(s, m, e)[..k] == s.images[..k];
  }

  lemma MiddlePlaces(s: Part, m: Part, e: Part, k: nat, f: Found)
    requires Indexed(s) && Indexed(m) && Indexed(e) && k < |m.images|
    ensures Places(s, m, e, |s.images| + k, f) <==> PlacesIn(m, FirstMember(s, m, e) + |Flat(s.images)|, k, f)
  {
    hide Flat, Refs;
    FlatShift(s.images, m.images, e.images, k);
  }

  lemma EndPlaces(s: Part, m: Part, e: Part, k: nat, f: Found)
    requires Indexed(s) && Indexed(m) && Indexed(e) && k < |e.images|
    ensures Places(s, m, e, |s.images| + |m.images| + k, f)
      <==> PlacesIn(e, FirstMember(s, m, e) + |Flat(s.images)| + |Flat(m.images)|, k, f)
  {
    hide Flat, Refs;
    FlatShift(s.images + m.images, e.images, [], k);
    assert s.images + m.images + e.images + [] == Members(s, m, e);
    FlatConcat(s.images, m.images);
  }

  /** The entries of the index are exactly the symbols of the members, each with its member's position. */
  lemma IndexIsRight(s: Part, m: Part, e: Part, f: Found)
    requires Indexed(s) && Indexed(m) && Indexed(e)
    ensures f in ReadIndex(Body(s, m, e)) <==> exists k :: Places(s, m, e, k, f)
  {
    hide ReadIndex, Body, Resolved, Flat, Refs, FirstMember, Places, PlacesIn;
    var base := FirstMember(s, m, e);
    var next := base + |Flat(s.images)|;
    var last := next + |Flat(m.images)|;
    BodyReads(s, m, e);
    ResolvedPlaces(s, base, f);
    ResolvedPlaces(m, next, f);
    ResolvedPlaces(e, last, f);
    if k :| PlacesIn(s, base, k, f) {
      BoundIn(s, base, k, f);
      StartPlaces(s, m, e, k, f);
    }
    if k :| PlacesIn(m, next, k, f) {
      BoundIn(m, next, k, f);
      MiddlePlaces(s, m, e, k, f);
    }
    if k :| PlacesIn(e, last, k, f) {
      BoundIn(e, last, k, f);
      EndPlaces(s, m, e, k, f);
    }
    if k :| Places(s, m, e, k, f) {
      Bound(s, m, e, k, f);
      var i := k - |s.images|;
      if i < 0 {
        StartPlaces(s, m, e, k, f);
      } else if i < |m.images| {
        MiddlePlaces(s, m, e, i, f);
      } else {
        EndPlaces(s, m, e, i - |m.images|, f);
      }
    }
  }

  lemma BoundIn(p: Part, base: int, k: int, f: Found)
    requires PlacesIn(p, base, k, f)
    ensures 0 <= k < |p.images|
  {
  }

  lemma Bound(s: Part, m: Part, e: Part, k: int, f: Found)
    requires Places(s, m, e, k, f)
    ensures 0 <= k < |s.images| + |m.images| + |e.images|
  {
  }

  ghost predicate Leads(archive: seq<byte>, offset: int, image: seq<byte>) {
    0 <= offset <= offset + |image| <= |archive| && archive[offset..offset + |image|] == image
  }

  ghost predicate Member(s: Part, m: Part, e: Part, k: int, sym: Sym, image: seq<byte>) {
    && 0 <= k < |Members(s, m, e)| == |Definitions(s, m, e)|
    && sym in Definitions(s, m, e)[k] && Members(s, m, e)[k] == image
  }

  /** In an archive of less than 4 GiB an entry leads to a member that defines its symbol. */
  lemma EntryFindsMember(hdr: seq<byte>, s: Part, m: Part, e: Part, f: Found) returns (k: nat, image: seq<byte>)
    requires Indexed(s) && Indexed(m) && Indexed(e) && |hdr| == SAR_HDR
    requires f in ReadIndex(Body(s, m, e)) && |Indexing(hdr, s, m, e)| < WORD
    ensures Member(s, m, e, k, Sym(f.kind, f.name), image)
    ensures Leads(Indexing(hdr, s, m, e), f.offset, image)
  {
    hide ReadIndex, Body, Flat, Refs, Indexing, Position;
    IndexIsRight(s, m, e, f);
    k :| Places(s, m, e, k, f);
    image := Members(s, m, e)[k];
    MembersStand(hdr, s, m, e, k);
  }
}

/** ar: the bytes of members laid end to end. */
module ArBytes {
  newtype byte = x | 0 <= x < 256

  const SAR_HDR := 60

  function Even(n: nat): nat {
    if n % 2 == 1 then n + 1 else n
  }

  /** The members of a file, one after another, as they stand in an archive. */
  function Flat(images: seq<seq<byte>>): seq<byte> {
    if images == [] then [] else Flat(images[..|images| - 1]) + images[|images| - 1]
  }

  lemma FlatEmpty()
    ensures Flat([]) == []
  {
  }

  lemma FlatSnoc(images: seq<seq<byte>>, image: seq<byte>)
    ensures Flat(images + [image]) == Flat(images) + image
  {
    assert (images + [image])[..|images|] == images;
  }

  lemma {:induction false} FlatConcat(a: seq<seq<byte>>, b: seq<seq<byte>>)
    ensures Flat(a + b) == Flat(a) + Flat(b)
  {
    if b == [] {
      assert a + b == a;
    } else {
      var init, last := b[..|b| - 1], b[|b| - 1];
      FlatConcat(a, init);
      assert a + b == (a + init) + [last];
      FlatSnoc(a + init, last);
    }
  }

  lemma FlatHead(images: seq<seq<byte>>)
    requires images != []
    ensures Flat(images) == images[0] + Flat(images[1..])
  {
    assert images == [images[0]] + images[1..];
    FlatConcat([images[0]], images[1..]);
    FlatSnoc([], images[0]);
    assert [] + [images[0]] == [images[0]];
  }

  /** s is what stands at some places of from, in their order. */
  ghost predicate Picked<T>(s: seq<T>, from: seq<T>, at: seq<nat>) {
    && |at| == |s|
    && (forall i :: 0 <= i < |at| ==> at[i] < |from| && s[i] == from[at[i]])
    && (forall i, j :: 0 <= i < j < |at| ==> at[i] < at[j])
  }

  lemma PickMore<T>(s: seq<T>, from: seq<T>, at: seq<nat>, x: T)
    requires Picked(s, from, at)
    ensures Picked(s, from + [x], at) && Picked(s + [x], from + [x], at + [|from|])
  {
  }
}

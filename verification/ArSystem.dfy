/** ar: the system calls the program makes, with every pattern of failures they may show. */
module ArSystem {

  /** What becomes of a write: all is written, or it fails with some first bytes, or none, written. */
  datatype Written = Whole | Short(k: nat)

  /** Whether some file has been made to spill yet, and the calls of create and write made so far. */
  datatype Tally = Tally(ok: bool, creates: nat, writes: nat)

  predicate Harmless(w: Written) {
    w == Whole || w == Short(0)
  }

  /** How many of n bytes a write leaves in the file. */
  function Left(w: Written, n: nat): nat {
    match w
    case Whole => n
    case Short(k) => if k < n then k else n
  }

  /** What becomes of every call of malloc, of create and of write, each counted from the start. */
  class Machine {
    const malloc: nat -> bool
    const create: nat -> bool
    const write: nat -> Written
    var mallocs: nat
    var creates: nat
    var writes: nat
    ghost var torn: nat

    /** Whether call number i of malloc succeeds. */
    predicate Grants(i: nat) {
      malloc(i)
    }

    /** Whether call number i of create succeeds. */
    predicate Opens(i: nat) {
      create(i)
    }

    /** What becomes of call number i of write. */
    function Outcome(i: nat): Written {
      write(i)
    }

    /** None of the writes made so far failed part of the way. */
    ghost predicate Clean()
      reads this`writes
    {
      forall i :: 0 <= i < writes ==> Harmless(Outcome(i))
    }

    /** No call of write fails part of the way. */
    ghost predicate Reliable() {
      forall i :: Harmless(Outcome(i))
    }

    lemma ReliableIsClean()
      ensures Reliable() ==> Clean()
    {
    }

    /** torn counts the bytes that failed writes left behind. */
    ghost predicate Valid()
      reads this`writes, this`torn
    {
      torn == 0 <==> Clean()
    }

    /** No call of malloc fails. */
    ghost predicate Plenty() {
      forall i :: Grants(i)
    }

    /** Bytes are left behind exactly when a write made since failed part of the way. */
    twostate predicate Accounted()
      reads this`writes, this`torn
    {
      && old(writes) <= writes && old(torn) <= torn
      && (torn == old(torn) <==> forall i :: old(writes) <= i < writes ==> Harmless(Outcome(i)))
    }

    /** Only a refusal from malloc makes anything fail, and without one nothing is spilled. */
    twostate predicate Served(ok: bool)
      reads this`mallocs, this`writes, this`torn
    {
      && (!ok ==> mallocs > 0 && !Grants(mallocs - 1))
      && (Plenty() ==> writes == old(writes) && torn == old(torn))
    }

    /** What is tried on a file with so many members in core, unless another was spilled before. */
    function Spilling(t: Tally, paged: bool, held: nat): Tally {
      if t.ok || held == 0 then
        t
      else if !paged && !Opens(t.creates) then
        Tally(false, t.creates + 1, t.writes)
      else
        Tally(Outcome(t.writes).Whole?, t.creates + if paged then 0 else 1, t.writes + 1)
    }

    constructor (malloc: nat -> bool, create: nat -> bool, write: nat -> Written)
      ensures this.malloc == malloc && this.create == create && this.write == write
      ensures Valid() && mallocs == creates == writes == torn == 0
    {
      this.malloc, this.create, this.write := malloc, create, write;
      mallocs, creates, writes, torn := 0, 0, 0, 0;
    }

    method Malloc() returns (ok: bool)
      modifies this`mallocs
      ensures mallocs == old(mallocs) + 1 && ok == Grants(old(mallocs))
    {
      ok := Grants(mallocs);
      mallocs := mallocs + 1;
    }

    method Create() returns (ok: bool)
      modifies this`creates
      ensures creates == old(creates) + 1 && ok == Opens(old(creates))
    {
      ok := Opens(creates);
      creates := creates + 1;
    }

    /** Write n bytes; k of them reach the file. */
    method Write(n: nat) returns (ok: bool, k: nat)
      requires Valid() && n > 0
      modifies this`writes, this`torn
      ensures Valid() && writes == old(writes) + 1
      ensures ok == Outcome(old(writes)).Whole? && k == Left(Outcome(old(writes)), n)
      ensures torn == old(torn) + (if ok then 0 else k) && Accounted()
    {
      ok, k := Outcome(writes).Whole?, Left(Outcome(writes), n);
      if !ok {
        torn := torn + k;
      }
      writes := writes + 1;
    }
  }
}

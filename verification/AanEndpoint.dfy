/** One aan endpoint as the program holds it: buffers passed between three queues and the
    processes' own hands, their headers set in place. Each method is an action of AanProtocol. */
module AanEndpoint {
  import opened AanProtocol

  class Buf {
    var msg: int
    var acked: nat
    var data: seq<Byte>

    ghost function Value(): Msg
      reads this
    {
      Msg(msg, acked, data)
    }
  }

  ghost function Values(q: seq<Buf>): seq<Msg>
    reads q
  {
    seq(|q|, i requires 0 <= i < |q| reads q => q[i].Value())
  }

  /** The buffers of the pool are each in exactly one place. */
  ghost predicate Places(pool: set<Buf>, empty: seq<Buf>, reader: Buf?, unsent: seq<Buf>, unacked: seq<Buf>) {
    && multiset(empty) + One(reader) + multiset(unsent) + multiset(unacked) == multiset(pool)
    && |pool| == NBUF
  }

  ghost function One(b: Buf?): multiset<Buf> {
    if b == null then multiset{} else multiset{b}
  }

  lemma Alone(pool: set<Buf>, rest: multiset<Buf>, b: Buf)
    requires rest + multiset{b} == multiset(pool)
    ensures b in pool && b !in rest
  {
    assert multiset(pool)[b] <= 1;
  }

  lemma SplitFront(q: seq<Buf>)
    requires q != []
    ensures multiset(q) == multiset{q[0]} + multiset(q[1..])
  {
    assert q == [q[0]] + q[1..];
  }

  lemma SplitBack(q: seq<Buf>)
    requires q != []
    ensures multiset(q) == multiset(q[..|q| - 1]) + multiset{q[|q| - 1]}
  {
    assert q == q[..|q| - 1] + [q[|q| - 1]];
  }

  lemma MoveEmpty(pool: set<Buf>, e: seq<Buf>, u: seq<Buf>, k: seq<Buf>)
    requires Places(pool, e, null, u, k) && e != []
    ensures Places(pool, e[1..], e[0], u, k)
  {
    SplitFront(e);
  }

  lemma MoveReader(pool: set<Buf>, e: seq<Buf>, b: Buf, u: seq<Buf>, k: seq<Buf>)
    requires Places(pool, e, b, u, k)
    ensures b in pool && b !in u && b !in k
    ensures Places(pool, e, null, u + [b], k)
  {
    Alone(pool, multiset(e) + multiset(u) + multiset(k), b);
  }

  lemma MoveUnsent(pool: set<Buf>, e: seq<Buf>, r: Buf?, u: seq<Buf>, k: seq<Buf>)
    requires Places(pool, e, r, u, k) && u != []
    ensures Places(pool, e, r, u[1..], k + [u[0]])
  {
    SplitFront(u);
  }

  lemma MoveAcked(pool: set<Buf>, e: seq<Buf>, r: Buf?, u: seq<Buf>, k: seq<Buf>)
    requires Places(pool, e, r, u, k) && k != []
    ensures k[0] in pool && k[0] !in u && k[0] !in k[1..]
    ensures Places(pool, e + [k[0]], r, u, k[1..])
  {
    SplitFront(k);
    Alone(pool, multiset(e) + One(r) + multiset(u) + multiset(k[1..]), k[0]);
  }

  lemma LastAlone(pool: set<Buf>, e: seq<Buf>, r: Buf?, u: seq<Buf>, k: seq<Buf>)
    requires Places(pool, e, r, u, k) && k != []
    ensures var b := k[|k| - 1]; b in pool && b !in u && b !in k[..|k| - 1]
  {
    SplitBack(k);
    Alone(pool, multiset(e) + One(r) + multiset(u) + multiset(k[..|k| - 1]), k[|k| - 1]);
  }

  class Endpoint {
    var empty: seq<Buf>
    var reader: Buf?
    var unsent: seq<Buf>
    var unacked: seq<Buf>
    var pending: bool
    var inmsg: nat
    var lastacked: nat
    var outmsg: nat
    var up: bool
    var done: bool
    var clientDone: bool
    var fault: bool
    ghost var sawEnd: bool
    ghost var log: seq<seq<Byte>>
    ghost var acks: seq<nat>
    ghost var delivered: seq<Byte>
    ghost var pool: set<Buf>

    ghost predicate Valid()
      reads this
    {
      Places(pool, empty, reader, unsent, unacked)
    }

    ghost function View(): Side
      reads this, unsent, unacked
    {
      Side(|empty|, reader != null, Values(unsent), Values(unacked), pending, inmsg, lastacked, outmsg,
           up, done, clientDone, sawEnd, fault, log, acks, delivered)
    }

    constructor ()
      ensures Valid() && fresh(pool) && View() == FRESH
    {
      reader, unsent, unacked, pending := null, [], [], false;
      inmsg, lastacked, outmsg := 0, 0, 0;
      up, done, clientDone, fault, sawEnd := false, false, false, false, false;
      log, acks, delivered := [], [], [];
      empty, pool := [], {};
      new;
      while |empty| < NBUF
        invariant |pool| == |empty| <= NBUF && reader == null && unsent == [] && unacked == []
        invariant fresh(pool) && multiset(empty) == multiset(pool)
        invariant View() == FRESH.(empty := |empty|)
      {
        var b := new Buf;
        empty, pool := empty + [b], pool + {b};
      }
    }

    /** The client reader takes an empty buffer (line 244). */
    method TakeEmpty()
      requires Valid() && CanTakeEmpty(View())
      modifies this
      ensures Valid() && pool == old(pool)
      ensures View() == AanProtocol.TakeEmpty(old(View()))
    {
      hide Places, Values;
      MoveEmpty(pool, empty, unsent, unacked);
      reader := empty[0];
      empty := empty[1..];
    }

    /** It fills the buffer with what it read, numbers it and queues it (lines 245-258). */
    method ReadClient(piece: seq<Byte>)
      requires Valid() && CanReadClient(View())
      modifies this, pool
      ensures Valid() && pool == old(pool)
      ensures exists leftover :: View() == AanProtocol.ReadClient(old(View()), piece, leftover)
    {
      hide Places, Values;
      var b := reader;
      ghost var v := View();
      MoveReader(pool, empty, b, unsent, unacked);
      b.data := piece;
      b.msg := outmsg;
      outmsg := outmsg + 1;
      PushedValue(unsent, b);
      unsent := unsent + [b];
      reader := null;
      clientDone := piece == [];
      log := log + [piece];
      assert View() == AanProtocol.ReadClient(v, piece, b.acked);
    }

    /** The main process takes the next buffer to send and queues it as unacknowledged (lines 211-212). */
    method Queue()
      requires Valid() && CanQueue(View())
      modifies this
      ensures Valid() && pool == old(pool)
      ensures View() == AanProtocol.Queue(old(View()))
    {
      hide Places, Values;
      Counts(unsent);
      MoveUnsent(pool, empty, reader, unsent, unacked);
      FrontValue(unsent);
      PushedValue(unacked, unsent[0]);
      var b := unsent[0];
      unsent := unsent[1..];
      unacked := unacked + [b];
      pending := true;
    }

    /** It stamps the ack in the buffer's header and writes it (lines 214-227). */
    method Send() returns (m: Msg)
      requires Valid() && CanSend(View())
      modifies this, pool
      ensures Valid() && pool == old(pool)
      ensures m == Stamped(old(View())) && View() == AanProtocol.Send(old(View()))
    {
      hide Places, Values;
      Counts(unacked);
      m := Stamp();
      pending := false;
      acks := acks + [inmsg];
      if m.data == [] {
        done := true;
      }
    }

    /** Set the ack in the header of the last buffer queued. */
    method Stamp() returns (m: Msg)
      requires Valid() && unacked != []
      modifies pool
      ensures Valid() && |Values(unacked)| == |unacked|
      ensures m == old(unacked[|unacked| - 1].Value()).(acked := inmsg)
      ensures Values(unacked) == old(Values(unacked))[..|unacked| - 1] + [m]
      ensures old(|Values(unacked)|) == |unacked| && Values(unsent) == old(Values(unsent))
      ensures old(unacked[|unacked| - 1].Value()) == old(Values(unacked))[|unacked| - 1]
    {
      hide Places, Values;
      Counts(unacked);
      LastAlone(pool, empty, reader, unsent, unacked);
      BackValue(unacked);
      var b := unacked[|unacked| - 1];
      b.acked := inmsg;
      BackValue(unacked);
      Counts(unacked);
      m := Msg(b.msg, b.acked, b.data);
    }

    /** Return acknowledged buffers to empty; false when one is missing or out of order (lines 318-330). */
    method ReturnAcked(acked: int) returns (ok: bool)
      requires Valid()
      modifies this`empty, this`unacked, pool
      ensures pool == old(pool)
      ensures ok <==> TakeAcked(old(Values(unacked)), lastacked, 0, acked).Taken?
      ensures ok ==> Valid() && TakeAcked(old(Values(unacked)), lastacked, 0, acked) == Taken(Values(unacked))
      ensures ok ==> |empty| + |unacked| == |old(empty)| + |old(unacked)| && Values(unsent) == old(Values(unsent))
    {
      hide Values, Places;
      var i := 0;
      ghost var q := Values(unacked);
      while i != acked
        invariant Valid() && 0 <= i
        invariant |empty| + |unacked| == |old(empty)| + |old(unacked)| && Values(unsent) == old(Values(unsent))
        invariant TakeAcked(q, lastacked, 0, acked) == TakeAcked(Values(unacked), lastacked, i, acked)
        decreases |unacked|
      {
        Counts(unacked);
        if unacked == [] {
          return false;  // recvp would wait for a buffer that is not coming
        }
        FrontValue(unacked);
        var rb := unacked[0];
        if rb.msg != lastacked + i {
          return false;  // assert(0)
        }
        Recycle();
        i := i + 1;
      }
      ok := true;
    }

    /** Take the first buffer off unacked, forget its number, and give it back. */
    method Recycle()
      requires Valid() && unacked != []
      modifies this`empty, this`unacked, pool
      ensures Valid()
      ensures Values(unacked) == old(Values(unacked[1..])) && Values(unsent) == old(Values(unsent))
      ensures |unacked| == |old(unacked)| - 1 && |empty| == |old(empty)| + 1
    {
      hide Values, Places;
      MoveAcked(pool, empty, reader, unsent, unacked);
      var rb := unacked[0];
      unacked := unacked[1..];
      rb.msg := -1;
      empty := empty + [rb];
    }

    /** The network reader handles a message: it drops keepalives and duplicates, returns the
        buffers the message acknowledges to empty, and delivers the data (lines 293-337). */
    method Receive(m: Msg)
      requires Valid() && CanReceive(View())
      modifies this, pool
      ensures pool == old(pool) && fault == AanProtocol.Receive(old(View()), m).fault
      ensures !fault ==> Valid() && View() == AanProtocol.Receive(old(View()), m)
    {
      hide Values, Places;
      if m.data == [] {
        if m.num >= 0 {
          done, sawEnd := true, true;
        }
        return;
      }
      if m.num < inmsg {
        return;
      }
      Deliver(m);
    }

    /** Take the acks of a new message, and give its bytes to the client (lines 317-337). */
    method Deliver(m: Msg)
      requires Valid() && CanReceive(View()) && m.data != [] && m.num >= inmsg
      modifies this, pool
      ensures pool == old(pool) && fault == AanProtocol.Receive(old(View()), m).fault
      ensures !fault ==> Valid() && View() == AanProtocol.Receive(old(View()), m)
    {
      hide Values, Places, TakeAcked;
      Counts(unacked);
      var ok := ReturnAcked(m.acked - lastacked);
      if !ok {
        fault := true;
        return;
      }
      Counts(unacked);
      lastacked := m.acked;
      inmsg := inmsg + 1;
      delivered := delivered + m.data;
    }

    /** What a keepalive carries (lines 192-196). */
    method Keepalive() returns (m: Msg)
      requires CanKeepalive(View())
      ensures m == AanProtocol.Keepalive(View()) && m.num == -1 && m.data == [] && m.acked == inmsg
    {
      m := Msg(-1, inmsg, []);
    }

    /** Write what is not acknowledged, passing the buffers through a new queue (lines 397-403). */
    method Resend() returns (ms: seq<Msg>)
      modifies this`unacked
      ensures unacked == old(unacked) && ms == Values(unacked)
    {
      var tmp: seq<Buf> := [];
      ms := [];
      assert Values(tmp) == [];
      hide Values;
      while unacked != []
        invariant old(unacked) == tmp + unacked && ms == Values(tmp)
        decreases |unacked|
      {
        var b := unacked[0];  // nbrecvp
        unacked := unacked[1..];
        ms := ms + [Msg(b.msg, b.acked, b.data)];
        PushedValue(tmp, b);
        tmp := tmp + [b];
      }
      unacked := tmp;
      assert unacked == old(unacked);
    }

    /** Over a new connection, resend; the reader can then go on. */
    method Synchronize() returns (ms: seq<Msg>)
      requires Valid() && CanSynchronize(View())
      modifies this`unacked, this`up
      ensures Valid() && pool == old(pool)
      ensures ms == old(View()).unacked && View() == old(View()).(up := true)
    {
      hide Values, Places;
      ms := Resend();
      up := true;
    }
  }

  lemma FrontValue(q: seq<Buf>)
    requires q != []
    ensures Values(q) == [q[0].Value()] + Values(q[1..])
  {
  }

  lemma BackValue(q: seq<Buf>)
    requires q != []
    ensures Values(q) == Values(q[..|q| - 1]) + [q[|q| - 1].Value()]
  {
  }

  lemma PushedValue(q: seq<Buf>, b: Buf)
    ensures Values(q + [b]) == Values(q) + [b.Value()]
  {
  }

  lemma Counts(q: seq<Buf>)
    ensures |Values(q)| == |q|
  {
  }
}

/** aan: two endpoints keep a byte stream whole over a connection that can die and be redialled.
    Each endpoint is a value and each atomic action of its processes a function on it; a run
    interleaves the actions of the two sides with whatever the network does. */
module AanProtocol {

  type Byte = x: int | 0 <= x < 256

  /** Buffers per endpoint. */
  const NBUF: nat := 10

  /** A buffer's header and contents; nb is the length of data, and num is -1 in a keepalive. */
  datatype Msg = Msg(num: int, acked: nat, data: seq<Byte>)

  /** One endpoint.
      empty counts the buffers in that queue, and reading says the client reader holds one.
      pending says that the last of unacked has been queued there but not written yet.
      up says that the network reader has a connection on which unacked has been resent.
      fault records that the reader blocked on an empty unacked queue or hit the assertion.
      The last three fields are history: the pieces read from the client, the ack value written
      with each message number, and the bytes written to the client. */
  datatype Side = Side(
    empty: nat, reading: bool, unsent: seq<Msg>, unacked: seq<Msg>, pending: bool,
    inmsg: nat, lastacked: nat, outmsg: nat,
    up: bool, done: bool, clientDone: bool, sawEnd: bool, fault: bool,
    log: seq<seq<Byte>>, acks: seq<nat>, delivered: seq<Byte>)

  const FRESH := Side(NBUF, false, [], [], false, 0, 0, 0, false, false, false, false, false, [], [], [])

  // ---- the actions of one endpoint -----------------------------------------

  /** The client reader takes an empty buffer (line 244). */
  predicate CanTakeEmpty(s: Side) {
    !s.done && !s.clientDone && !s.reading && s.empty > 0
  }

  function TakeEmpty(s: Side): Side
    requires CanTakeEmpty(s)
  {
    s.(empty := s.empty - 1, reading := true)
  }

  /** It reads a piece, numbers it and queues it; no bytes means the client is gone (lines 245-258).
      The header's ack is left over from the buffer's last use. */
  predicate CanReadClient(s: Side) {
    !s.done && s.reading
  }

  function ReadClient(s: Side, piece: seq<Byte>, leftover: nat): Side
    requires CanReadClient(s)
  {
    s.(reading := false, unsent := s.unsent + [Msg(s.outmsg, leftover, piece)], outmsg := s.outmsg + 1,
       clientDone := piece == [], log := s.log + [piece])
  }

  /** The main process moves a buffer from unsent to unacked (lines 211-212). */
  predicate CanQueue(s: Side) {
    !s.done && !s.pending && s.unsent != []
  }

  function Queue(s: Side): Side
    requires CanQueue(s)
  {
    s.(unsent := s.unsent[1..], unacked := s.unacked + [s.unsent[0]], pending := true)
  }

  /** It stamps the ack and writes the buffer; an empty one ends the program (lines 214-227). */
  predicate CanSend(s: Side) {
    !s.done && s.pending && s.unacked != []
  }

  function Stamped(s: Side): Msg
    requires CanSend(s)
  {
    s.unacked[|s.unacked| - 1].(acked := s.inmsg)
  }

  function Send(s: Side): Side
    requires CanSend(s)
  {
    var m := Stamped(s);
    s.(unacked := s.unacked[..|s.unacked| - 1] + [m], pending := false, done := m.data == [],
       acks := s.acks + [s.inmsg])
  }

  /** The outcome of taking acknowledged buffers off unacked. */
  datatype AckResult = Taken(rest: seq<Msg>) | Blocked | Mismatch

  /** The loop of lines 319-330, from its turn i: acked buffers must carry the expected numbers. */
  function TakeAcked(unacked: seq<Msg>, lastacked: nat, i: nat, acked: int): (r: AckResult)
    ensures r.Taken? ==> |r.rest| <= |unacked|
    decreases |unacked|
  {
    if i == acked then Taken(unacked)
    else if unacked == [] then Blocked
    else if unacked[0].num != lastacked + i then Mismatch
    else TakeAcked(unacked[1..], lastacked, i + 1, acked)
  }

  /** The network reader handles one message (lines 293-337). */
  predicate CanReceive(s: Side) {
    !s.done && s.up && !s.fault
  }

  function Receive(s: Side, m: Msg): Side
    requires CanReceive(s)
  {
    if m.data == [] then
      if m.num >= 0 then s.(done := true, sawEnd := true) else s
    else if m.num < s.inmsg then s
    else
      match TakeAcked(s.unacked, s.lastacked, 0, m.acked - s.lastacked)
      case Taken(rest) =>
        s.(unacked := rest, empty := s.empty + |s.unacked| - |rest|, lastacked := m.acked,
           inmsg := s.inmsg + 1, delivered := s.delivered + m.data)
      case Blocked => s.(fault := true)
      case Mismatch => s.(fault := true)
  }

  /** A keepalive, sent when the timer says so (lines 191-205). */
  predicate CanKeepalive(s: Side) {
    !s.done && !s.pending
  }

  function Keepalive(s: Side): Msg {
    Msg(-1, s.inmsg, [])
  }

  /** The network reader finds the connection dead and closes it (lines 286-287). */
  predicate CanHangup(s: Side) {
    !s.done && s.up
  }

  /** The main process has a connection and resends what is not acknowledged (lines 387-404). */
  predicate CanSynchronize(s: Side) {
    !s.done && !s.up && !s.pending
  }

  // ---- the two endpoints and the network ------------------------------------

  /** ab and ba hold the messages on the wire, oldest first. */
  datatype System = System(a: Side, b: Side, ab: seq<Msg>, ba: seq<Msg>, live: bool)

  const INITIAL := System(FRESH, FRESH, [], [], false)

  function Swap(x: System): System {
    System(x.b, x.a, x.ba, x.ab, x.live)
  }

  /** An action of side a, or of the network; Break leaves only so much of each wire. */
  datatype Event =
    | EvTake
    | EvRead(piece: seq<Byte>, leftover: nat)
    | EvQueue
    | EvSend
    | EvKeepalive
    | EvReceive
    | EvHangup
    | EvSynchronize
    | EvBreak(keepAb: nat, keepBa: nat)
    | EvRedial

  predicate Enabled(x: System, e: Event) {
    match e
    case EvTake => CanTakeEmpty(x.a)
    case EvRead(_, _) => CanReadClient(x.a)
    case EvQueue => CanQueue(x.a)
    case EvSend => CanSend(x.a)
    case EvKeepalive => CanKeepalive(x.a)
    case EvReceive => CanReceive(x.a) && x.ba != []
    case EvHangup => CanHangup(x.a) && !x.live
    case EvSynchronize => CanSynchronize(x.a)
    case EvBreak(m, n) => m <= |x.ab| && n <= |x.ba|
    case EvRedial => !x.live && !x.a.up && !x.b.up
  }

  /** What side a writes reaches the wire only over a live connection it has synchronized on. */
  function Write(x: System, ms: seq<Msg>): seq<Msg> {
    if x.live && x.a.up then x.ab + ms else x.ab
  }

  function Step(x: System, e: Event): System
    requires Enabled(x, e)
  {
    match e
    case EvTake => x.(a := TakeEmpty(x.a))
    case EvRead(piece, leftover) => x.(a := ReadClient(x.a, piece, leftover))
    case EvQueue => x.(a := Queue(x.a))
    case EvSend => x.(a := Send(x.a), ab := Write(x, [Stamped(x.a)]))
    case EvKeepalive => x.(ab := Write(x, [Keepalive(x.a)]))
    case EvReceive => x.(a := Receive(x.a, x.ba[0]), ba := x.ba[1..])
    case EvHangup => x.(a := x.a.(up := false), ba := [])
    case EvSynchronize =>
      var y := x.(a := x.a.(up := true));
      y.(ab := Write(y, x.a.unacked))
    case EvBreak(m, n) => x.(ab := x.ab[..m], ba := x.ba[..n], live := false)
    case EvRedial => x.(ab := [], ba := [], live := true)
  }

  /** y follows x by an action of either side. */
  predicate Next(x: System, y: System, e: Event) {
    || (Enabled(x, e) && y == Step(x, e))
    || (Enabled(Swap(x), e) && y == Swap(Step(Swap(x), e)))
  }

  /** A run from the start, with the event that led to each later state. */
  predicate Run(xs: seq<System>, es: seq<Event>) {
    && |xs| == |es| + 1
    && xs[0] == INITIAL
    && forall i :: 0 <= i < |es| ==> Next(xs[i], xs[i + 1], es[i])
  }

  // ---- what every run keeps ---------------------------------------------------

  function Flatten(log: seq<seq<Byte>>): seq<Byte> {
    if log == [] then [] else Flatten(log[..|log| - 1]) + log[|log| - 1]
  }

  /** The numbered messages of a wire. */
  function Data(w: seq<Msg>): seq<Msg> {
    if w == [] then []
    else if w[0].num >= 0 then [w[0]] + Data(w[1..])
    else Data(w[1..])
  }

  /** Every buffer is in exactly one place. */
  predicate Partition(s: Side) {
    s.empty + (if s.reading then 1 else 0) + |s.unsent| + |s.unacked| == NBUF
  }

  function Held(s: Side): seq<Msg> {
    s.unacked + s.unsent
  }

  /** The buffers held carry the numbers from lastacked up and the pieces read under them. */
  predicate Numbered(s: Side) {
    && |s.log| == s.outmsg == s.lastacked + |Held(s)|
    && (forall i :: 0 <= i < |Held(s)| ==>
          Held(s)[i].num == s.lastacked + i && Held(s)[i].data == s.log[s.lastacked + i])
    && |s.acks| + (if s.pending then 1 else 0) == s.lastacked + |s.unacked|
    && s.lastacked <= |s.acks|
  }

  /** Only the last piece read is empty, and it is the client's end. */
  predicate EndsOnce(s: Side) {
    && (forall i :: 0 <= i < |s.log| - 1 ==> s.log[i] != [])
    && (s.clientDone <==> s.log != [] && s.log[|s.log| - 1] == [])
    && (s.clientDone ==> !s.reading)
  }

  /** Ack values never go down with the message number, in memory as on the wire. */
  predicate AcksOrdered(s: Side) {
    && (forall i, j :: 0 <= i <= j < |s.acks| ==> s.acks[i] <= s.acks[j])
    && (forall i :: 0 <= i < |s.acks| ==> s.acks[i] <= s.inmsg)
    && (forall i :: 0 <= i < |s.unacked| && s.lastacked + i < |s.acks| ==> s.unacked[i].acked == s.acks[s.lastacked + i])
  }

  predicate SideOk(s: Side) {
    Partition(s) && Numbered(s) && EndsOnce(s) && AcksOrdered(s) && !s.fault
  }

  /** r has delivered exactly the first inmsg pieces of s, and acted on the ack of the last of them. */
  predicate Delivered(s: Side, r: Side) {
    && r.inmsg <= |s.acks| <= |s.log|
    && r.delivered == Flatten(s.log[..r.inmsg])
    && r.lastacked == (if r.inmsg == 0 then 0 else s.acks[r.inmsg - 1])
    && (forall i :: 0 <= i < r.inmsg ==> s.log[i] != [])
    && (r.sawEnd ==> r.done && r.inmsg + 1 == |s.acks| == |s.log| && s.log[r.inmsg] == [])
  }

  /** m is message n of s just as it was first written. */
  predicate Wrote(s: Side, n: int, m: Msg) {
    0 <= n < |s.acks| && n < |s.log| && m == Msg(n, s.acks[n], s.log[n])
  }

  /** d is a run of messages of s, in order and without a gap, from the number of its first on. */
  predicate Consecutive(s: Side, d: seq<Msg>) {
    forall i :: 0 <= i < |d| ==> Wrote(s, d[0].num + i, d[i])
  }

  /** The numbered messages in flight are such a run, and leave no gap at r. */
  predicate InFlight(s: Side, r: Side, w: seq<Msg>) {
    Consecutive(s, Data(w)) && (Data(w) != [] ==> Data(w)[0].num <= r.inmsg)
  }

  /** Over a live connection r will have everything s has written once the wire is drained. */
  predicate CatchesUp(s: Side, r: Side, w: seq<Msg>, live: bool) {
    var d := Data(w);
    && (live && s.up && !r.sawEnd ==> if d == [] then r.inmsg == |s.acks| else d[|d| - 1].num == |s.acks| - 1)
    && (live && !s.up ==> d == [])
  }

  predicate LinkOk(s: Side, r: Side, w: seq<Msg>, live: bool) {
    Delivered(s, r) && InFlight(s, r, w) && CatchesUp(s, r, w, live)
  }

  predicate Inv(x: System) {
    && SideOk(x.a) && SideOk(x.b)
    && LinkOk(x.a, x.b, x.ab, x.live) && LinkOk(x.b, x.a, x.ba, x.live)
  }

  lemma InvSwap(x: System)
    ensures Inv(x) <==> Inv(Swap(x))
  {
  }

  lemma InvInitial()
    ensures Inv(INITIAL)
  {
  }

  // ---- wires ------------------------------------------------------------------

  lemma {:induction false} DataAppend(v: seq<Msg>, w: seq<Msg>)
    ensures Data(v + w) == Data(v) + Data(w)
  {
    if v == [] {
      assert v + w == w;
    } else {
      assert (v + w)[1..] == v[1..] + w;
      DataAppend(v[1..], w);
    }
  }

  lemma {:induction false} DataAll(w: seq<Msg>)
    requires forall i :: 0 <= i < |w| ==> w[i].num >= 0
    ensures Data(w) == w
  {
    if w != [] {
      DataAll(w[1..]);
    }
  }

  /** Losing the end of a wire loses the end of its numbered messages. */
  lemma DataPrefix(w: seq<Msg>, n: nat)
    requires n <= |w|
    ensures |Data(w[..n])| <= |Data(w)| && Data(w[..n]) == Data(w)[..|Data(w[..n])|]
  {
    DataAppend(w[..n], w[n..]);
    assert w == w[..n] + w[n..];
  }

  // ---- runs of messages ---------------------------------------------------------

  lemma RunStays(s: Side, t: Side, d: seq<Msg>)
    requires Consecutive(s, d) && s.acks <= t.acks && s.log <= t.log
    ensures Consecutive(t, d)
  {
    forall i | 0 <= i < |d| ensures Wrote(t, d[0].num + i, d[i]) {
      assert Wrote(s, d[0].num + i, d[i]);
    }
  }

  lemma RunGrows(s: Side, d: seq<Msg>, m: Msg)
    requires Consecutive(s, d) && Wrote(s, m.num, m) && (d != [] ==> d[|d| - 1].num == m.num - 1)
    ensures Consecutive(s, d + [m])
  {
    if d != [] {
      assert Wrote(s, d[0].num + |d| - 1, d[|d| - 1]);
    }
  }

  lemma RunCut(s: Side, d: seq<Msg>, n: nat)
    requires Consecutive(s, d) && n <= |d|
    ensures Consecutive(s, d[..n])
  {
    forall i | 0 <= i < n ensures Wrote(s, d[..n][0].num + i, d[..n][i]) {
      assert Wrote(s, d[0].num + i, d[i]);
    }
  }

  lemma RunTail(s: Side, d: seq<Msg>)
    requires Consecutive(s, d) && d != []
    ensures Wrote(s, d[0].num, d[0]) && Consecutive(s, d[1..])
    ensures |d| > 1 ==> d[1].num == d[0].num + 1
  {
    assert Wrote(s, d[0].num + 0, d[0]);
    if |d| > 1 {
      assert Wrote(s, d[0].num + 1, d[1]);
    }
    forall i | 0 <= i < |d| - 1 ensures Wrote(s, d[1].num + i, d[1..][i]) {
      assert Wrote(s, d[0].num + (i + 1), d[i + 1]);
    }
  }

  lemma UnackedRun(s: Side)
    requires SideOk(s) && !s.pending
    ensures Consecutive(s, s.unacked) && Data(s.unacked) == s.unacked
    ensures |s.acks| == s.lastacked + |s.unacked|
    ensures s.unacked != [] ==> s.unacked[0].num == s.lastacked && s.unacked[|s.unacked| - 1].num == |s.acks| - 1
  {
    hide Data, EndsOnce;
    assert forall i :: 0 <= i < |s.unacked| ==> s.unacked[i] == Held(s)[i];
    DataAll(s.unacked);
    forall i | 0 <= i < |s.unacked| ensures Wrote(s, s.unacked[0].num + i, s.unacked[i]) {
      assert s.unacked[0] == Held(s)[0] && s.unacked[i].num == s.lastacked + i;
    }
  }

  // ---- one direction under each kind of change --------------------------------------

  /** The sender reads more from its client, or moves buffers about. */
  lemma SenderReads(s: Side, t: Side, r: Side, w: seq<Msg>, live: bool)
    requires LinkOk(s, r, w, live) && t.acks == s.acks && t.up == s.up
    requires s.log <= t.log && (r.sawEnd ==> t.log == s.log)
    ensures LinkOk(t, r, w, live)
  {
    assert t.log[..r.inmsg] == s.log[..r.inmsg];
    RunStays(s, t, Data(w));
    hide Flatten, Data, Consecutive;
  }

  /** The receiver changes nothing a sender can notice. */
  lemma ReceiverIdle(s: Side, r: Side, t: Side, w: seq<Msg>, live: bool)
    requires LinkOk(s, r, w, live)
    requires t.inmsg == r.inmsg && t.lastacked == r.lastacked && t.delivered == r.delivered
    requires t.sawEnd == r.sawEnd && (r.done ==> t.done)
    ensures LinkOk(s, t, w, live)
  {
    hide Flatten, Data, Consecutive;
  }

  /** The sender writes its next message, onto the wire if there is a connection. */
  lemma SenderSends(s: Side, t: Side, r: Side, w: seq<Msg>, w': seq<Msg>, live: bool, m: Msg)
    requires LinkOk(s, r, w, live)
    requires |s.acks| < |s.log| && t.acks == s.acks + [m.acked] && t.log == s.log && t.up == s.up
    requires m == Msg(|s.acks|, m.acked, s.log[|s.acks|])
    requires Data(w') == if live && s.up then Data(w) + [m] else Data(w)
    ensures LinkOk(t, r, w', live)
  {
    hide Flatten, Data, Wrote;
    RunStays(s, t, Data(w));
    if live && s.up {
      RunGrows(t, Data(w), m);
    }
    hide Consecutive;
  }

  /** The sender comes up and resends what is not acknowledged. */
  lemma SenderResends(s: Side, r: Side, w: seq<Msg>, w': seq<Msg>, live: bool)
    requires SideOk(s) && LinkOk(s, r, w, live) && !s.up && !s.pending && s.lastacked <= r.inmsg
    requires Data(w') == if live then Data(w) + s.unacked else Data(w)
    ensures LinkOk(s.(up := true), r, w', live)
  {
    hide Flatten, Data, SideOk, Consecutive;
    UnackedRun(s);
    if live {
      assert Data(w') == s.unacked;
    }
    RunStays(s, s.(up := true), Data(w'));
  }

  /** The wire loses its end and the connection dies. */
  lemma LinkBreaks(s: Side, r: Side, w: seq<Msg>, n: nat, live: bool)
    requires LinkOk(s, r, w, live) && n <= |w|
    ensures LinkOk(s, r, w[..n], false)
  {
    DataPrefix(w, n);
    RunCut(s, Data(w), |Data(w[..n])|);
    hide Flatten, Data, Consecutive;
  }

  /** The wire is emptied: the receiver dropped it, or the peers have a new connection. */
  lemma LinkEmptied(s: Side, r: Side, w: seq<Msg>, live: bool, live': bool)
    requires LinkOk(s, r, w, live) && (live' ==> !s.up)
    ensures LinkOk(s, r, [], live')
  {
    hide Flatten;
  }

  // ---- the steps keep the invariant ---------------------------------------------

  lemma KeepTake(x: System)
    requires Inv(x) && Enabled(x, EvTake)
    ensures Inv(Step(x, EvTake))
  {
    var t := TakeEmpty(x.a);
    assert Held(t) == Held(x.a);
    SenderReads(x.a, t, x.b, x.ab, x.live);
    ReceiverIdle(x.b, x.a, t, x.ba, x.live);
    hide LinkOk;
  }

  lemma ReadSide(s: Side, piece: seq<Byte>, leftover: nat)
    requires SideOk(s) && CanReadClient(s)
    ensures SideOk(ReadClient(s, piece, leftover))
  {
    assert Held(ReadClient(s, piece, leftover)) == Held(s) + [Msg(s.outmsg, leftover, piece)];
  }

  lemma KeepRead(x: System, piece: seq<Byte>, leftover: nat)
    requires Inv(x) && Enabled(x, EvRead(piece, leftover))
    ensures Inv(Step(x, EvRead(piece, leftover)))
  {
    var t := ReadClient(x.a, piece, leftover);
    ReadSide(x.a, piece, leftover);
    SenderReads(x.a, t, x.b, x.ab, x.live) by { assert !x.b.sawEnd; }
    ReceiverIdle(x.b, x.a, t, x.ba, x.live);
    hide LinkOk, SideOk;
  }

  lemma KeepQueue(x: System)
    requires Inv(x) && Enabled(x, EvQueue)
    ensures Inv(Step(x, EvQueue))
  {
    var t := Queue(x.a);
    QueueSide(x.a);
    SenderReads(x.a, t, x.b, x.ab, x.live);
    ReceiverIdle(x.b, x.a, t, x.ba, x.live);
    hide LinkOk, SideOk;
  }

  lemma QueueSide(s: Side)
    requires SideOk(s) && CanQueue(s)
    ensures SideOk(Queue(s))
  {
    var t := Queue(s);
    assert Held(t) == Held(s);
    forall i | 0 <= i < |t.unacked| && t.lastacked + i < |t.acks|
      ensures t.unacked[i].acked == t.acks[t.lastacked + i]
    {
      assert t.unacked[i] == s.unacked[i];
    }
  }

  lemma SendSide(s: Side)
    requires SideOk(s) && CanSend(s)
    ensures SideOk(Send(s)) && |s.acks| < |s.log| && Stamped(s) == Msg(|s.acks|, s.inmsg, s.log[|s.acks|])
  {
    var t, n := Send(s), |s.unacked| - 1;
    assert forall i :: 0 <= i < |Held(s)| && i != n ==> Held(t)[i] == Held(s)[i];
    assert Held(s)[n] == s.unacked[n] && Held(t)[n] == Stamped(s);
  }

  lemma KeepSend(x: System)
    requires Inv(x) && Enabled(x, EvSend)
    ensures Inv(Step(x, EvSend))
  {
    var m := Stamped(x.a);
    SendSide(x.a);
    DataAppend(x.ab, [m]);
    assert Data([m]) == [m];
    SenderSends(x.a, Send(x.a), x.b, x.ab, Write(x, [m]), x.live, m);
    ReceiverIdle(x.b, x.a, Send(x.a), x.ba, x.live);
    hide SideOk, LinkOk;
  }

  lemma KeepKeepalive(x: System)
    requires Inv(x) && Enabled(x, EvKeepalive)
    ensures Inv(Step(x, EvKeepalive))
  {
    DataAppend(x.ab, [Keepalive(x.a)]);
    assert Data([Keepalive(x.a)]) == [];
    hide SideOk, Data, Flatten, Consecutive;
  }

  lemma KeepHangup(x: System)
    requires Inv(x) && Enabled(x, EvHangup)
    ensures Inv(Step(x, EvHangup))
  {
    var t := x.a.(up := false);
    assert Held(t) == Held(x.a);
    LinkBreaks(x.a, x.b, x.ab, |x.ab|, x.live);
    assert x.ab[..|x.ab|] == x.ab;
    assert LinkOk(t, x.b, x.ab, false) by { RunStays(x.a, t, Data(x.ab)); hide Flatten, Data, Consecutive; }
    LinkEmptied(x.b, x.a, x.ba, x.live, false);
    ReceiverIdle(x.b, x.a, t, [], false);
    hide LinkOk;
  }

  lemma KeepSynchronize(x: System)
    requires Inv(x) && Enabled(x, EvSynchronize)
    ensures Inv(Step(x, EvSynchronize))
  {
    hide LinkOk, SideOk, Data;
    var s, t := x.a, x.a.(up := true);
    AckedIsReceived(x.b, s, x.ba, x.live, x.ab);
    DataAppend(x.ab, s.unacked);
    UnackedRun(s);
    SenderResends(s, x.b, x.ab, Step(x, EvSynchronize).ab, x.live);
    ReceiverIdle(x.b, s, t, x.ba, x.live);
    SideUp(s, true);
  }

  lemma SideUp(s: Side, up: bool)
    requires SideOk(s)
    ensures SideOk(s.(up := up))
  {
    assert Held(s.(up := up)) == Held(s);
  }

  /** r has acted on no ack beyond what its peer s has in fact received. */
  lemma AckedIsReceived(s: Side, r: Side, w: seq<Msg>, live: bool, w': seq<Msg>)
    requires SideOk(s) && LinkOk(s, r, w, live)
    ensures r.lastacked <= s.inmsg
  {
  }

  lemma KeepBreak(x: System, m: nat, n: nat)
    requires Inv(x) && Enabled(x, EvBreak(m, n))
    ensures Inv(Step(x, EvBreak(m, n)))
  {
    LinkBreaks(x.a, x.b, x.ab, m, x.live);
    LinkBreaks(x.b, x.a, x.ba, n, x.live);
    hide LinkOk, SideOk;
  }

  lemma KeepRedial(x: System)
    requires Inv(x) && Enabled(x, EvRedial)
    ensures Inv(Step(x, EvRedial))
  {
    LinkEmptied(x.a, x.b, x.ab, x.live, true);
    LinkEmptied(x.b, x.a, x.ba, x.live, true);
    hide LinkOk, SideOk;
  }

  // ---- receiving --------------------------------------------------------------

  /** Acknowledged buffers are all there, in order: neither the wait nor the assertion is met. */
  lemma {:induction false} AckedAreThere(unacked: seq<Msg>, lastacked: nat, i: nat, acked: nat)
    requires i <= acked <= i + |unacked|
    requires forall j :: 0 <= j < |unacked| ==> unacked[j].num == lastacked + i + j
    ensures TakeAcked(unacked, lastacked, i, acked) == Taken(unacked[acked - i..])
    decreases |unacked|
  {
    if i < acked {
      AckedAreThere(unacked[1..], lastacked, i + 1, acked);
    }
  }

  /** r once it has taken the acks of, and delivered, message m. */
  function Accept(r: Side, m: Msg): Side
    requires r.lastacked <= m.acked <= r.lastacked + |r.unacked|
  {
    var k := m.acked - r.lastacked;
    r.(unacked := r.unacked[k..], empty := r.empty + k, lastacked := m.acked,
       inmsg := r.inmsg + 1, delivered := r.delivered + m.data)
  }

  lemma AcceptSide(r: Side, m: Msg)
    requires SideOk(r) && CanReceive(r) && r.lastacked <= m.acked <= |r.acks|
    requires m.data != [] && m.num >= r.inmsg
    ensures m.acked <= r.lastacked + |r.unacked|
    ensures Receive(r, m) == Accept(r, m) && SideOk(Accept(r, m))
  {
    UnackedNumbered(r);
    AcksWithin(r, m.acked);
    AcceptNumbered(r, m);
    hide SideOk;
    AckedAreThere(r.unacked, r.lastacked, 0, m.acked - r.lastacked);
  }

  lemma UnackedNumbered(r: Side)
    requires SideOk(r)
    ensures forall j :: 0 <= j < |r.unacked| ==> r.unacked[j].num == r.lastacked + j
  {
    hide AcksOrdered, EndsOnce;
    assert forall i :: 0 <= i < |r.unacked| ==> r.unacked[i] == Held(r)[i];
  }

  lemma AcksWithin(r: Side, acked: nat)
    requires SideOk(r) && acked <= |r.acks|
    ensures acked <= r.lastacked + |r.unacked|
  {
    hide AcksOrdered, EndsOnce;
  }

  lemma AcceptNumbered(r: Side, m: Msg)
    requires SideOk(r) && r.lastacked <= m.acked <= |r.acks| && m.acked <= r.lastacked + |r.unacked|
    ensures SideOk(Accept(r, m))
  {
    var t, k := Accept(r, m), m.acked - r.lastacked;
    assert Held(t) == Held(r)[k..];
    forall i | 0 <= i < |Held(t)|
      ensures Held(t)[i].num == t.lastacked + i && Held(t)[i].data == t.log[t.lastacked + i]
    {
      assert Held(t)[i] == Held(r)[k + i];
    }
    forall i | 0 <= i < |t.unacked| && t.lastacked + i < |t.acks|
      ensures t.unacked[i].acked == t.acks[t.lastacked + i]
    {
      assert t.unacked[i] == r.unacked[k + i];
    }
  }

  /** What the next numbered message in flight must be when it is not a duplicate. */
  lemma NextInFlight(s: Side, r: Side, w: seq<Msg>)
    requires SideOk(s) && Delivered(s, r) && Delivered(r, s) && InFlight(s, r, w)
    requires w != [] && w[0].num >= r.inmsg
    ensures Wrote(s, r.inmsg, w[0]) && r.lastacked <= w[0].acked <= |r.acks|
  {
    RunTail(s, Data(w));
    hide Flatten;
  }

  lemma FlattenMore(log: seq<seq<Byte>>, n: nat)
    requires n < |log|
    ensures Flatten(log[..n + 1]) == Flatten(log[..n]) + log[n]
  {
    assert log[..n + 1][..n] == log[..n];
  }

  /** Taking a message off the wire, when the receiver has gone past it or it carries no number. */
  lemma WireAdvances(s: Side, r: Side, t: Side, w: seq<Msg>, live: bool)
    requires LinkOk(s, r, w, live) && w != [] && Delivered(s, t)
    requires r.inmsg <= t.inmsg && (r.sawEnd ==> t.sawEnd)
    requires w[0].num >= 0 ==> w[0].num < t.inmsg || t.sawEnd
    requires w[0].num < 0 ==> t.inmsg == r.inmsg
    ensures LinkOk(s, t, w[1..], live)
  {
    var d, e := Data(w), Data(w[1..]);
    assert d == if w[0].num >= 0 then [w[0]] + e else e;
    hide Flatten, Data;
    if w[0].num >= 0 {
      RunTail(s, d);
      assert d[1..] == e;
    }
    hide Consecutive;
  }

  lemma ReceivePassed(x: System)
    requires Inv(x) && Enabled(x, EvReceive)
    requires x.ba[0].data == [] || x.ba[0].num < x.a.inmsg
    ensures Inv(Step(x, EvReceive))
  {
    var r, m := x.a, x.ba[0];
    var t := Receive(r, m);
    assert Held(t) == Held(r);
    if m.num >= 0 && m.data == [] {
      EndIsLast(x.b, r, x.ba);
    }
    ReceiverIdleSender(x.b, r, t);
    WireAdvances(x.b, r, t, x.ba, x.live);
    assert LinkOk(t, x.b, x.ab, x.live) by {
      SenderReads(r, t, x.b, x.ab, x.live);
    }
    hide LinkOk;
  }

  lemma ReceiverIdleSender(s: Side, r: Side, t: Side)
    requires Delivered(s, r)
    requires t.inmsg == r.inmsg && t.lastacked == r.lastacked && t.delivered == r.delivered && (r.done ==> t.done)
    requires t.sawEnd ==> r.sawEnd || (t.done && r.inmsg + 1 == |s.acks| == |s.log| && s.log[r.inmsg] == [])
    ensures Delivered(s, t)
  {
  }

  /** The end of the stream comes right after the last piece delivered. */
  lemma EndIsLast(s: Side, r: Side, w: seq<Msg>)
    requires SideOk(s) && Delivered(s, r) && InFlight(s, r, w)
    requires w != [] && w[0].num >= 0 && w[0].data == []
    ensures r.inmsg == w[0].num && r.inmsg + 1 == |s.acks| == |s.log| && s.log[r.inmsg] == []
  {
    RunTail(s, Data(w));
    hide Flatten;
  }

  lemma ReceiveNext(x: System)
    requires Inv(x) && Enabled(x, EvReceive)
    requires x.ba[0].data != [] && x.ba[0].num >= x.a.inmsg
    ensures Inv(Step(x, EvReceive))
  {
    hide SideOk, Consecutive, Data;
    var s, r, m := x.b, x.a, x.ba[0];
    NextInFlight(s, r, x.ba);
    AcceptSide(r, m);
    var t := Accept(r, m);
    FlattenMore(s.log, r.inmsg);
    AcceptDelivers(s, r, m);
    WireAdvances(s, r, t, x.ba, x.live);
    SenderReads(r, t, s, x.ab, x.live);
    hide LinkOk;
  }

  lemma AcceptDelivers(s: Side, r: Side, m: Msg)
    requires Delivered(s, r) && !r.sawEnd && Wrote(s, r.inmsg, m) && m.data != []
    requires r.lastacked <= m.acked <= r.lastacked + |r.unacked|
    requires Flatten(s.log[..r.inmsg + 1]) == Flatten(s.log[..r.inmsg]) + s.log[r.inmsg]
    ensures Delivered(s, Accept(r, m))
  {
    hide Flatten;
  }

  lemma KeepStep(x: System, e: Event)
    requires Inv(x) && Enabled(x, e)
    ensures Inv(Step(x, e))
  {
    match e
    case EvTake => KeepTake(x);
    case EvRead(piece, leftover) => KeepRead(x, piece, leftover);
    case EvQueue => KeepQueue(x);
    case EvSend => KeepSend(x);
    case EvKeepalive => KeepKeepalive(x);
    case EvReceive =>
      if x.ba[0].data == [] || x.ba[0].num < x.a.inmsg {
        ReceivePassed(x);
      } else {
        ReceiveNext(x);
      }
    case EvHangup => KeepHangup(x);
    case EvSynchronize => KeepSynchronize(x);
    case EvBreak(m, n) => KeepBreak(x, m, n);
    case EvRedial => KeepRedial(x);
  }

  lemma KeepNext(x: System, y: System, e: Event)
    requires Inv(x) && Next(x, y, e)
    ensures Inv(y)
  {
    hide Inv, Step, Enabled;
    InvSwap(x);
    if Enabled(x, e) && y == Step(x, e) {
      KeepStep(x, e);
    } else {
      KeepStep(Swap(x), e);
      InvSwap(Step(Swap(x), e));
    }
  }

  /** Every state of every run satisfies the invariant. */
  lemma {:induction false} RunKeeps(xs: seq<System>, es: seq<Event>, i: nat)
    requires Run(xs, es) && i < |xs|
    ensures Inv(xs[i])
  {
    hide Inv, Next;
    if i == 0 {
      InvInitial();
    } else {
      RunKeeps(xs, es, i - 1);
      assert Next(xs[i - 1], xs[i - 1 + 1], es[i - 1]);
      KeepNext(xs[i - 1], xs[i], es[i - 1]);
    }
  }

  // ---- what the protocol is for -----------------------------------------------

  lemma {:induction false} FlattenPrefix(log: seq<seq<Byte>>, n: nat)
    requires n <= |log|
    ensures Flatten(log[..n]) <= Flatten(log)
  {
    if n == |log| {
      assert log[..n] == log;
    } else {
      FlattenPrefix(log[..|log| - 1], n);
      assert log[..|log| - 1][..n] == log[..n];
    }
  }

  /** In every state of every run, what each side has delivered is a prefix of what the other
      has read; when it has seen the end, it has delivered all of it. */
  lemma StreamIsWhole(xs: seq<System>, es: seq<Event>, i: nat)
    requires Run(xs, es) && i < |xs|
    ensures xs[i].b.delivered <= Flatten(xs[i].a.log) && xs[i].a.delivered <= Flatten(xs[i].b.log)
    ensures xs[i].b.sawEnd ==> xs[i].b.delivered == Flatten(xs[i].a.log)
    ensures xs[i].a.sawEnd ==> xs[i].a.delivered == Flatten(xs[i].b.log)
  {
    RunKeeps(xs, es, i);
    DeliveredPrefix(xs[i].a, xs[i].b);
    DeliveredPrefix(xs[i].b, xs[i].a);
  }

  lemma DeliveredPrefix(s: Side, r: Side)
    requires Delivered(s, r)
    ensures r.delivered <= Flatten(s.log) && (r.sawEnd ==> r.delivered == Flatten(s.log))
  {
    FlattenPrefix(s.log, r.inmsg);
    if r.sawEnd {
      FlattenMore(s.log, r.inmsg);
      assert s.log[..|s.log|] == s.log;
    }
  }

  /** No run blocks the network reader on an empty unacked queue or meets its assertion, and no
      buffer is ever lost or in two places; those held carry consecutive numbers from lastacked, and
      ack values never go down with the message number. */
  lemma NeverFaults(xs: seq<System>, es: seq<Event>, i: nat)
    requires Run(xs, es) && i < |xs|
    ensures !xs[i].a.fault && !xs[i].b.fault
    ensures Partition(xs[i].a) && Partition(xs[i].b)
    ensures Numbered(xs[i].a) && Numbered(xs[i].b)
    ensures AcksOrdered(xs[i].a) && AcksOrdered(xs[i].b)
  {
    RunKeeps(xs, es, i);
  }

  /** s has ended exactly if it has seen the other side's end or written its own. */
  predicate EndsRightly(s: Side) {
    s.done <==> s.sawEnd || (s.acks != [] && |s.acks| <= |s.log| && s.log[|s.acks| - 1] == [])
  }

  lemma EndsStep(x: System, e: Event)
    requires Inv(x) && EndsRightly(x.a) && Enabled(x, e)
    ensures EndsRightly(Step(x, e).a) && Step(x, e).b == x.b
  {
    hide LinkOk, AcksOrdered, Partition, EndsOnce, TakeAcked;
    if e.EvSend? {
      assert x.a.unacked[|x.a.unacked| - 1] == Held(x.a)[|x.a.unacked| - 1];
    }
  }

  /** In every state of every run, an endpoint is done exactly if it has seen the other's end, or the last
      message it has written was its own. */
  lemma {:induction false} DoneAtEnd(xs: seq<System>, es: seq<Event>, i: nat)
    requires Run(xs, es) && i < |xs|
    ensures EndsRightly(xs[i].a) && EndsRightly(xs[i].b)
  {
    if i > 0 {
      var x, y, e := xs[i - 1], xs[i], es[i - 1];
      DoneAtEnd(xs, es, i - 1);
      RunKeeps(xs, es, i - 1);
      assert Next(x, xs[i - 1 + 1], e);
      hide Inv, Step, Enabled, EndsRightly;
      if Enabled(x, e) && y == Step(x, e) {
        EndsStep(x, e);
      } else {
        InvSwap(x);
        EndsStep(Swap(x), e);
      }
    }
  }

  /** A keepalive carries no data. */
  predicate Unnumbered(w: seq<Msg>) {
    forall i :: 0 <= i < |w| && w[i].num < 0 ==> w[i].data == []
  }

  lemma UnnumberedStep(x: System, e: Event)
    requires Inv(x) && Unnumbered(x.ab) && Unnumbered(x.ba) && Enabled(x, e)
    ensures Unnumbered(Step(x, e).ab) && Unnumbered(Step(x, e).ba)
  {
    hide LinkOk;
    assert forall i :: 0 <= i < |x.a.unacked| ==> x.a.unacked[i] == Held(x.a)[i];
  }

  lemma {:induction false} KeepalivesEmpty(xs: seq<System>, es: seq<Event>, i: nat)
    requires Run(xs, es) && i < |xs|
    ensures Unnumbered(xs[i].ab) && Unnumbered(xs[i].ba)
  {
    if i > 0 {
      var x, y, e := xs[i - 1], xs[i], es[i - 1];
      KeepalivesEmpty(xs, es, i - 1);
      RunKeeps(xs, es, i - 1);
      assert Next(x, xs[i - 1 + 1], e);
      hide Inv, Step, Enabled, Unnumbered;
      if Enabled(x, e) && y == Step(x, e) {
        UnnumberedStep(x, e);
      } else {
        InvSwap(x);
        UnnumberedStep(Swap(x), e);
      }
    }
  }

  lemma AnyKeeps(xs: seq<System>, es: seq<Event>, i: nat, x: System)
    requires Run(xs, es) && i < |xs| && (x == xs[i] || x == Swap(xs[i]))
    ensures Inv(x) && Unnumbered(x.ba)
  {
    RunKeeps(xs, es, i);
    KeepalivesEmpty(xs, es, i);
    InvSwap(xs[i]);
    hide Inv, Unnumbered;
  }

  /**
   * What receiving does, in every state of every run and on both sides: nothing for a keepalive or for data
   * received before; for the end, the receiver is done; and the data it is waiting for is added to what it
   * delivered, and as many buffers as are newly acknowledged, the oldest, are free again.
   */
  lemma ReceivesRightly(xs: seq<System>, es: seq<Event>, i: nat, x: System)
    requires Run(xs, es) && i < |xs| && (x == xs[i] || x == Swap(xs[i])) && Enabled(x, EvReceive)
    ensures var r, m, y := x.a, x.ba[0], Step(x, EvReceive);
      && y.ba == x.ba[1..] && y.ab == x.ab && y.b == x.b && y.live == x.live
      && (m.num < 0 ==> y.a == r)
      && (0 <= m.num < r.inmsg && m.data != [] ==> y.a == r)
      && (m.num >= 0 && m.data == [] ==> y.a == r.(done := true, sawEnd := true))
      && (m.num >= r.inmsg && m.data != [] ==>
            && m.num == r.inmsg && 0 <= m.acked - r.lastacked <= |r.unacked|
            && y.a == r.(unacked := r.unacked[m.acked - r.lastacked..], empty := r.empty + (m.acked - r.lastacked),
                         lastacked := m.acked, inmsg := r.inmsg + 1, delivered := r.delivered + m.data))
  {
    hide Run, Swap, SideOk, Delivered, InFlight, TakeAcked, CatchesUp;
    AnyKeeps(xs, es, i, x);
    if x.ba[0].data != [] && x.ba[0].num >= x.a.inmsg {
      NextInFlight(x.b, x.a, x.ba);
      AcceptSide(x.a, x.ba[0]);
    }
  }

  /**
   * What is written, in every state of every run and on both sides: the next message, with the piece read under
   * its number and the count of what was received as its ack; a keepalive with that ack; and after a new
   * connection all that is not acknowledged, oldest first, each just as it was written first. It reaches the
   * wire if there is a connection.
   */
  lemma WritesRightly(xs: seq<System>, es: seq<Event>, i: nat, x: System)
    requires Run(xs, es) && i < |xs| && (x == xs[i] || x == Swap(xs[i]))
    ensures Enabled(x, EvSend) ==>
      && |x.a.acks| < |x.a.log|
      && var m := Msg(|x.a.acks|, x.a.inmsg, x.a.log[|x.a.acks|]);
      Step(x, EvSend).ab == if x.live && x.a.up then x.ab + [m] else x.ab
    ensures Enabled(x, EvKeepalive) ==>
      Step(x, EvKeepalive) == x.(ab := if x.live && x.a.up then x.ab + [Msg(-1, x.a.inmsg, [])] else x.ab)
    ensures Enabled(x, EvSynchronize) ==>
      && |x.a.acks| == x.a.lastacked + |x.a.unacked|
      && (forall k :: 0 <= k < |x.a.unacked| ==> Wrote(x.a, x.a.lastacked + k, x.a.unacked[k]))
      && Step(x, EvSynchronize) == x.(a := x.a.(up := true), ab := if x.live then x.ab + x.a.unacked else x.ab)
  {
    AnyKeeps(xs, es, i, x);
    hide Run, Swap, LinkOk, SideOk;
    if Enabled(x, EvSend) {
      StampedIs(x.a);
    }
    if Enabled(x, EvSynchronize) {
      ResentIs(x.a);
    }
  }

  lemma StampedIs(s: Side)
    requires SideOk(s) && CanSend(s)
    ensures |s.acks| < |s.log| && Stamped(s) == Msg(|s.acks|, s.inmsg, s.log[|s.acks|])
  {
    assert s.unacked[|s.unacked| - 1] == Held(s)[|s.unacked| - 1];
  }

  lemma ResentIs(s: Side)
    requires SideOk(s) && !s.pending
    ensures |s.acks| == s.lastacked + |s.unacked|
    ensures forall k :: 0 <= k < |s.unacked| ==> Wrote(s, s.lastacked + k, s.unacked[k])
  {
    hide SideOk, Wrote, Data;
    UnackedRun(s);
    forall k | 0 <= k < |s.unacked| ensures Wrote(s, s.lastacked + k, s.unacked[k]) {
      assert Wrote(s, s.unacked[0].num + k, s.unacked[k]);
    }
  }

  /** What s resends starts no later than what r is missing. */
  predicate ResendsEnough(s: Side, r: Side) {
    s.unacked != [] ==> s.unacked[0].num <= r.inmsg
  }

  lemma UnackedIsKnown(s: Side, r: Side, w: seq<Msg>, v: seq<Msg>, live: bool)
    requires SideOk(s) && SideOk(r) && LinkOk(r, s, v, live) && LinkOk(s, r, w, live)
    ensures ResendsEnough(s, r)
  {
    hide Flatten, Data, Consecutive;
    if s.unacked != [] {
      assert s.unacked[0] == Held(s)[0];
    }
  }

  /** Nothing is skipped or reordered: the numbered messages on either wire are a run of what the
      sender has written, each just as it was written first, and the first of them is either the next
      one or a duplicate; what would be resent starts no later than what is missing. */
  lemma NoGapOnTheWire(xs: seq<System>, es: seq<Event>, i: nat)
    requires Run(xs, es) && i < |xs|
    ensures InFlight(xs[i].a, xs[i].b, xs[i].ab) && InFlight(xs[i].b, xs[i].a, xs[i].ba)
    ensures ResendsEnough(xs[i].a, xs[i].b) && ResendsEnough(xs[i].b, xs[i].a)
  {
    RunKeeps(xs, es, i);
    var x := xs[i];
    UnackedIsKnown(x.a, x.b, x.ab, x.ba, x.live);
    UnackedIsKnown(x.b, x.a, x.ba, x.ab, x.live);
  }

  /** r has every message s has written since the start. */
  predicate CaughtUp(s: Side, r: Side) {
    && r.inmsg == s.lastacked + |s.unacked| - (if s.pending then 1 else 0)
    && r.inmsg <= |s.log| && r.delivered == Flatten(s.log[..r.inmsg])
  }

  /** Once a session is up and its wire is drained, the receiver has every message the sender has
      written since the start, whatever connections were lost on the way. */
  lemma DrainedIsCaughtUp(xs: seq<System>, es: seq<Event>, i: nat)
    requires Run(xs, es) && i < |xs| && xs[i].live
    ensures xs[i].a.up && !xs[i].b.sawEnd && Data(xs[i].ab) == [] ==> CaughtUp(xs[i].a, xs[i].b)
    ensures xs[i].b.up && !xs[i].a.sawEnd && Data(xs[i].ba) == [] ==> CaughtUp(xs[i].b, xs[i].a)
  {
    RunKeeps(xs, es, i);
  }

  // ---- the window -------------------------------------------------------------

  /** When s can take another buffer: exactly while fewer than the window are numbered, or in the
      client reader's hands, past the last ack s got in data; and that ack r has really sent. */
  predicate Window(s: Side, r: Side) {
    && (s.empty > 0 <==> s.outmsg + (if s.reading then 1 else 0) < NBUF + s.lastacked)
    && s.outmsg <= NBUF + s.lastacked && s.lastacked <= r.inmsg <= s.outmsg
    && s.inmsg <= |r.acks| && s.lastacked == if s.inmsg == 0 then 0 else r.acks[s.inmsg - 1]
  }

  lemma WindowBound(xs: seq<System>, es: seq<Event>, i: nat)
    requires Run(xs, es) && i < |xs|
    ensures Window(xs[i].a, xs[i].b) && Window(xs[i].b, xs[i].a)
  {
    RunKeeps(xs, es, i);
  }

  /** s can number no more than the window, and has no buffer left exactly when it has. */
  predicate Stalling(s: Side, r: Side) {
    && s.outmsg <= NBUF && r.inmsg <= NBUF && s.lastacked == 0
    && (s.empty == 0 <==> s.outmsg + (if s.reading then 1 else 0) == NBUF)
  }

  /** Acks ride only on data: however long a run, while one side's client sends nothing the other side
      gets no more than the window across, though the connection never fails. */
  lemma OneWayTrafficStalls(xs: seq<System>, es: seq<Event>, i: nat)
    requires Run(xs, es) && i < |xs|
    ensures xs[i].b.outmsg == 0 ==> Stalling(xs[i].a, xs[i].b)
    ensures xs[i].a.outmsg == 0 ==> Stalling(xs[i].b, xs[i].a)
  {
    RunKeeps(xs, es, i);
  }

  /** Both sides up, k one-byte messages sent by a and all of them received by b. */
  function Sent(k: nat): System
    requires k <= NBUF
  {
    System(
      FRESH.(empty := NBUF - k, unacked := seq(k, i requires 0 <= i < k => Msg(i, 0, [0])), outmsg := k, up := true,
             log := seq(k, _ => [0]), acks := seq(k, _ => 0)),
      FRESH.(inmsg := k, up := true, delivered := seq(k, _ => 0)),
      [], [], true)
  }

  lemma RunMore(xs: seq<System>, es: seq<Event>, y: System, e: Event)
    requires Run(xs, es) && Next(xs[|xs| - 1], y, e)
    ensures Run(xs + [y], es + [e])
  {
    hide Next;
    var n := |es|;
    forall i | 0 <= i < n + 1 ensures Next((xs + [y])[i], (xs + [y])[i + 1], (es + [e])[i]) {
      if i < n {
        assert Next(xs[i], xs[i + 1], es[i]);
      }
    }
  }

  /** No connection breaks, and no client hangs up. */
  predicate Unbroken(es: seq<Event>) {
    forall i :: 0 <= i < |es| ==> !es[i].EvBreak? && !es[i].EvHangup?
  }

  /** A run from the start to the state with no message sent yet. */
  lemma Connected() returns (xs: seq<System>, es: seq<Event>)
    ensures Run(xs, es) && xs[|xs| - 1] == Sent(0) && Unbroken(es)
  {
    var x1 := Step(INITIAL, EvRedial);
    var x2 := Step(x1, EvSynchronize);
    var x3 := Swap(Step(Swap(x2), EvSynchronize));
    assert Run([INITIAL], []);
    RunMore([INITIAL], [], x1, EvRedial);
    RunMore([INITIAL] + [x1], [] + [EvRedial], x2, EvSynchronize);
    RunMore([INITIAL] + [x1] + [x2], [] + [EvRedial] + [EvSynchronize], x3, EvSynchronize);
    xs, es := [INITIAL] + [x1] + [x2] + [x3], [] + [EvRedial] + [EvSynchronize] + [EvSynchronize];
  }

  /** The same with one more message in a's hands, about to be written. */
  function Sending(k: nat): System
    requires k < NBUF
  {
    Sent(k).(a := Sent(k).a.(empty := NBUF - k - 1, unacked := Sent(k + 1).a.unacked, pending := true,
                             outmsg := k + 1, log := Sent(k + 1).a.log))
  }

  lemma QueueOne(k: nat)
    requires k < NBUF
    ensures var x := Sent(k);
      && Enabled(x, EvTake) && Enabled(Step(x, EvTake), EvRead([0], 0))
      && var x2 := Step(Step(x, EvTake), EvRead([0], 0));
      Enabled(x2, EvQueue) && Step(x2, EvQueue) == Sending(k)
  {
    var x2 := Step(Step(Sent(k), EvTake), EvRead([0], 0));
    var m := Msg(k, 0, [0]);
    assert x2.a.unsent == [m];
    assert Sent(k).a.unacked + [m] == Sent(k + 1).a.unacked && Sent(k).a.log + [[0]] == Sent(k + 1).a.log;
  }

  lemma SendOne(k: nat)
    requires k < NBUF
    ensures Enabled(Sending(k), EvSend)
    ensures var x := Step(Sending(k), EvSend);
      Enabled(Swap(x), EvReceive) && Swap(Step(Swap(x), EvReceive)) == Sent(k + 1)
  {
    var x := Sending(k);
    var u := x.a.unacked;
    assert u[..k] + [Msg(k, 0, [0])] == u;
    assert x.a.acks + [0] == Sent(k + 1).a.acks;
    assert x.b.delivered + [0] == Sent(k + 1).b.delivered;
  }

  /** The stall is real: a run, over a connection that never fails, in which all that was sent has
      arrived, nothing is on its way, and a has no buffer left. */
  lemma {:induction false} StalledRun(k: nat) returns (xs: seq<System>, es: seq<Event>)
    requires k <= NBUF
    ensures Run(xs, es) && xs[|xs| - 1] == Sent(k) && Unbroken(es)
    ensures k == NBUF ==> Sent(k).a.empty == 0 && Sent(k).b.outmsg == 0 && Sent(k).b.inmsg == Sent(k).a.outmsg == NBUF
  {
    if k == 0 {
      xs, es := Connected();
    } else {
      xs, es := StalledRun(k - 1);
      QueueOne(k - 1);
      SendOne(k - 1);
      hide Step, Enabled, Run, Sending;
      var x0 := Sent(k - 1);
      var x1 := Step(x0, EvTake);
      var x2 := Step(x1, EvRead([0], 0));
      var x3 := Sending(k - 1);
      var x4 := Step(x3, EvSend);
      RunMore(xs, es, x1, EvTake);
      RunMore(xs + [x1], es + [EvTake], x2, EvRead([0], 0));
      RunMore(xs + [x1] + [x2], es + [EvTake] + [EvRead([0], 0)], x3, EvQueue);
      xs, es := xs + [x1] + [x2] + [x3], es + [EvTake] + [EvRead([0], 0)] + [EvQueue];
      RunMore(xs, es, x4, EvSend);
      RunMore(xs + [x4], es + [EvSend], Sent(k), EvReceive);
      xs, es := xs + [x4] + [Sent(k)], es + [EvSend] + [EvReceive];
    }
  }

  // ---- recovery ----------------------------------------------------------------

  function Last(xs: seq<System>): System
    requires xs != []
  {
    xs[|xs| - 1]
  }

  /** x as a sees it, or as b does. */
  function View(x: System, b: bool): System {
    if b then Swap(x) else x
  }

  /** A run goes on with an action of one side. */
  lemma Act(xs: seq<System>, es: seq<Event>, e: Event, b: bool) returns (ys: seq<System>, fs: seq<Event>)
    requires Run(xs, es) && Enabled(View(Last(xs), b), e)
    ensures Run(ys, fs) && xs <= ys && ys != [] && View(Last(ys), b) == Step(View(Last(xs), b), e)
  {
    hide Step, Enabled, Run;
    assert xs != [] by { RunNonempty(xs, es); }
    var y := View(Step(View(Last(xs), b), e), b);
    RunMore(xs, es, y, e);
    ys, fs := xs + [y], es + [e];
  }

  lemma RunNonempty(xs: seq<System>, es: seq<Event>)
    requires Run(xs, es)
    ensures xs != []
  {
  }

  /** s is not just about to write its end. */
  predicate NotEnding(s: Side) {
    !s.done && (s.pending ==> s.unacked != [] && s.unacked[|s.unacked| - 1].data != [])
  }

  /** t is s with no connection and nothing half done; it may have written a message into the void. */
  predicate Quieted(s: Side, t: Side) {
    !t.up && !t.pending && !t.done && t.log == s.log && s.acks <= t.acks
  }

  /** With the connection gone, a side finds out, and ends the write it was at. */
  lemma Quiet(xs: seq<System>, es: seq<Event>, b: bool) returns (ys: seq<System>, fs: seq<Event>)
    requires Run(xs, es) && !Last(xs).live && NotEnding(View(Last(xs), b).a)
    ensures Run(ys, fs) && xs <= ys && !Last(ys).live
    ensures View(Last(ys), b).b == View(Last(xs), b).b && Quieted(View(Last(xs), b).a, View(Last(ys), b).a)
  {
    ys, fs := xs, es;
    RunNonempty(xs, es);
    hide Run;
    if View(Last(ys), b).a.up {
      ys, fs := Act(ys, fs, EvHangup, b);
    }
    if View(Last(ys), b).a.pending {
      ys, fs := Act(ys, fs, EvSend, b);
    }
  }

  /** t is s after it has received some messages. */
  predicate Drained(s: Side, t: Side) {
    t.up && t.log == s.log && t.acks == s.acks && (t.done ==> t.sawEnd)
  }

  /** A side takes all that is on its wire, or up to the end of the stream. */
  lemma {:induction false} Drain(xs: seq<System>, es: seq<Event>, b: bool) returns (ys: seq<System>, fs: seq<Event>)
    requires Run(xs, es) && Last(xs).live && View(Last(xs), b).a.up && !View(Last(xs), b).a.done
    ensures Run(ys, fs) && xs <= ys && Last(ys).live && View(Last(ys), b).b == View(Last(xs), b).b
    ensures View(Last(ys), b).ab == View(Last(xs), b).ab && Drained(View(Last(xs), b).a, View(Last(ys), b).a)
    ensures View(Last(ys), b).ba == [] || View(Last(ys), b).a.done
    decreases |View(Last(xs), b).ba|
  {
    ys, fs := xs, es;
    RunNonempty(xs, es);
    hide Run, Inv, Step, Unnumbered;
    var x := View(Last(xs), b);
    AnyKeeps(xs, es, |xs| - 1, x);
    if x.ba != [] {
      DrainOne(x);
      ys, fs := Act(xs, es, EvReceive, b);
      if !View(Last(ys), b).a.done {
        ys, fs := Drain(ys, fs, b);
      }
    }
  }

  lemma DrainOne(x: System)
    requires Inv(x) && x.a.up && !x.a.done && x.ba != []
    ensures Enabled(x, EvReceive)
    ensures var y := Step(x, EvReceive);
      y.b == x.b && y.ab == x.ab && y.ba == x.ba[1..] && y.live == x.live && Drained(x.a, y.a)
  {
    assert !x.a.fault;
    hide SideOk, LinkOk, TakeAcked;
  }

  /** r has all that s has ever written, or everything up to the end of the stream. */
  predicate HasAll(s: Side, r: Side) {
    && |s.acks| <= |s.log|
    && (r.sawEnd || (r.inmsg == |s.acks| && r.delivered == Flatten(s.log[..|s.acks|])))
    && (r.sawEnd ==> r.delivered == Flatten(s.log))
  }

  /**
   * Every run in which neither side is at its end can go on, over one new connection, to a state in which each
   * side has delivered all that the other had written before, whatever was lost.
   */
  lemma Recovers(xs: seq<System>, es: seq<Event>) returns (ys: seq<System>, fs: seq<Event>)
    requires Run(xs, es) && NotEnding(Last(xs).a) && NotEnding(Last(xs).b)
    ensures Run(ys, fs) && xs <= ys && Last(ys).live && Last(ys).a.up && Last(ys).b.up
    ensures Last(ys).a.log == Last(xs).a.log && Last(xs).a.acks <= Last(ys).a.acks
    ensures Last(ys).b.log == Last(xs).b.log && Last(xs).b.acks <= Last(ys).b.acks
    ensures HasAll(Last(ys).a, Last(ys).b) && HasAll(Last(ys).b, Last(ys).a)
  {
    hide Run;
    ys, fs := Act(xs, es, EvBreak(0, 0), false);
    ys, fs := Quiet(ys, fs, false);
    ys, fs := Quiet(ys, fs, true);
    ys, fs := Act(ys, fs, EvRedial, false);
    ys, fs := Act(ys, fs, EvSynchronize, false);
    ys, fs := Act(ys, fs, EvSynchronize, true);
    ys, fs := Drain(ys, fs, false);
    ys, fs := Drain(ys, fs, true);
    Caught(ys, fs);
  }

  lemma Caught(xs: seq<System>, es: seq<Event>)
    requires Run(xs, es) && Last(xs).live && Last(xs).a.up && Last(xs).b.up
    requires Last(xs).a.sawEnd || Last(xs).ba == []
    requires Last(xs).b.sawEnd || Last(xs).ab == []
    ensures HasAll(Last(xs).a, Last(xs).b) && HasAll(Last(xs).b, Last(xs).a)
  {
    var x := Last(xs);
    RunKeeps(xs, es, |xs| - 1);
    hide Run, SideOk, InFlight, Flatten;
    DeliveredPrefix(x.a, x.b);
    DeliveredPrefix(x.b, x.a);
  }
}

/** Events for a connection that lwip_accept has not finished with yet
    (Utilities/lwip-1.3.1/src/api/sockets.c:312-320, 1037-1087).  Until a descriptor exists, conn->socket itself
    counts the receive events downwards from -1; lwip_accept then moves the count into rcvevent. */
module AcceptEvents {
  import opened Bits
  import opened SelectProtocol

  /** An event_callback on this connection: after its unlocked read of conn->socket, or past get_socket. */
  datatype Callback = HasRead(s: int, e: Event) | Fetched(e: Event)

  /** How far lwip_accept is: no descriptor, descriptor allocated, inside its socksem section with rcvevent already
      adjusted, finished. */
  datatype Phase = NoSocket | Allocated | Holding | Finished

  /** What became of an event: seen while there was no descriptor, applied to the socket, or dropped. */
  datatype Outcome = Early(e: Event) | Applied(e: Event) | Dropped(e: Event)

  /** outcomes lists the callbacks that have dealt with their event, latest first. */
  datatype Conn = Conn(socket: int, rcvevent: int, phase: Phase, fd: nat, cbs: map<nat, Callback>,
                       outcomes: seq<Outcome>)

  /** One step: a callback's unlocked read; what it does next (the re-check under socksem, or get_socket); its update
      under selectsem; and lwip_accept's alloc_socket, its addition to rcvevent and its assignment of the descriptor,
      the last two under one hold of socksem. */
  datatype Action = Read(t: nat, e: Event) | Recheck(t: nat) | Update(t: nat) | Alloc(newsock: nat) | Add | Assign

  predicate Init(c: Conn)
  {
    c.socket == -1 && c.phase == NoSocket && c.cbs == map[] && c.outcomes == []
  }

  predicate Enabled(c: Conn, a: Action)
  {
    match a
    case Read(t, _) => t !in c.cbs
    case Recheck(t) => t in c.cbs && c.cbs[t].HasRead? && (c.cbs[t].s < 0 ==> c.phase != Holding)
    case Update(t) => t in c.cbs && c.cbs[t].Fetched?
    case Alloc(_) => c.phase == NoSocket
    case Add => c.phase == Allocated
    case Assign => c.phase == Holding
  }

  function Finish(c: Conn, t: nat, o: Outcome): Conn
  {
    c.(cbs := c.cbs - {t}, outcomes := [o] + c.outcomes)
  }

  function Do(c: Conn, a: Action): Conn
    requires Enabled(c, a)
  {
    match a
    case Read(t, e) => c.(cbs := c.cbs[t := HasRead(c.socket, e)])
    case Recheck(t) =>
      var e := c.cbs[t].e;
      if c.cbs[t].s < 0 then
        if c.socket < 0 then
          Finish(c.(socket := if e == RcvPlus then c.socket - 1 else c.socket), t, Early(e))
        else
          Finish(c, t, Dropped(e))
      else
        c.(cbs := c.cbs[t := Fetched(e)])
    case Update(t) =>
      var e := c.cbs[t].e;
      Finish(c.(rcvevent := Updated(Sock(true, false, c.rcvevent, true), e).rcvevent), t, Applied(e))
    case Alloc(newsock) => c.(phase := Allocated, fd := newsock, rcvevent := 0)
    case Add => c.(phase := Holding, rcvevent := S16(c.rcvevent + (-1 - c.socket)))
    case Assign => c.(phase := Finished, socket := c.fd)
  }

  /** What an event should add to rcvevent. */
  function Weight(e: Event): int
  {
    match e
    case RcvPlus => 1
    case RcvMinus => -1
    case _ => 0
  }

  /** RCVPLUS minus RCVMINUS over all events dealt with. */
  function Balance(os: seq<Outcome>): int
  {
    if os == [] then 0 else Weight(os[0].e) + Balance(os[1..])
  }

  /** The same over the events that left no trace: dropped ones, and RCVMINUS while there was no descriptor. */
  function Untraced(os: seq<Outcome>): int
  {
    if os == [] then 0
    else (if os[0].Dropped? || (os[0].Early? && os[0].e != RcvPlus) then Weight(os[0].e) else 0) + Untraced(os[1..])
  }

  /** Before the descriptor is assigned conn->socket is -1 minus the RCVPLUS events seen, nothing has been applied
      or dropped, and no callback has got past get_socket; afterwards rcvevent is the balance of all events except the
      untraced ones, in 16-bit arithmetic. */
  ghost predicate Inv(c: Conn)
  {
    (c.phase == Finished <==> c.socket >= 0) &&
    (c.phase != Finished ==>
       c.socket == -1 - (Balance(c.outcomes) - Untraced(c.outcomes)) &&
       (forall o :: o in c.outcomes ==> o.Early?) &&
       forall t :: t in c.cbs ==> c.cbs[t].HasRead? && c.cbs[t].s < 0) &&
    (c.phase == Allocated ==> c.rcvevent == 0) &&
    (c.phase == Holding || c.phase == Finished ==> c.rcvevent == S16(Balance(c.outcomes) - Untraced(c.outcomes)))
  }

  lemma InvStep(c: Conn, a: Action)
    requires Inv(c) && Enabled(c, a)
    ensures Inv(Do(c, a))
  {
    hide S16;
    var c' := Do(c, a);
    if |c'.outcomes| > |c.outcomes| {
      assert c'.outcomes[1..] == c.outcomes;
      S16Step(Balance(c.outcomes) - Untraced(c.outcomes), Weight(c'.outcomes[0].e));
    }
  }

  ghost predicate Run(cs: seq<Conn>, acts: seq<Action>)
  {
    |cs| == |acts| + 1 && Init(cs[0]) &&
    forall i :: 0 <= i < |acts| ==> Enabled(cs[i], acts[i]) && cs[i + 1] == Do(cs[i], acts[i])
  }

  /** On every interleaving of callbacks with lwip_accept. */
  lemma {:induction false} EventsSurviveAccept(cs: seq<Conn>, acts: seq<Action>, i: nat)
    requires Run(cs, acts) && i < |cs|
    ensures Inv(cs[i])
  {
    if i > 0 {
      EventsSurviveAccept(cs, acts, i - 1);
      InvStep(cs[i - 1], acts[i - 1]);
    }
  }

  /** An accepted socket's rcvevent is the balance of all events dealt with so far exactly when the untraced ones
      cancel out, counting modulo 65536; in particular when no event was dropped and no RCVMINUS came early. */
  lemma AcceptedCountExact(cs: seq<Conn>, acts: seq<Action>, i: nat)
    requires Run(cs, acts) && i < |cs| && cs[i].phase == Finished
    ensures cs[i].rcvevent == S16(Balance(cs[i].outcomes)) <==> Untraced(cs[i].outcomes) % 65536 == 0
    ensures (forall o :: o in cs[i].outcomes ==> !o.Dropped? && (o.Early? ==> o.e != RcvMinus)) ==>
              cs[i].rcvevent == S16(Balance(cs[i].outcomes))
  {
    var os := cs[i].outcomes;
    EventsSurviveAccept(cs, acts, i);
    SameS16(Balance(os), Untraced(os));
    if forall o :: o in os ==> !o.Dropped? && (o.Early? ==> o.e != RcvMinus) {
      AllTraced(os);
    }
  }

  lemma SameS16(b: int, u: int)
    ensures S16(b - u) == S16(b) <==> u % 65536 == 0
  {
  }

  lemma {:induction false} AllTraced(os: seq<Outcome>)
    requires forall o :: o in os ==> !o.Dropped? && (o.Early? ==> o.e != RcvMinus)
    ensures Untraced(os) == 0
  {
    if os != [] {
      assert os[0] in os;
      AllTraced(os[1..]);
    }
  }

  // ----- exactly which events are dropped -----

  ghost predicate AssignedBefore(acts: seq<Action>, i: nat)
    requires i <= |acts|
  {
    exists m :: 0 <= m < i && acts[m] == Assign
  }

  lemma {:induction false} FinishedOnceAssigned(cs: seq<Conn>, acts: seq<Action>, i: nat)
    requires Run(cs, acts) && i < |cs|
    ensures cs[i].socket >= 0 <==> AssignedBefore(acts, i)
  {
    EventsSurviveAccept(cs, acts, i);
    if i > 0 {
      FinishedOnceAssigned(cs, acts, i - 1);
      EventsSurviveAccept(cs, acts, i - 1);
      if acts[i - 1] != Assign {
        assert AssignedBefore(acts, i) ==> AssignedBefore(acts, i - 1);
      }
    }
  }

  lemma {:induction false} ReadIsKept(cs: seq<Conn>, acts: seq<Action>, i: nat, j: nat, t: nat, e: Event)
    requires Run(cs, acts) && i < j < |cs| && acts[i] == Read(t, e)
    requires forall k :: i < k < j ==> acts[k] != Recheck(t)
    ensures t in cs[j].cbs && cs[j].cbs[t] == HasRead(cs[i].socket, e)
    decreases j
  {
    if j > i + 1 {
      ReadIsKept(cs, acts, i, j - 1, t, e);
    }
  }

  /** A callback drops its event exactly when lwip_accept's assignment falls between its unlocked read and its
      re-check; otherwise the re-check counts it or passes it on to the update. */
  lemma DroppedExactly(cs: seq<Conn>, acts: seq<Action>, i: nat, j: nat, t: nat, e: Event)
    requires Run(cs, acts) && i < j < |acts| && acts[i] == Read(t, e) && acts[j] == Recheck(t)
    requires forall k :: i < k < j ==> acts[k] != Recheck(t)
    ensures cs[j + 1].outcomes == [Dropped(e)] + cs[j].outcomes <==> exists m :: i < m < j && acts[m] == Assign
    ensures cs[j + 1].outcomes == [Early(e)] + cs[j].outcomes <==> !AssignedBefore(acts, j)
    ensures t in cs[j + 1].cbs && cs[j + 1].cbs[t] == Fetched(e) <==> AssignedBefore(acts, i)
  {
    hide S16;
    ReadIsKept(cs, acts, i, j, t, e);
    FinishedOnceAssigned(cs, acts, i);
    FinishedOnceAssigned(cs, acts, j);
    assert cs[i + 1] == Do(cs[i], acts[i]) && cs[j + 1] == Do(cs[j], acts[j]);
    var os := cs[j].outcomes;
    assert |[Dropped(e)] + os| == |[Early(e)] + os| == |os| + 1;
    assert ([Dropped(e)] + os)[0] == Dropped(e) && ([Early(e)] + os)[0] == Early(e);
    if m :| i < m < j && acts[m] == Assign {
      assert AssignedBefore(acts, i) ==> AssignedBefore(acts, m);
      FinishedOnceAssigned(cs, acts, m);
      EventsSurviveAccept(cs, acts, m);
    } else if AssignedBefore(acts, j) {
      var m :| 0 <= m < j && acts[m] == Assign;
      assert m < i;
    }
  }

  /** A run in which the only event is lost: the callback reads, lwip_accept runs to its end, the callback re-checks. */
  lemma AnEventCanBeDropped()
    ensures exists cs: seq<Conn>, acts: seq<Action> ::
              Run(cs, acts) && |acts| == 5 && cs[5].phase == Finished && cs[5].cbs == map[] &&
              Balance(cs[5].outcomes) == 1 && cs[5].rcvevent == 0
  {
    var acts := [Read(0, RcvPlus), Alloc(3), Add, Assign, Recheck(0)];
    var c0 := Conn(-1, 0, NoSocket, 0, map[], []);
    var c1 := Do(c0, acts[0]);
    var c2 := Do(c1, acts[1]);
    var c3 := Do(c2, acts[2]);
    var c4 := Do(c3, acts[3]);
    var c5 := Do(c4, acts[4]);
    assert c5.outcomes == [Dropped(RcvPlus)] && Balance(c5.outcomes) == 1;
    assert Run([c0, c1, c2, c3, c4, c5], acts);
  }

  /** The three steps of lwip_accept taken together, as AcceptTail below takes them. */
  lemma AcceptInOneGo(c: Conn, fd: nat)
    requires Enabled(c, Alloc(fd))
    ensures Do(Do(Do(c, Alloc(fd)), Add), Assign) ==
            c.(phase := Finished, fd := fd, socket := fd, rcvevent := S16(-1 - c.socket))
  {
  }

  // ----- the code -----

  /** struct netconn as far as these functions look at it. */
  class Netconn {
    var socket: int

    constructor ()
      ensures socket == -1
    {
      socket := -1;
    }
  }

  /** The part of event_callback under socksem, for a callback whose unlocked read was negative. */
  method CountEarly(conn: Netconn, evt: Event) returns (done: bool)
    modifies conn
    ensures done == (old(conn.socket) < 0)
    ensures conn.socket == old(conn.socket) - (if done && evt == RcvPlus then 1 else 0)
  {
    done := conn.socket < 0;
    if done {
      if evt == RcvPlus {
        conn.socket := conn.socket - 1;
      }
    }
  }

  /** The tail of lwip_accept: give the connection a descriptor and move the events counted so far into its
      rcvevent; -1 when every descriptor is taken. */
  method AcceptTail(layer: SocketLayer, conn: Netconn) returns (newsock: int)
    requires layer.Valid()
    modifies layer`sockets, conn
    ensures layer.Valid() && -1 <= newsock < |layer.sockets| == |old(layer.sockets)|
    ensures newsock == -1 ==> conn.socket == old(conn.socket) && layer.sockets == old(layer.sockets) &&
                              forall k :: 0 <= k < |layer.sockets| ==> layer.sockets[k].open
    ensures newsock >= 0 ==> !old(layer.sockets)[newsock].open &&
                              conn.socket == newsock &&
                              layer.sockets == old(layer.sockets)[newsock :=
                                Sock(true, false, S16(-1 - old(conn.socket)), true)]
  {
    newsock := layer.AllocSocket();
    if newsock == -1 {
      return;
    }
    var nsock := layer.sockets[newsock];
    assert nsock == Sock(true, false, 0, true);
    layer.sockets := layer.sockets[newsock := nsock.(rcvevent := S16(nsock.rcvevent + (-1 - conn.socket)))];
    conn.socket := newsock;
  }
}

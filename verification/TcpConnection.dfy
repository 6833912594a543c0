/** The TCP side of the command server (Project/src/tcpserver.c:77-334): what the callbacks of one connection do to its
    record es, to the callbacks registered in the pcb, and to the pbufs es holds. */
module TcpConnection {
  import opened Bits
  import opened Pbufs

  const TCP_RECV_BUF_MAX_SIZE := 2048

  datatype EsState = Accepted | Received | Closing

  /** What is registered in the pcb: es as argument, and the four callbacks. */
  datatype Pcb = Pcb(arg: bool, recv: bool, sent: bool, poll: bool, errf: bool)

  const REGISTERED := Pcb(true, true, true, true, true)
  const CLEARED := Pcb(false, false, false, false, false)

  /** One connection.  pcb is None once the TCP core has deleted it.  esMade: tcp_server_accept had memory for es;
      freed: how often es has been passed to mem_free.  chain: the pbufs es->p leads to.  acked: the sum of the
      tcp_recved calls.  frames: what was copied from tcp_recvbuf on and handed to XVC_Interface, call by call.  given,
      released and leaked count pbufs: handed in, deallocated, and no longer reachable without that. */
  datatype Server = Server(state: EsState, chain: seq<Pb>, pcb: Option<Pcb>, esMade: bool, freed: nat, acked: nat,
                           frames: seq<seq<byte>>, given: nat, released: nat, leaked: nat)

  /** How many pbufs fit one after the other into a send buffer of this size: the maximal such prefix. */
  function Consumable(chain: seq<Pb>, sndbuf: nat): (k: nat)
    ensures k <= |chain| && (forall i :: 0 <= i < k ==> |chain[i].payload| <= sndbuf)
    ensures k < |chain| ==> |chain[k].payload| > sndbuf
  {
    if chain == [] || |chain[0].payload| > sndbuf then 0 else 1 + Consumable(chain[1..], sndbuf)
  }

  function Taken(chain: seq<Pb>, sndbuf: nat): seq<byte>
  {
    Bytes(chain[..Consumable(chain, sndbuf)])
  }

  /** tcp_server_deal. */
  function Dealt(s: Server, sndbuf: nat): Server
  {
    var k := Consumable(s.chain, sndbuf);
    var frame := Taken(s.chain, sndbuf);
    s.(chain := s.chain[k..], acked := s.acked + |frame|, frames := s.frames + [frame], released := s.released + k)
  }

  /** tcp_server_connection_close with an es. */
  function Closed(s: Server): Server
  {
    s.(pcb := Some(CLEARED), freed := s.freed + 1)
  }

  // ----- callbacks -----

  /** A callback of the TCP stack, with the send-buffer space it finds; err other than 0 is an error. */
  datatype Callback =
    | Recv(p: seq<Pb>, err: int, sndbuf: nat)
    | RecvNull(sndbuf: nat)
    | Sent(sndbuf: nat)
    | Poll(sndbuf: nat)
    | Error

  /** TCP hands over a packet with one reference to each pbuf and a length that fits its 16-bit field. */
  predicate Fresh(p: seq<Pb>)
  {
    p != [] && |Bytes(p)| < U16 && forall i :: 0 <= i < |p| ==> p[i].ref == 1
  }

  /** The TCP core calls what is registered. */
  predicate Enabled(s: Server, cb: Callback)
  {
    s.pcb.Some? && (cb.Recv? ==> Fresh(cb.p)) &&
    match cb
    case Sent(_) => s.pcb.value.sent
    case Poll(_) => s.pcb.value.poll
    case Error => s.pcb.value.errf
    case _ => s.pcb.value.recv
  }

  /** The callback has the es it works on: it is given one, and that has not been freed.  Only tcp_server_poll and
      tcp_server_error look whether they are given one. */
  predicate Defined(s: Server, cb: Callback)
  {
    s.pcb.Some? && if s.pcb.value.arg then s.esMade && s.freed == 0 else cb.Poll? || cb.Error?
  }

  /** es->p = NULL, whatever it led to. */
  function Forgotten(s: Server): Server
  {
    s.(chain := [], leaked := s.leaked + |s.chain|)
  }

  function Do(s: Server, cb: Callback): Server
    requires Enabled(s, cb) && Defined(s, cb)
  {
    match cb
    case RecvNull(sndbuf) =>
      var s1 := s.(state := Closing);
      if s.chain == [] then Closed(s1) else Dealt(s1, sndbuf)
    case Recv(p, err, sndbuf) =>
      var s1 := s.(given := s.given + |p|);
      if err != 0 then Forgotten(s1).(released := s.released + |p|)
      else if s.state == Closing then Forgotten(s1).(acked := s.acked + |Bytes(p)|, released := s.released + |p|)
      else if s.chain == [] then Dealt(s1.(state := Received, chain := p), sndbuf)
      else s1.(state := Received, chain := Chained(s.chain, p))
    case Sent(sndbuf) => Resumed(s, sndbuf)
    case Poll(sndbuf) => if s.pcb.value.arg then Resumed(s, sndbuf) else s.(pcb := None)
    case Error => if s.pcb.value.arg then Forgotten(s).(pcb := None, freed := s.freed + 1) else s.(pcb := None)
  }

  function Resumed(s: Server, sndbuf: nat): Server
  {
    if s.chain != [] then Dealt(s, sndbuf) else if s.state == Closing then Closed(s) else s
  }

  /** tcp_server_accept, with or without memory for es. */
  function Start(mem: bool): Server
  {
    Server(Accepted, [], Some(if mem then REGISTERED else CLEARED), mem, 0, 0, [], 0, 0, 0)
  }

  /** A step that is not defined may lead anywhere. */
  ghost predicate Run(ss: seq<Server>, cbs: seq<Callback>)
  {
    |ss| == |cbs| + 1 && (ss[0] == Start(true) || ss[0] == Start(false)) &&
    forall i :: 0 <= i < |cbs| ==> Enabled(ss[i], cbs[i]) && (Defined(ss[i], cbs[i]) ==> ss[i + 1] == Do(ss[i], cbs[i]))
  }

  /** es is an argument of the pcb exactly while it is allocated and not freed, all callbacks are registered or none,
      and every pbuf handed in is held, deallocated or leaked. */
  ghost predicate Inv(s: Server)
  {
    (s.pcb.Some? ==> s.pcb.value == REGISTERED || s.pcb.value == CLEARED) &&
    s.freed == (if s.esMade && !(s.pcb.Some? && s.pcb.value.arg) then 1 else 0) &&
    (s.pcb.Some? && s.pcb.value.arg ==> s.esMade) &&
    s.given == |s.chain| + s.released + s.leaked
  }

  lemma InvStep(s: Server, cb: Callback)
    requires Inv(s) && Enabled(s, cb)
    ensures Defined(s, cb) && Inv(Do(s, cb))
  {
    hide Bytes, Consumable, Taken;
  }

  /** In every run of callbacks, in whatever order TCP makes them: each finds an es that is there and has not been
      freed, es is freed at most once, and no pbuf gets lost other than by a leak. */
  lemma {:induction false} FreedAtMostOnce(ss: seq<Server>, cbs: seq<Callback>, i: nat)
    requires Run(ss, cbs) && i < |ss|
    ensures Inv(ss[i]) && ss[i].freed <= 1
    ensures i < |cbs| ==> Defined(ss[i], cbs[i]) && ss[i].pcb.value.arg && ss[i].freed == 0
  {
    hide Do;
    if i > 0 {
      FreedAtMostOnce(ss, cbs, i - 1);
      InvStep(ss[i - 1], cbs[i - 1]);
    }
    if i < |cbs| {
      InvStep(ss[i], cbs[i]);
    }
  }

  /** A connection never leaves ES_CLOSING. */
  lemma {:induction false} ClosingIsFinal(ss: seq<Server>, cbs: seq<Callback>, i: nat, j: nat)
    requires Run(ss, cbs) && i <= j < |ss| && ss[i].state == Closing
    ensures ss[j].state == Closing
    decreases j
  {
    if i < j {
      ClosingIsFinal(ss, cbs, i, j - 1);
      FreedAtMostOnce(ss, cbs, j - 1);
    }
  }

  /** When es is given up, and that tcp_server_connection_close is reached only with es->p == NULL in ES_CLOSING. */
  lemma ClosedOnlyWhenEmpty(s: Server, cb: Callback)
    requires Inv(s) && Enabled(s, cb)
    ensures Defined(s, cb)
    ensures var s' := Do(s, cb);
            (s'.freed == 1 <==> cb.Error? || (s.chain == [] && (cb.RecvNull? || (s.state == Closing && !cb.Recv?)))) &&
            (s'.freed == 1 && !cb.Error? ==> s.chain == [] && s'.state == Closing && s'.leaked == s.leaked)
  {
  }

  /** Exactly which callbacks leak pbufs: those that overwrite or free es while a chain still hangs on it. */
  lemma LeaksExactly(s: Server, cb: Callback)
    requires Inv(s) && Enabled(s, cb)
    ensures Defined(s, cb)
    ensures Do(s, cb).leaked > s.leaked <==>
            s.chain != [] && (cb.Error? || (cb.Recv? && (cb.err != 0 || s.state == Closing)))
  {
  }

  // ----- the receive buffer -----

  /** The chain tcp_server_deal works on if the callback gets there. */
  function Deals(s: Server, cb: Callback): seq<Pb>
  {
    match cb
    case Recv(p, err, _) => if err == 0 && s.state != Closing && s.chain == [] then p else []
    case Error => []
    case _ => s.chain
  }

  /** The callback copies more than tcp_recvbuf holds. */
  predicate Overruns(s: Server, cb: Callback)
  {
    !cb.Error? && |Taken(Deals(s, cb), cb.sndbuf)| > 2048
  }

  /** The copy of pbuf k of the chain, after all before it, ends inside tcp_recvbuf. */
  predicate CopyInside(chain: seq<Pb>, k: nat)
    requires k < |chain|
  {
    |Bytes(chain[..k])| + |chain[k].payload| <= 2048
  }

  /** All copies of a call stay inside tcp_recvbuf if and only if the pbufs dealt with together hold at most 2048
      bytes; the code does not check it. */
  lemma CopiesStayInsideExactly(chain: seq<Pb>, sndbuf: nat)
    ensures (forall k :: 0 <= k < Consumable(chain, sndbuf) ==> CopyInside(chain, k)) <==>
            |Taken(chain, sndbuf)| <= 2048
  {
    hide Bytes, Consumable;
    var n := Consumable(chain, sndbuf);
    forall k | 0 <= k < n
      ensures CopyInside(chain, k) <==> |Bytes(chain[..k + 1])| <= 2048
      ensures |Bytes(chain[..k + 1])| <= |Bytes(chain[..n])|
    {
      BytesTo(chain, k);
      BytesUpTo(chain, k + 1, n);
    }
    if n == 0 {
      NoBytes();
    } else {
      assert CopyInside(chain, n - 1) <==> |Bytes(chain[..n])| <= 2048;
    }
  }

  /** Two full segments that arrive while the send buffer has no room for them are copied together as soon as it has:
      2920 bytes into 2048. */
  lemma OverrunIsReachable(x: byte) returns (ss: seq<Server>, cbs: seq<Callback>, last: Callback)
    ensures Run(ss, cbs) && |cbs| == 2 && Enabled(ss[2], last) && Overruns(ss[2], last)
    ensures last == Sent(2920) && |Taken(Deals(ss[2], last), 2920)| == 2920
  {
    var seg := Pb(seq(1460, _ => x), 1);
    assert Bytes([seg]) == seg.payload + Bytes([]) == seg.payload;
    cbs := [Recv([seg], 0, 100), Recv([seg], 0, 100)];
    var s0 := Start(true);
    var s1 := Do(s0, cbs[0]);
    assert Consumable([seg], 100) == 0 && s1.chain == [seg];
    var s2 := Do(s1, cbs[1]);
    assert s2.chain == [seg, Pb(seg.payload, 2)];
    ss := [s0, s1, s2];
    last := Sent(2920);
    TwoSegments(s2.chain);
  }

  lemma TwoSegments(chain: seq<Pb>)
    requires |chain| == 2 && |chain[0].payload| == 1460 && |chain[1].payload| == 1460
    ensures |Taken(chain, 2920)| == 2920
  {
    assert chain[1..][1..] == [] && Consumable(chain[1..], 2920) == 1 && Consumable(chain, 2920) == 2;
    assert chain[..2] == chain;
    assert Bytes(chain[1..]) == chain[1].payload + Bytes([]);
  }

  // ----- the byte stream -----

  /** The data the callbacks brought in. */
  function Arrived(cbs: seq<Callback>): seq<byte>
  {
    if cbs == [] then []
    else
      var cb := cbs[|cbs| - 1];
      Arrived(cbs[..|cbs| - 1]) + if cb.Recv? then Bytes(cb.p) else []
  }

  lemma DealtKeepsBytes(s: Server, sndbuf: nat)
    ensures var s' := Dealt(s, sndbuf);
            Joined(s'.frames) + Bytes(s'.chain) == Joined(s.frames) + Bytes(s.chain) &&
            s'.acked - |Joined(s'.frames)| == s.acked - |Joined(s.frames)|
  {
    hide Bytes, Consumable;
    var k, frame := Consumable(s.chain, sndbuf), Taken(s.chain, sndbuf);
    assert s.chain[..k] + s.chain[k..] == s.chain;
    BytesAppend(s.chain[..k], s.chain[k..]);
    JoinedMore(s.frames, frame);
    assert (Joined(s.frames) + frame) + Bytes(s.chain[k..]) == Joined(s.frames) + Bytes(s.chain);
  }

  /** As long as the connection does not fail, no data arrives after the end and nothing is copied past tcp_recvbuf,
      everything that arrives goes to XVC_Interface in order or is still waiting in the chain; and exactly what went
      there has been acknowledged to TCP. */
  lemma {:induction false} StreamReachesServer(ss: seq<Server>, cbs: seq<Callback>, i: nat)
    requires Run(ss, cbs) && i < |ss|
    requires forall k :: 0 <= k < i ==> !cbs[k].Error? && (cbs[k].Recv? ==> cbs[k].err == 0 && ss[k].state != Closing)
    requires forall k :: 0 <= k < i ==> !Overruns(ss[k], cbs[k])
    ensures Joined(ss[i].frames) + Bytes(ss[i].chain) == Arrived(cbs[..i]) && ss[i].acked == |Joined(ss[i].frames)|
  {
    hide Bytes, Consumable, Joined, Taken, Dealt, Do;
    if i == 0 {
      NoBytes();
    } else {
      var s, cb, s' := ss[i - 1], cbs[i - 1], ss[i];
      StreamReachesServer(ss, cbs, i - 1);
      FreedAtMostOnce(ss, cbs, i - 1);
      assert cbs[..i][..i - 1] == cbs[..i - 1] && Enabled(s, cb) && s' == Do(s, cb);
      StepKeepsBytes(s, cb);
    }
  }

  lemma NoBytes()
    ensures Joined([]) == [] && Bytes([]) == []
  {
  }

  lemma StepKeepsBytes(s: Server, cb: Callback)
    requires Enabled(s, cb) && Defined(s, cb) && !cb.Error? && (cb.Recv? ==> cb.err == 0 && s.state != Closing)
    ensures var s' := Do(s, cb);
            Joined(s'.frames) + Bytes(s'.chain) ==
              Joined(s.frames) + Bytes(s.chain) + (if cb.Recv? then Bytes(cb.p) else []) &&
            s'.acked - |Joined(s'.frames)| == s.acked - |Joined(s.frames)|
  {
    hide Bytes, Consumable, Joined, Taken, Dealt, Chained;
    NoBytes();
    match cb
    case Recv(p, _, sndbuf) =>
      if s.chain == [] {
        DealtKeepsBytes(s.(given := s.given + |p|, state := Received, chain := p), sndbuf);
        assert Joined(s.frames) + Bytes(s.chain) == Joined(s.frames);
      } else {
        ChainedBytes(s.chain, p);
      }
    case RecvNull(sndbuf) => DealtKeepsBytes(s.(state := Closing), sndbuf);
    case Sent(sndbuf) => DealtKeepsBytes(s, sndbuf);
    case Poll(sndbuf) => DealtKeepsBytes(s, sndbuf);
  }

  // ----- the loop of tcp_server_deal -----

  function DealtOne(s: Server): Server
    requires s.chain != []
  {
    s.(chain := s.chain[1..], acked := s.acked + |s.chain[0].payload|, released := s.released + 1)
  }

  /** The connection after k turns of the loop. */
  function DealtSome(s: Server, k: nat): Server
    requires k <= |s.chain|
  {
    s.(chain := s.chain[k..], acked := s.acked + |Bytes(s.chain[..k])|, released := s.released + k)
  }

  lemma DealtSomeChain(s: Server, k: nat)
    requires k <= |s.chain|
    ensures |DealtSome(s, k).chain| == |s.chain| - k
  {
  }

  lemma DealStart(s: Server)
    ensures DealtSome(s, 0) == s && s.chain[0..] == s.chain && Bytes(s.chain[..0]) == []
  {
  }

  /** A turn of the loop takes the next pbuf of the maximal prefix that fits the send buffer. */
  lemma DealRound(s: Server, k: nat, sndbuf: nat, d: seq<byte>)
    requires k < |s.chain| && DealtSome(s, k).chain[0].payload == d && |d| <= sndbuf
    requires Consumable(s.chain, sndbuf) == k + Consumable(s.chain[k..], sndbuf)
    ensures DealtOne(DealtSome(s, k)) == DealtSome(s, k + 1)
    ensures Consumable(s.chain, sndbuf) == k + 1 + Consumable(s.chain[k + 1..], sndbuf)
    ensures Bytes(s.chain[..k + 1]) == Bytes(s.chain[..k]) + d
  {
    hide Bytes;
    BytesTo(s.chain, k);
    assert s.chain[k..][1..] == s.chain[k + 1..];
  }

  lemma DealEnd(s: Server, k: nat, sndbuf: nat)
    requires k <= |s.chain| && Consumable(s.chain, sndbuf) == k + Consumable(s.chain[k..], sndbuf)
    requires DealtSome(s, k).chain != [] ==> |DealtSome(s, k).chain[0].payload| > sndbuf
    ensures Consumable(s.chain, sndbuf) == k && Taken(s.chain, sndbuf) == Bytes(s.chain[..k])
    ensures var s' := DealtSome(s, k); Dealt(s, sndbuf) == s'.(frames := s'.frames + [Bytes(s.chain[..k])])
  {
  }

  // ----- the code -----

  /** struct tcp_server_struct, allocated on the heap.  Its fields are reached through the methods below, and none of
      them, mem_free included, may be called once it has been freed. */
  class Es {
    var state: EsState
    var p: Pbuf?
    ghost var freed: nat

    constructor ()
      ensures freed == 0
    {
      state, p, freed := Closing, null, 0;
    }

    method State() returns (x: EsState)
      requires freed == 0
      ensures x == state
    {
      x := state;
    }

    method SetState(x: EsState)
      requires freed == 0
      modifies this`state
      ensures state == x
    {
      state := x;
    }

    method P() returns (x: Pbuf?)
      requires freed == 0
      ensures x == p
    {
      x := p;
    }

    method SetP(x: Pbuf?)
      requires freed == 0
      modifies this`p
      ensures p == x
    {
      p := x;
    }

    method MemFree()
      requires freed == 0
      modifies this`freed
      ensures freed == 1
    {
      freed := 1;
    }
  }

  /** One accepted connection: its pcb as far as the callbacks and the acknowledged bytes go, and the receive buffer.
      Ghost state: the es that tcp_server_accept allocated, the pbufs es->p leads to, and the connection as the
      specification sees it. */
  class Connection {
    const recvbuf: array<byte>
    var live: bool
    var arg: Es?
    var recv: bool
    var sent: bool
    var poll: bool
    var errf: bool
    var acked: nat
    ghost var record: Es?
    ghost var ps: seq<Pbuf>
    ghost var view: Server

    /** The real fields are what the view says they are. */
    ghost predicate Tied()
      reads this, record
    {
      recvbuf.Length == TCP_RECV_BUF_MAX_SIZE && view.acked == acked &&
      view.pcb == (if live then Some(Pcb(arg != null, recv, sent, poll, errf)) else None) &&
      view.esMade == (record != null) && view.freed == (if record == null then 0 else record.freed) &&
      (arg != null ==> arg == record && record.state == view.state)
    }

    ghost predicate Valid()
      reads this, record, ps
    {
      Tied() && (arg != null ==> record != null && Chain(record.p, ps, view.chain) && Totals(ps, view.chain))
    }

    /** A new pcb, before tcp_server_accept. */
    constructor ()
      ensures recvbuf.Length == TCP_RECV_BUF_MAX_SIZE && fresh(recvbuf)
      ensures live && arg == null && acked == 0 && record == null
    {
      recvbuf := new byte[TCP_RECV_BUF_MAX_SIZE];
      live, arg, recv, sent, poll, errf, acked := true, null, false, false, false, false, 0;
      record, ps, view := null, [], Start(false);
    }

    /** mem says whether mem_malloc finds memory. */
    method TcpServerAccept(mem: bool)
      requires recvbuf.Length == TCP_RECV_BUF_MAX_SIZE && live && arg == null && acked == 0 && record == null
      modifies this
      ensures Valid() && view == Start(mem) && (arg != null <==> mem) && (mem ==> fresh(arg))
    {
      view, ps := Start(mem), [];
      if mem {
        var es := new Es();
        es.SetState(Accepted);
        es.SetP(null);
        record := es;
        arg := es;
        recv := true;
        sent := true;
        errf := true;
        poll := true;
      } else {
        ClearCallbacks();
      }
    }

    /** tcp_arg, tcp_sent, tcp_recv, tcp_err and tcp_poll with NULL. */
    method ClearCallbacks()
      modifies this`arg, this`recv, this`sent, this`poll, this`errf
      ensures arg == null && !recv && !sent && !poll && !errf
    {
      arg := null;
      sent := false;
      recv := false;
      errf := false;
      poll := false;
    }

    method TcpRecved(len: nat)
      modifies this`acked
      ensures acked == old(acked) + len
    {
      acked := acked + len;
    }

    method TcpServerConnectionClose(es: Es)
      requires Valid() && live && arg == es && es.freed == 0
      modifies this`arg, this`recv, this`sent, this`poll, this`errf, this`view, es`freed
      ensures Valid() && view == Closed(old(view))
    {
      ClearCallbacks();
      es.MemFree();
      view := Closed(view);
    }

    /** One turn of the loop in tcp_server_deal.  Past the end of tcp_recvbuf the copy is not modelled. */
    method DealOne(es: Es, length: nat) returns (length': nat)
      requires Valid() && arg == es && es.freed == 0 && es.p != null
      modifies this`ps, this`view, this`acked, es`p, recvbuf, (set x | x in ps)`ref, (set x | x in ps)`freed
      ensures Valid() && es.freed == 0 && ps == old(ps)[1..]
      ensures old(view).chain != [] && view == DealtOne(old(view))
      ensures length' == length + |old(view).chain[0].payload|
      ensures length' <= recvbuf.Length ==> recvbuf[..length'] == old(recvbuf[..length]) + old(view).chain[0].payload
      ensures old(ps)[0].freed == old(ps[0].freed) + 1
      ensures forall i :: 1 <= i < |old(ps)| ==> old(ps)[i].freed == old(ps[i].freed)
    {
      hide Distinct, Linked, Chain, Totals;
      var ptr := es.P();
      ChainHead(ptr, ps, view.chain);
      var plen := |ptr.payload|;
      if length + plen <= recvbuf.Length {
        PutPrefix(recvbuf[..], recvbuf[..length], ptr.payload);
        MemCpy(recvbuf, length, ptr.payload);
      }
      length' := length + plen;
      var rest := FreeFirst(ptr, ps, view.chain);
      es.SetP(rest);
      TcpRecved(plen);
      ps, view := ps[1..], DealtOne(view);
    }

    /** tcp_server_deal: pbuf by pbuf into tcp_recvbuf as long as the next one fits the send buffer, then the lot to
        XVC_Interface, even if it is nothing. */
    method TcpServerDeal(es: Es, sndbuf: nat) returns (overrun: bool)
      requires Valid() && arg == es && es.freed == 0
      modifies this`ps, this`view, this`acked, es`p, recvbuf, ps
      ensures Valid() && es.freed == 0 && view == Dealt(old(view), sndbuf)
      ensures overrun <==> |Taken(old(view).chain, sndbuf)| > TCP_RECV_BUF_MAX_SIZE
      ensures !overrun ==> var frame := Taken(old(view).chain, sndbuf); recvbuf[..|frame|] == frame
      ensures ps == old(ps)[Consumable(old(view).chain, sndbuf)..]
      ensures forall i :: 0 <= i < |old(ps)| ==>
                old(ps)[i].freed == old(ps[i].freed) + if i < Consumable(old(view).chain, sndbuf) then 1 else 0
    {
      hide Bytes, Consumable, Distinct, Linked, Chain, Totals, At, DealtSome, DealtOne, Taken, Dealt;
      ghost var ps0, s0 := ps, view;
      var length := 0;
      ghost var k: nat := 0;
      DealStart(s0);
      assert ps0[0..] == ps0;
      var p := es.P();
      ChainHead(p, ps, view.chain);
      while p != null && |p.payload| <= sndbuf
        invariant k <= |s0.chain| == |ps0| && ps == ps0[k..] && Valid() && view == DealtSome(s0, k)
        invariant arg == es && es.freed == 0 && p == es.p
        invariant Consumable(s0.chain, sndbuf) == k + Consumable(s0.chain[k..], sndbuf)
        invariant length == |Bytes(s0.chain[..k])|
        invariant length <= TCP_RECV_BUF_MAX_SIZE ==> recvbuf[..length] == Bytes(s0.chain[..k])
        invariant forall i :: 0 <= i < |ps0| ==> ps0[i].freed == old(ps[i].freed) + if i < k then 1 else 0
        decreases |ps0| - k
      {
        ChainHead(p, ps, view.chain);
        DealtSomeChain(s0, k);
        DealRound(s0, k, sndbuf, p.payload);
        assert ps[1..] == ps0[k + 1..];
        length := DealOne(es, length);
        p := es.P();
        k := k + 1;
      }
      ChainHead(p, ps, view.chain);
      DealEnd(s0, k, sndbuf);
      overrun := length > recvbuf.Length;
      view := view.(frames := view.frames + [Bytes(s0.chain[..k])]);
    }

    /** es->p = NULL, and the new chain is freed: nobody else refers to it, so all of it goes, each pbuf once. */
    method Discard(es: Es, q: Pbuf, ghost qs: seq<Pbuf>, ghost qb: seq<Pb>)
      requires Valid() && arg == es && es.freed == 0 && Chain(q, qs, qb) && Fresh(qb)
      modifies es`p, this`ps, this`view, (set x | x in qs)`ref, (set x | x in qs)`freed
      ensures Valid() && view == Forgotten(old(view)).(released := old(view).released + |qb|)
      ensures forall i :: 0 <= i < |qs| ==> qs[i].ref == 0 && qs[i].freed == old(qs[i].freed) + 1
    {
      hide Singles, FreedRefs, Bytes;
      ghost var refs := RefsOf(qb);
      SinglesAre(refs, |refs|);
      forall i | 0 <= i < |refs|
        ensures FreedRefs(refs)[i] == 0
      {
        FreedRefsAt(refs, i);
      }
      es.SetP(null);
      ps := [];
      view := Forgotten(view).(released := view.released + |qb|);
      var count := PbufFree(q, qs, refs);
    }

    /** What tcp_server_sent and, for an es, tcp_server_poll do. */
    method Resume(es: Es, sndbuf: nat) returns (overrun: bool)
      requires Valid() && live && arg == es && es.freed == 0
      modifies this, es, recvbuf, ps
      ensures Valid() && view == Resumed(old(view), sndbuf)
      ensures overrun <==> |Taken(old(view).chain, sndbuf)| > TCP_RECV_BUF_MAX_SIZE
    {
      hide Bytes, Distinct, Linked, Chain, Totals, Dealt;
      overrun := false;
      var p := es.P();
      ChainHead(p, ps, view.chain);
      if p != null {
        overrun := TcpServerDeal(es, sndbuf);
      } else {
        NoBytes();
        var state := es.State();
        if state == Closing {
          TcpServerConnectionClose(es);
        }
      }
    }

    method TcpServerSent(es: Es, sndbuf: nat) returns (overrun: bool)
      requires Valid() && arg == es && Enabled(view, Sent(sndbuf)) && Defined(view, Sent(sndbuf))
      modifies this, es, recvbuf, ps
      ensures Valid() && view == Do(old(view), Sent(sndbuf)) && overrun == Overruns(old(view), Sent(sndbuf))
    {
      hide Bytes, Consumable, Chain, Totals, Taken, Resumed;
      overrun := Resume(es, sndbuf);
    }

    /** With a null argument the connection is aborted. */
    method TcpServerPoll(es: Es?, sndbuf: nat) returns (overrun: bool)
      requires Valid() && arg == es && Enabled(view, Poll(sndbuf)) && Defined(view, Poll(sndbuf))
      modifies this, es, recvbuf, ps
      ensures Valid() && view == Do(old(view), Poll(sndbuf))
      ensures es != null ==> overrun == Overruns(old(view), Poll(sndbuf))
    {
      hide Bytes, Consumable, Chain, Totals, Taken, Resumed;
      if es != null {
        overrun := Resume(es, sndbuf);
      } else {
        live := false;
        view := view.(pcb := None);
        overrun := false;
      }
    }

    /** tcp_server_error, called when the pcb is gone: it frees es and nothing that hangs on it. */
    method TcpServerError(es: Es?)
      requires Valid() && arg == es && Enabled(view, Error) && Defined(view, Error)
      modifies this, es
      ensures Valid() && view == Do(old(view), Error)
    {
      live := false;
      ghost var next := Do(view, Error);
      if es != null {
        es.MemFree();
      }
      arg, ps, view := null, [], next;
    }

    /** tcp_server_receive without data: the peer has closed. */
    method TcpServerReceiveNull(es: Es, sndbuf: nat) returns (overrun: bool)
      requires Valid() && arg == es && Enabled(view, RecvNull(sndbuf)) && Defined(view, RecvNull(sndbuf))
      modifies this, es, recvbuf, ps
      ensures Valid() && view == Do(old(view), RecvNull(sndbuf)) && overrun == Overruns(old(view), RecvNull(sndbuf))
      ensures es.state == Closing && (arg == null <==> old(view).chain == []) && (es.freed == 1 <==> arg == null)
    {
      hide Bytes, Distinct, Linked, Chain, Totals, Dealt;
      overrun := false;
      es.SetState(Closing);
      view := view.(state := Closing);
      var p := es.P();
      ChainHead(p, ps, view.chain);
      if p == null {
        NoBytes();
        TcpServerConnectionClose(es);
      } else {
        overrun := TcpServerDeal(es, sndbuf);
      }
    }

    /** New data for an open connection that holds none. */
    method FirstData(es: Es, q: Pbuf, sndbuf: nat, ghost qs: seq<Pbuf>, ghost qb: seq<Pb>) returns (overrun: bool)
      requires Valid() && live && arg == es && es.freed == 0 && view.chain == []
      requires Chain(q, qs, qb) && Totals(qs, qb)
      modifies this`ps, this`view, this`acked, es`p, recvbuf, qs
      ensures Valid() && view == Dealt(old(view).(chain := qb), sndbuf)
      ensures overrun <==> |Taken(qb, sndbuf)| > TCP_RECV_BUF_MAX_SIZE
    {
      hide Bytes, Consumable, Chain, Totals, Taken, Dealt;
      es.SetP(q);
      ps, view := qs, view.(chain := qb);
      overrun := TcpServerDeal(es, sndbuf);
    }

    /** New data behind what is still waiting. */
    method MoreData(es: Es, p: Pbuf, q: Pbuf, ghost qs: seq<Pbuf>, ghost qb: seq<Pb>)
      requires Valid() && live && arg == es && es.freed == 0 && es.p == p
      requires Chain(q, qs, qb) && Totals(qs, qb) && qs != []
      requires forall i, j :: 0 <= i < |ps| && 0 <= j < |qs| ==> ps[i] != qs[j]
      modifies this`ps, this`view, (set x | x in ps)`next, (set x | x in ps)`totLen, q`ref
      ensures Valid() && qb != [] && view == old(view).(chain := Chained(old(view).chain, qb))
    {
      hide Bytes, Chain, Totals, Chained;
      ChainHead(q, qs, qb);
      PbufChain(p, q, ps, qs, view.chain, qb);
      ps, view := ps + qs, view.(chain := Chained(view.chain, qb));
    }

    /** New data on an open connection. */
    method TakeData(es: Es, q: Pbuf, sndbuf: nat, ghost qs: seq<Pbuf>, ghost qb: seq<Pb>) returns (overrun: bool)
      requires Valid() && live && arg == es && es.freed == 0 && es.state != Closing
      requires Chain(q, qs, qb) && Totals(qs, qb) && qs != []
      requires forall i, j :: 0 <= i < |ps| && 0 <= j < |qs| ==> ps[i] != qs[j]
      modifies this, es, recvbuf, ps, qs
      ensures Valid()
      ensures old(view).chain == [] ==>
                view == Dealt(old(view).(state := Received, chain := qb), sndbuf) &&
                (overrun <==> |Taken(qb, sndbuf)| > TCP_RECV_BUF_MAX_SIZE)
      ensures qb != [] && (old(view).chain != [] ==>
                view == old(view).(state := Received, chain := Chained(old(view).chain, qb)) && !overrun)
    {
      hide Bytes, Consumable, Chain, Totals, Chained, Taken, Dealt;
      overrun := false;
      var state := es.State();
      if state == Accepted {
        es.SetState(Received);
      }
      view := view.(state := Received);
      var p := es.P();
      ChainHead(p, ps, view.chain);
      ChainHead(q, qs, qb);
      if p == null {
        overrun := FirstData(es, q, sndbuf, qs, qb);
      } else {
        MoreData(es, p, q, qs, qb);
      }
    }

    /** tcp_server_receive with data. */
    method TcpServerReceive(es: Es, q: Pbuf, err: int, sndbuf: nat, ghost qs: seq<Pbuf>, ghost qb: seq<Pb>)
      returns (overrun: bool)
      requires Valid() && arg == es && Enabled(view, Recv(qb, err, sndbuf)) && Defined(view, Recv(qb, err, sndbuf))
      requires Chain(q, qs, qb) && Totals(qs, qb)
      requires forall i, j :: 0 <= i < |ps| && 0 <= j < |qs| ==> ps[i] != qs[j]
      modifies this, es, recvbuf, ps, qs
      ensures Valid() && view == Do(old(view), Recv(qb, err, sndbuf))
      ensures overrun == Overruns(old(view), Recv(qb, err, sndbuf))
    {
      hide Bytes, Consumable, Distinct, Linked, Chain, Totals, At, Chained, Dealt;
      NoBytes();
      overrun := false;
      ChainHead(q, qs, qb);
      view := view.(given := view.given + |qb|);
      if err != 0 {
        Discard(es, q, qs, qb);
        return;
      }
      var state := es.State();
      if state == Accepted || state == Received {
        overrun := TakeData(es, q, sndbuf, qs, qb);
      } else {
        TotalOfPacket(q, qs, qb);
        TcpRecved(q.totLen);
        view := view.(acked := view.acked + |Bytes(qb)|);
        Discard(es, q, qs, qb);
      }
    }

    static lemma TotalOfPacket(q: Pbuf, qs: seq<Pbuf>, qb: seq<Pb>)
      requires Chain(q, qs, qb) && Totals(qs, qb) && Fresh(qb)
      ensures q.totLen == |Bytes(qb)|
    {
      hide Bytes;
      assert qs[0].totLen == |Bytes(qb[0..])| % U16 && qb[0..] == qb;
    }
  }
}

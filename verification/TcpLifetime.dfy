/** How a connection of the command server ends, and what it hands over and acknowledges on the way
    (Project/src/tcpserver.c:115-291), over every run of the callbacks of TcpConnection. */
module TcpLifetime {
  import opened Bits
  import opened Pbufs
  import opened TcpConnection

  // ----- the end of a connection -----

  /** The peer has closed: tcp_server_receive was called without data before callback i. */
  ghost predicate PeerClosed(cbs: seq<Callback>, i: nat)
    requires i <= |cbs|
  {
    exists k :: 0 <= k < i && cbs[k].RecvNull?
  }

  /** The state is ES_CLOSING exactly when the peer has closed, and stays so. */
  lemma {:induction false} ClosingExactly(ss: seq<Server>, cbs: seq<Callback>, i: nat)
    requires Run(ss, cbs) && i < |ss|
    ensures ss[i].state == Closing <==> PeerClosed(cbs, i)
  {
    hide Consumable, Taken, Bytes;
    if i > 0 {
      ClosingExactly(ss, cbs, i - 1);
      FreedAtMostOnce(ss, cbs, i - 1);
      if cbs[i - 1].RecvNull? {
        assert PeerClosed(cbs, i);
      } else {
        assert PeerClosed(cbs, i) ==> PeerClosed(cbs, i - 1);
      }
    }
  }

  /** Once the peer has closed, the callback that finds no pbuf waiting, be it that one itself, tcp_server_sent or
      tcp_server_poll, gives es up and takes every callback out of the pcb; one that finds some does not. */
  lemma ClosesWhenEmpty(ss: seq<Server>, cbs: seq<Callback>, i: nat)
    requires Run(ss, cbs) && i < |cbs| && PeerClosed(cbs, i + 1)
    requires cbs[i].RecvNull? || cbs[i].Sent? || cbs[i].Poll?
    ensures if ss[i].chain == []
            then ss[i + 1].freed == 1 && ss[i + 1].pcb == Some(Pcb(false, false, false, false, false))
            else ss[i + 1].freed == 0 && ss[i + 1].pcb == Some(Pcb(true, true, true, true, true))
  {
    hide Consumable, Taken, Bytes;
    FreedAtMostOnce(ss, cbs, i);
    ClosingExactly(ss, cbs, i);
    if !cbs[i].RecvNull? {
      assert PeerClosed(cbs, i);
    }
  }

  lemma {:induction false} AllFit(chain: seq<Pb>, sndbuf: nat)
    requires forall k :: 0 <= k < |chain| ==> |chain[k].payload| <= sndbuf
    ensures Consumable(chain, sndbuf) == |chain|
  {
    if chain != [] {
      AllFit(chain[1..], sndbuf);
    }
  }

  /** A closing connection that holds data is gone two callbacks after the send buffer has become large enough. */
  lemma DrainsThenCloses(ss: seq<Server>, cbs: seq<Callback>, i: nat)
    requires Run(ss, cbs) && i + 1 < |cbs| && PeerClosed(cbs, i)
    requires (cbs[i].Sent? || cbs[i].Poll?) && (cbs[i + 1].Sent? || cbs[i + 1].Poll?)
    requires forall k :: 0 <= k < |ss[i].chain| ==> |ss[i].chain[k].payload| <= cbs[i].sndbuf
    ensures ss[i + 2].freed == 1 && ss[i + 2].pcb == Some(Pcb(false, false, false, false, false))
  {
    hide Taken, Bytes;
    AllFit(ss[i].chain, cbs[i].sndbuf);
    FreedAtMostOnce(ss, cbs, i);
    FreedAtMostOnce(ss, cbs, i + 1);
    ClosesWhenEmpty(ss, cbs, i);
    assert ss[i + 1].chain == [];
    ClosesWhenEmpty(ss, cbs, i + 1);
  }

  // ----- what is handed over -----

  /** The callbacks that call tcp_server_deal, and the pbufs they call it with. */
  function Offered(s: Server, cb: Callback): Option<seq<Pb>>
  {
    if cb.Recv? then (if cb.err == 0 && s.state != Closing && s.chain == [] then Some(cb.p) else None)
    else if cb.Error? || s.chain == [] then None
    else Some(s.chain)
  }

  /** Such a callback hands over exactly one frame, the longest run of pbufs that each fit the send buffer, be it
      empty, and acknowledges it; every other one hands over nothing. */
  lemma HandsOverExactly(ss: seq<Server>, cbs: seq<Callback>, i: nat) returns (k: nat)
    requires Run(ss, cbs) && i < |cbs|
    ensures match Offered(ss[i], cbs[i])
            case Some(q) =>
              k <= |q| && (forall m :: 0 <= m < k ==> |q[m].payload| <= cbs[i].sndbuf) &&
              (k < |q| ==> |q[k].payload| > cbs[i].sndbuf) &&
              ss[i + 1].frames == ss[i].frames + [Bytes(q[..k])] && ss[i + 1].chain == q[k..] &&
              ss[i + 1].acked == ss[i].acked + |Bytes(q[..k])|
            case None => ss[i + 1].frames == ss[i].frames
  {
    hide Consumable, Bytes;
    FreedAtMostOnce(ss, cbs, i);
    var q := Offered(ss[i], cbs[i]);
    k := if q.Some? then Consumable(q.value, cbs[i].sndbuf) else 0;
  }

  // ----- what is acknowledged -----

  /** The bytes that arrived in good order after the peer had closed. */
  ghost function Trashed(cbs: seq<Callback>, i: nat): nat
    requires i <= |cbs|
  {
    if i == 0 then 0
    else
      Trashed(cbs, i - 1) +
      if cbs[i - 1].Recv? && cbs[i - 1].err == 0 && PeerClosed(cbs, i - 1) then |Bytes(cbs[i - 1].p)| else 0
  }

  /** In every run, failures included: TCP has been told of exactly the bytes handed to XVC_Interface and those
      trashed after the end. */
  lemma {:induction false} AcknowledgedExactly(ss: seq<Server>, cbs: seq<Callback>, i: nat)
    requires Run(ss, cbs) && i < |ss|
    ensures ss[i].acked == |Joined(ss[i].frames)| + Trashed(cbs, i)
  {
    hide Consumable, Bytes, Joined, Taken;
    if i == 0 {
      NoBytes();
    } else {
      AcknowledgedExactly(ss, cbs, i - 1);
      ClosingExactly(ss, cbs, i - 1);
      FreedAtMostOnce(ss, cbs, i - 1);
      var k := HandsOverExactly(ss, cbs, i - 1);
      match Offered(ss[i - 1], cbs[i - 1])
      case Some(q) => JoinedMore(ss[i - 1].frames, Bytes(q[..k]));
      case None =>
    }
  }
}

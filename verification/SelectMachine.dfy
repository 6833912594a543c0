/** Any number of lwip_select and event_callback calls interleaved with the other users of the socket array
    (Utilities/lwip-1.3.1/src/api/sockets.c): no wake-up is lost, none is delivered twice or to a freed semaphore. */
module SelectMachine {
  import opened Bits
  import opened SelectProtocol

  /** Where a thread is.  Waiting, Woken and Left belong to lwip_select (blocked on its semaphore, out of the wait
      but still listed, off the list with the semaphore not yet freed); Pending and Scanning to event_callback
      (before the event update, inside the signalling loop). */
  datatype Thread =
    | Waiting
    | Woken(bySem: bool)
    | Left(bySem: bool)
    | Pending(s: nat, e: Event)
    | Scanning(s: nat)

  datatype World = World(net: Net, threads: map<Tid, Thread>)

  /** One atomic step.  Alloc is alloc_socket, Merge the addition lwip_accept makes to rcvevent, Close lwip_close,
      Keep a reader changing lastdata; none of these four takes selectsem. */
  datatype Action =
    | Select(t: Tid, maxfdp1: nat, rd: set<nat>, wr: set<nat>, poll: bool)
    | Wake(t: Tid)
    | TimeOut(t: Tid)
    | Leave(t: Tid)
    | Free(t: Tid)
    | Start(t: Tid, s: nat, e: Event)
    | Update(t: Tid)
    | Pass(t: Tid)
    | Alloc(s: nat)
    | Merge(s: nat, early: nat)
    | Close(s: nat)
    | Keep(s: nat, left: bool)

  predicate At(w: World, t: Tid, th: Thread)
  {
    t in w.threads && w.threads[t] == th
  }

  predicate InSelect(th: Thread)
  {
    th.Waiting? || th.Woken? || th.Left?
  }

  predicate OnList(th: Thread)
  {
    th.Waiting? || th.Woken?
  }

  predicate Enabled(w: World, a: Action)
  {
    match a
    case Select(t, _, _, _, _) => t !in w.threads
    case Wake(t) => At(w, t, Waiting) && t in w.net.cbs && w.net.cbs[t].sem > 0
    case TimeOut(t) => At(w, t, Waiting)
    case Leave(t) => t in w.threads && w.threads[t].Woken?
    case Free(t) => t in w.threads && w.threads[t].Left?
    case Start(t, s, _) => t !in w.threads && s < |w.net.socks| && w.net.socks[s].open
    case Update(t) => t in w.threads && w.threads[t].Pending? && w.threads[t].s < |w.net.socks|
    case Pass(t) => t in w.threads && w.threads[t].Scanning?
    case Alloc(s) => s < |w.net.socks| && !w.net.socks[s].open
    case Merge(s, _) => s < |w.net.socks| && w.net.socks[s].open
    case Close(s) => s < |w.net.socks|
    case Keep(s, _) => s < |w.net.socks|
  }

  function WithSock(w: World, s: nat, k: Sock): World
    requires s < |w.net.socks|
  {
    w.(net := w.net.(socks := w.net.socks[s := k]))
  }

  function Do(w: World, a: Action): World
    requires Enabled(w, a) && forall t :: t in w.net.list ==> t in w.net.cbs
  {
    var n := w.net;
    match a
    case Select(t, maxfdp1, rd, wr, poll) =>
      if NoneReady(n, maxfdp1, rd, wr) && !poll
      then World(Enqueued(n, t, maxfdp1, rd, wr), w.threads[t := Waiting]) else w
    case Wake(t) => World(n.(cbs := n.cbs[t := n.cbs[t].(sem := n.cbs[t].sem - 1)]), w.threads[t := Woken(true)])
    case TimeOut(t) => w.(threads := w.threads[t := Woken(false)])
    case Leave(t) => World(Unlinked(n, t), w.threads[t := Left(w.threads[t].bySem)])
    case Free(t) => World(n.(cbs := n.cbs - {t}), w.threads - {t})
    case Start(t, s, e) => w.(threads := w.threads[t := Pending(s, e)])
    case Update(t) =>
      var s := w.threads[t].s;
      WithSock(w, s, Updated(n.socks[s], w.threads[t].e)).(threads := w.threads[t := Scanning(s)])
    case Pass(t) =>
      (match FirstFrom(n, w.threads[t].s, 0)
       case Some(u) => w.(net := Signalled(n, u))
       case None => w.(threads := w.threads - {t}))
    case Alloc(s) => WithSock(w, s, Sock(true, false, 0, true))
    case Merge(s, early) => WithSock(w, s, n.socks[s].(rcvevent := S16(n.socks[s].rcvevent + early)))
    case Close(s) => WithSock(w, s, n.socks[s].(open := false, lastdata := false))
    case Keep(s, left) => WithSock(w, s, n.socks[s].(lastdata := left))
  }

  /** The socket array is static, so it starts as zeroes. */
  ghost predicate Init(w: World)
  {
    w.net.list == [] && w.net.cbs == map[] && w.threads == map[] &&
    forall s :: 0 <= s < |w.net.socks| ==> w.net.socks[s] == Sock(false, false, 0, false)
  }

  // ----- waiter list integrity -----

  function Taken(th: Thread): nat
  {
    if (th.Woken? || th.Left?) && th.bySem then 1 else 0
  }

  /** The list has no duplicates and holds exactly the selects between enqueue and unlink; a semaphore exists
      exactly while its select is running; it was signalled at most once, and its count accounts for that. */
  ghost predicate Integrity(w: World)
  {
    Distinct(w.net.list) &&
    (forall t :: t in w.net.list <==> t in w.threads && OnList(w.threads[t])) &&
    (forall t :: t in w.net.cbs <==> t in w.threads && InSelect(w.threads[t])) &&
    (forall t :: t in w.net.cbs ==>
       w.net.cbs[t].posted == (if w.net.cbs[t].signalled then 1 else 0) &&
       w.net.cbs[t].sem + Taken(w.threads[t]) == w.net.cbs[t].posted)
  }

  lemma SelectIntegrity(w: World, a: Action)
    requires a.Select? && Integrity(w) && Enabled(w, a)
    ensures Integrity(Do(w, a))
  {
  }

  lemma LeaveIntegrity(w: World, t: Tid)
    requires Integrity(w) && Enabled(w, Leave(t))
    ensures Integrity(Do(w, Leave(t)))
  {
    hide Without;
    WithoutMembers(w.net.list, t);
  }

  lemma PassIntegrity(w: World, t: Tid)
    requires Integrity(w) && Enabled(w, Pass(t))
    ensures Integrity(Do(w, Pass(t)))
  {
    hide FirstFrom;
  }

  lemma WaiterIntegrity(w: World, a: Action)
    requires (a.Wake? || a.TimeOut? || a.Free?) && Integrity(w) && Enabled(w, a)
    ensures Integrity(Do(w, a))
  {
    hide Distinct;
  }

  lemma IntegrityStep(w: World, a: Action)
    requires Integrity(w) && Enabled(w, a)
    ensures Integrity(Do(w, a))
  {
    hide Without, FirstFrom, ReadySet, WritableSet, NoneReady, Enqueued, Unlinked, Signalled, S16, Updated, Distinct;
    match a
    case Select(_, _, _, _, _) => SelectIntegrity(w, a);
    case Leave(t) => LeaveIntegrity(w, t);
    case Pass(t) => PassIntegrity(w, t);
    case Wake(_) => WaiterIntegrity(w, a);
    case TimeOut(_) => WaiterIntegrity(w, a);
    case Free(_) => WaiterIntegrity(w, a);
    case _ =>
  }

  /** A signal always goes to a select that is still on the list, whose semaphore exists and has not been
      signalled before, and which waits for what the socket has. */
  lemma SignalIsSafe(w: World, c: Tid)
    requires Integrity(w) && Enabled(w, Pass(c))
    ensures var s := w.threads[c].s;
            match FirstFrom(w.net, s, 0)
            case Some(u) =>
              u in w.threads && OnList(w.threads[u]) && u in w.net.cbs && w.net.cbs[u].posted == 0 &&
              Do(w, Pass(c)).net.cbs[u].posted == 1 && s < |w.net.socks| &&
              ((s in w.net.cbs[u].readset && w.net.socks[s].rcvevent > 0) ||
               (s in w.net.cbs[u].writeset && w.net.socks[s].sendevent))
            case None => c !in Do(w, Pass(c)).threads
  {
  }

  // ----- no lost wake-up -----

  /** An unsignalled listed select watches an open socket, below its limit, that has an event for it. */
  ghost predicate Due(n: Net, t: Tid, s: nat)
  {
    t in n.list && Eligible(n, t, s) && s < n.cbs[t].maxfdp1 && n.socks[s].open
  }

  ghost predicate Scanner(w: World, s: nat)
  {
    exists c :: At(w, c, Scanning(s))
  }

  /** Whenever a select is due, some event_callback for that socket is still inside its signalling loop. */
  ghost predicate NoLostWakeup(w: World)
  {
    forall t, s :: Due(w.net, t, s) ==> Scanner(w, s)
  }

  /** No unsignalled listed select waits for writability of descriptor s. */
  ghost predicate NobodyWrites(w: World, s: nat)
  {
    forall t :: t in w.net.list && t in w.net.cbs ==>
      w.net.cbs[t].signalled || s !in w.net.cbs[t].writeset || s >= w.net.cbs[t].maxfdp1
  }

  ghost predicate NobodyReads(w: World, s: nat)
  {
    forall t :: t in w.net.list && t in w.net.cbs ==>
      w.net.cbs[t].signalled || s !in w.net.cbs[t].readset || s >= w.net.cbs[t].maxfdp1
  }

  /** The steps that change events without event_callback are harmless only for descriptors nobody waits on. */
  ghost predicate Harmless(w: World, a: Action)
  {
    match a
    case Alloc(s) => Scanner(w, s) || NobodyWrites(w, s)
    case Merge(s, early) =>
      Scanner(w, s) || (s < |w.net.socks| && S16(w.net.socks[s].rcvevent + early) <= 0) || NobodyReads(w, s)
    case _ => true
  }

  lemma NoLostWakeupStep(w: World, a: Action)
    requires Integrity(w) && Enabled(w, a) && NoLostWakeup(w) && Harmless(w, a)
    ensures NoLostWakeup(Do(w, a))
  {
    var w' := Do(w, a);
    forall t, s | Due(w'.net, t, s)
      ensures Scanner(w', s)
    {
      match a
      case Select(u, maxfdp1, rd, wr, poll) => SelectKeeps(w, a, t, s);
      case Leave(u) =>
        WithoutMembers(w.net.list, u);
        assert Due(w.net, t, s);
        KeepsScanner(w, a, s);
      case Update(c) =>
        if w.threads[c].s == s {
          assert At(w', c, Scanning(s));
        } else {
          assert Due(w.net, t, s);
          KeepsScanner(w, a, s);
        }
      case Pass(c) => PassKeeps(w, c, t, s);
      case Alloc(k) => ChangedSocket(w, a, k, t, s);
      case Merge(k, early) => ChangedSocket(w, a, k, t, s);
      case Close(k) => ChangedSocket(w, a, k, t, s);
      case Keep(k, left) => ChangedSocket(w, a, k, t, s);
      case _ =>
        assert Due(w.net, t, s);
        KeepsScanner(w, a, s);
    }
  }

  /** Only the pass that ends its own loop removes a scanner. */
  lemma KeepsScanner(w: World, a: Action, s: nat)
    requires Integrity(w) && Enabled(w, a) && Scanner(w, s) && !a.Pass?
    ensures Scanner(Do(w, a), s)
  {
    var c :| At(w, c, Scanning(s));
    assert At(Do(w, a), c, Scanning(s));
  }

  lemma NotReady(n: Net, maxfdp1: nat, rd: set<nat>, wr: set<nat>, s: nat)
    requires NoneReady(n, maxfdp1, rd, wr) && s < maxfdp1 && s < |n.socks| && n.socks[s].open
    ensures !(s in rd && n.socks[s].rcvevent > 0) && !(s in wr && n.socks[s].sendevent)
  {
    assert s in ReadySet(n.socks, maxfdp1, rd) <==> s in rd && ReadReady(n.socks, s);
    assert s in WritableSet(n.socks, maxfdp1, wr) <==> s in wr && WriteReady(n.socks, s);
  }

  /** A select only joins the list when nothing it watches is due. */
  lemma SelectKeeps(w: World, a: Action, t: Tid, s: nat)
    requires Integrity(w) && a.Select? && Enabled(w, a) && NoLostWakeup(w)
    requires Due(Do(w, a).net, t, s)
    ensures Scanner(Do(w, a), s)
  {
    hide ReadySet, WritableSet;
    if t == a.t && t !in w.net.list {
      NotReady(w.net, a.maxfdp1, a.rd, a.wr, s);
      assert false;
    }
    assert Due(w.net, t, s);
    KeepsScanner(w, a, s);
  }

  lemma PassKeeps(w: World, c: Tid, t: Tid, s: nat)
    requires Integrity(w) && Enabled(w, Pass(c)) && NoLostWakeup(w)
    requires Due(Do(w, Pass(c)).net, t, s)
    ensures Scanner(Do(w, Pass(c)), s)
  {
    hide FirstFrom;
    assert Due(w.net, t, s);
    var d :| At(w, d, Scanning(s));
    var i :| 0 <= i < |w.net.list| && w.net.list[i] == t;
    if FirstFrom(w.net, w.threads[c].s, 0).None? && d == c {
      assert false;
    }
    assert At(Do(w, Pass(c)), d, Scanning(s));
  }

  /** Steps outside selectsem touch one socket. */
  lemma ChangedSocket(w: World, a: Action, k: nat, t: Tid, s: nat)
    requires Integrity(w) && Enabled(w, a) && NoLostWakeup(w) && Harmless(w, a)
    requires a == Alloc(k) || (a.Merge? && a.s == k) || a == Close(k) || (a.Keep? && a.s == k)
    requires Due(Do(w, a).net, t, s)
    ensures Scanner(Do(w, a), s)
  {
    hide ReadySet, WritableSet, FirstFrom, S16, Without;
    assert Due(w.net, t, s) ==> Scanner(w, s);
    if !Scanner(w, s) {
      assert false;
    }
    KeepsScanner(w, a, s);
  }

  // ----- whole runs -----

  ghost predicate Run(ws: seq<World>, acts: seq<Action>)
  {
    |ws| == |acts| + 1 && Init(ws[0]) &&
    forall i :: 0 <= i < |acts| ==>
      (forall t :: t in ws[i].net.list ==> t in ws[i].net.cbs) && Enabled(ws[i], acts[i]) &&
      ws[i + 1] == Do(ws[i], acts[i])
  }

  lemma {:induction false} RunIntegrity(ws: seq<World>, acts: seq<Action>, i: nat)
    requires Run(ws, acts) && i < |ws|
    ensures Integrity(ws[i])
  {
    if i > 0 {
      RunIntegrity(ws, acts, i - 1);
      IntegrityStep(ws[i - 1], acts[i - 1]);
    }
  }

  /** In every run in which sockets are only set up on descriptors nobody waits for, no wake-up is ever lost. */
  lemma {:induction false} RunLosesNoWakeup(ws: seq<World>, acts: seq<Action>, i: nat)
    requires Run(ws, acts) && i < |ws| && forall k :: 0 <= k < i ==> Harmless(ws[k], acts[k])
    ensures NoLostWakeup(ws[i])
  {
    if i > 0 {
      RunLosesNoWakeup(ws, acts, i - 1);
      RunIntegrity(ws, acts, i - 1);
      NoLostWakeupStep(ws[i - 1], acts[i - 1]);
    }
  }

  /** Once no callback is scanning, every listed select with an event has its signal. */
  lemma QuietMeansSignalled(ws: seq<World>, acts: seq<Action>, i: nat, t: Tid, s: nat)
    requires Run(ws, acts) && i < |ws| && forall k :: 0 <= k < i ==> Harmless(ws[k], acts[k])
    requires !Scanner(ws[i], s) && t in ws[i].net.list && t in ws[i].net.cbs && s < ws[i].net.cbs[t].maxfdp1
    requires s < |ws[i].net.socks| && ws[i].net.socks[s].open
    requires (s in ws[i].net.cbs[t].readset && ws[i].net.socks[s].rcvevent > 0) ||
             (s in ws[i].net.cbs[t].writeset && ws[i].net.socks[s].sendevent)
    ensures ws[i].net.cbs[t].signalled && ws[i].net.cbs[t].posted == 1
    ensures t in ws[i].threads && (ws[i].threads[t] == Waiting ==> Enabled(ws[i], Wake(t)))
  {
    hide Do, Init;
    var n := ws[i].net;
    assert !n.cbs[t].signalled ==> Due(n, t, s);
    RunLosesNoWakeup(ws, acts, i);
    RunIntegrity(ws, acts, i);
  }

  /** alloc_socket raises sendevent without a callback: it keeps the guarantee exactly when a scanner is at work on
      the descriptor or no unsignalled select waits for it to become writable. */
  lemma AllocExactly(w: World, s: nat)
    requires Integrity(w) && Enabled(w, Alloc(s)) && NoLostWakeup(w)
    ensures NoLostWakeup(Do(w, Alloc(s))) <==> Harmless(w, Alloc(s))
  {
    var w' := Do(w, Alloc(s));
    if Harmless(w, Alloc(s)) {
      NoLostWakeupStep(w, Alloc(s));
    } else {
      var t :| t in w.net.list && t in w.net.cbs &&
        !(w.net.cbs[t].signalled || s !in w.net.cbs[t].writeset || s >= w.net.cbs[t].maxfdp1);
      assert Due(w'.net, t, s);
      if c :| At(w', c, Scanning(s)) {
        assert At(w, c, Scanning(s));
        assert false;
      }
    }
  }

  /** Likewise for the receive events lwip_accept adds. */
  lemma MergeExactly(w: World, s: nat, early: nat)
    requires Integrity(w) && Enabled(w, Merge(s, early)) && NoLostWakeup(w)
    ensures NoLostWakeup(Do(w, Merge(s, early))) <==> Harmless(w, Merge(s, early))
  {
    var w' := Do(w, Merge(s, early));
    if Harmless(w, Merge(s, early)) {
      NoLostWakeupStep(w, Merge(s, early));
    } else {
      var t :| t in w.net.list && t in w.net.cbs &&
        !(w.net.cbs[t].signalled || s !in w.net.cbs[t].readset || s >= w.net.cbs[t].maxfdp1);
      assert Due(w'.net, t, s);
      if c :| At(w', c, Scanning(s)) {
        assert At(w, c, Scanning(s));
        assert false;
      }
    }
  }

  /** A two-step run that loses a wake-up: a select waits for descriptor 0 to become writable while it is closed,
      and then a new socket takes that descriptor. */
  lemma AllocCanLoseAWakeup()
    ensures exists ws, acts :: Run(ws, acts) && |acts| == 2 && !NoLostWakeup(ws[2])
  {
    var w0 := World(Net([Sock(false, false, 0, false)], [], map[]), map[]);
    var a0, a1 := Select(7, 1, {}, {0}, false), Alloc(0);
    var w1 := Do(w0, a0);
    var w2 := Do(w1, a1);
    assert w1.net.list == [7] && w1.net.cbs[7] == Waiter({}, {0}, 1, false, 0, 0);
    assert Due(w2.net, 7, 0);
    assert !Scanner(w2, 0);
    assert Run([w0, w1, w2], [a0, a1]);
  }
}

/** What the counters of a socket are worth (Utilities/lwip-1.3.1/src/api/sockets.c:1073-1123): over every run of
    SelectMachine they are determined by the calls made so far, and an event that has been reported wakes its
    waiters.  Events are counted here from the list of actions alone. */
module SelectCounters {
  import opened Bits
  import opened SelectProtocol
  import opened SelectMachine

  /** The socket and event of the callback thread t has started last. */
  function StartedAs(acts: seq<Action>, i: nat, t: Tid): Option<(nat, Event)>
    requires i <= |acts|
  {
    if i == 0 then None
    else if acts[i - 1].Start? && acts[i - 1].t == t then Some((acts[i - 1].s, acts[i - 1].e))
    else StartedAs(acts, i - 1, t)
  }

  /** The receive events action i adds to socket s. */
  function Change(acts: seq<Action>, i: nat, s: nat): int
    requires i < |acts|
  {
    match acts[i]
    case Merge(k, early) => if k == s then early else 0
    case Update(t) =>
      var started := StartedAs(acts, i, t);
      if started == Some((s, RcvPlus)) then 1 else if started == Some((s, RcvMinus)) then -1 else 0
    case _ => 0
  }

  /** RCVPLUS minus RCVMINUS for socket s since its descriptor was last set up, plus the early events moved in. */
  function Received(acts: seq<Action>, i: nat, s: nat): int
    requires i <= |acts|
  {
    if i == 0 || acts[i - 1] == Alloc(s) then 0 else Received(acts, i - 1, s) + Change(acts, i - 1, s)
  }

  /** The latest word on writability of s: set up, SENDPLUS, or SENDMINUS. */
  predicate LatestSend(acts: seq<Action>, i: nat, s: nat)
    requires i <= |acts|
  {
    if i == 0 then false
    else
      match acts[i - 1]
      case Alloc(k) => k == s || LatestSend(acts, i - 1, s)
      case Update(t) =>
        var started := StartedAs(acts, i - 1, t);
        started == Some((s, SendPlus)) || (started != Some((s, SendMinus)) && LatestSend(acts, i - 1, s))
      case _ => LatestSend(acts, i - 1, s)
  }

  /** A thread inside event_callback works on the socket and event it was started with. */
  ghost predicate AsStarted(w: World, started: Tid -> Option<(nat, Event)>)
  {
    forall t :: t in w.threads ==>
      (w.threads[t].Pending? ==> started(t) == Some((w.threads[t].s, w.threads[t].e))) &&
      (w.threads[t].Scanning? ==> started(t).Some? && started(t).value.0 == w.threads[t].s)
  }

  lemma {:induction false} RunAsStarted(ws: seq<World>, acts: seq<Action>, i: nat)
    requires Run(ws, acts) && i < |ws|
    ensures AsStarted(ws[i], t => StartedAs(acts, i, t))
  {
    hide ReadySet, WritableSet, NoneReady, Enqueued, Unlinked, Signalled, Without, FirstFrom, Updated;
    if i > 0 {
      RunAsStarted(ws, acts, i - 1);
    }
  }

  /** The two counters of socket s hold what the calls before action i have left there. */
  ghost predicate Counts(w: World, acts: seq<Action>, i: nat, s: nat)
    requires i <= |acts|
  {
    s < |w.net.socks| && w.net.socks[s].rcvevent == S16(Received(acts, i, s)) &&
    w.net.socks[s].sendevent == LatestSend(acts, i, s)
  }

  lemma UpdateCounts(ws: seq<World>, acts: seq<Action>, i: nat, s: nat)
    requires Run(ws, acts) && i < |acts| && acts[i].Update? && Counts(ws[i], acts, i, s)
    requires AsStarted(ws[i], t => StartedAs(acts, i, t))
    ensures Counts(ws[i + 1], acts, i + 1, s)
  {
    hide S16, StartedAs, Init;
    S16Step(Received(acts, i, s), Change(acts, i, s));
  }

  lemma CountsStep(ws: seq<World>, acts: seq<Action>, i: nat, s: nat)
    requires Run(ws, acts) && i < |acts| && Counts(ws[i], acts, i, s)
    requires AsStarted(ws[i], t => StartedAs(acts, i, t))
    ensures Counts(ws[i + 1], acts, i + 1, s)
  {
    hide NoneReady, Without, FirstFrom, S16, StartedAs, Init;
    S16Step(Received(acts, i, s), Change(acts, i, s));
    if acts[i].Update? {
      UpdateCounts(ws, acts, i, s);
    }
  }

  /** Over every run and in 16 bits, rcvevent is exactly the events received, and sendevent the latest word. */
  lemma {:induction false} CountersExact(ws: seq<World>, acts: seq<Action>, i: nat, s: nat)
    requires Run(ws, acts) && i < |ws| && s < |ws[0].net.socks|
    ensures s < |ws[i].net.socks| && ws[i].net.socks[s].rcvevent == S16(Received(acts, i, s))
    ensures ws[i].net.socks[s].sendevent == LatestSend(acts, i, s)
  {
    hide Do, StartedAs;
    if i > 0 {
      CountersExact(ws, acts, i - 1, s);
      RunAsStarted(ws, acts, i - 1);
      CountsStep(ws, acts, i - 1, s);
    }
  }

  // ----- a reported event wakes its waiters -----

  lemma {:induction false} SameCallback(ws: seq<World>, acts: seq<Action>, i: nat, j: nat, c: Tid)
    requires Run(ws, acts) && i <= j <= |acts| && forall k :: i <= k < j ==> c in ws[k].threads
    ensures StartedAs(acts, j, c) == StartedAs(acts, i, c)
  {
    hide Do, Init;
    if i < j {
      SameCallback(ws, acts, i, j - 1, c);
    }
  }

  lemma {:induction false} NotLowered(acts: seq<Action>, i: nat, j: nat, s: nat)
    requires i <= j <= |acts| && forall k :: i <= k < j ==> acts[k] != Alloc(s) && Change(acts, k, s) >= 0
    ensures Received(acts, j, s) >= Received(acts, i, s)
  {
    if i < j {
      NotLowered(acts, i, j - 1, s);
    }
  }

  lemma {:induction false} NotRetracted(acts: seq<Action>, i: nat, j: nat, s: nat)
    requires i <= j <= |acts| && LatestSend(acts, i, s)
    requires forall k :: i <= k < j && acts[k].Update? ==> StartedAs(acts, k, acts[k].t) != Some((s, SendMinus))
    ensures LatestSend(acts, j, s)
  {
    if i < j {
      NotRetracted(acts, i, j - 1, s);
    }
  }

  /** Action j is where callback c, which made its update in action i, leaves its signalling loop. */
  ghost predicate Finishes(ws: seq<World>, acts: seq<Action>, i: nat, j: nat, c: Tid)
    requires |ws| == |acts| + 1
  {
    i < j < |acts| && acts[i] == Update(c) && acts[j] == Pass(c) && c !in ws[j + 1].threads &&
    forall k :: i <= k <= j ==> c in ws[k].threads
  }

  /** A callback that leaves its loop leaves no listed select behind that its socket has something for. */
  lemma LoopLeavesNone(ws: seq<World>, acts: seq<Action>, j: nat, c: Tid, t: Tid)
    requires Run(ws, acts) && j < |acts| && acts[j] == Pass(c) && c !in ws[j + 1].threads
    requires t in ws[j + 1].net.list && t in ws[j + 1].net.cbs && StartedAs(acts, j, c).Some?
    requires var s, n := StartedAs(acts, j, c).value.0, ws[j].net;
             s < |n.socks| && ((s in ws[j + 1].net.cbs[t].readset && n.socks[s].rcvevent > 0) ||
                               (s in ws[j + 1].net.cbs[t].writeset && n.socks[s].sendevent))
    ensures ws[j + 1].net.cbs[t].signalled && ws[j + 1].net.cbs[t].posted == 1
  {
    hide FirstFrom, StartedAs, Init, Signalled;
    RunAsStarted(ws, acts, j);
    RunIntegrity(ws, acts, j + 1);
    var w := ws[j];
    assert ws[j + 1] == Do(w, Pass(c)) && w.threads[c].Scanning?;
    assert FirstFrom(w.net, w.threads[c].s, 0).None?;
    var k :| 0 <= k < |w.net.list| && w.net.list[k] == t;
    assert !Eligible(w.net, t, w.threads[c].s);
  }

  /** Data reported with RCVPLUS to a socket whose counter was not negative and cannot overflow, and not taken away
      before the callback is over: then every select listed for reading that socket has had its one signal. */
  lemma ReceivedDataWakes(ws: seq<World>, acts: seq<Action>, i: nat, j: nat, c: Tid, s: nat, t: Tid)
    requires Run(ws, acts) && Finishes(ws, acts, i, j, c) && StartedAs(acts, i, c) == Some((s, RcvPlus))
    requires s < |ws[0].net.socks| && s < |ws[i].net.socks| && 0 <= ws[i].net.socks[s].rcvevent
    requires ws[i].net.socks[s].rcvevent + Received(acts, j, s) - Received(acts, i, s) <= 32767
    requires forall k :: i < k < j ==> acts[k] != Alloc(s) && Change(acts, k, s) >= 0
    requires t in ws[j + 1].net.list && t in ws[j + 1].net.cbs && s in ws[j + 1].net.cbs[t].readset
    ensures ws[j + 1].net.cbs[t].signalled && ws[j + 1].net.cbs[t].posted == 1
  {
    hide Do, Init, S16, StartedAs, AsStarted;
    SameCallback(ws, acts, i, j, c);
    CountersExact(ws, acts, i, s);
    CountersExact(ws, acts, j, s);
    NotLowered(acts, i + 1, j, s);
    assert Change(acts, i, s) == 1;
    S16Step(Received(acts, i, s), Received(acts, j, s) - Received(acts, i, s));
    LoopLeavesNone(ws, acts, j, c, t);
  }

  /** Likewise for SENDPLUS, unless SENDMINUS has taken it back, and every select listed for writing. */
  lemma SendSpaceWakes(ws: seq<World>, acts: seq<Action>, i: nat, j: nat, c: Tid, s: nat, t: Tid)
    requires Run(ws, acts) && Finishes(ws, acts, i, j, c) && StartedAs(acts, i, c) == Some((s, SendPlus))
    requires s < |ws[0].net.socks|
    requires forall k :: i < k < j && acts[k].Update? ==> StartedAs(acts, k, acts[k].t) != Some((s, SendMinus))
    requires t in ws[j + 1].net.list && t in ws[j + 1].net.cbs && s in ws[j + 1].net.cbs[t].writeset
    ensures ws[j + 1].net.cbs[t].signalled && ws[j + 1].net.cbs[t].posted == 1
  {
    hide Do, Init, S16, StartedAs, AsStarted;
    SameCallback(ws, acts, i, j, c);
    CountersExact(ws, acts, j, s);
    NotRetracted(acts, i + 1, j, s);
    LoopLeavesNone(ws, acts, j, c, t);
  }
}

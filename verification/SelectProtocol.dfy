/** lwip_select against event_callback (Utilities/lwip-1.3.1/src/api/sockets.c).  Every section the code runs under
    selectsem is one atomic step; SelectMachine interleaves any number of selects and callbacks. */
module SelectProtocol {
  import opened Bits

  type Tid = nat

  /** The part of struct lwip_socket the protocol looks at; open stands for conn being non-null. */
  datatype Sock = Sock(open: bool, lastdata: bool, rcvevent: int, sendevent: bool)

  datatype Event = RcvPlus | RcvMinus | SendPlus | SendMinus

  /** A waiting select: its sets, its limit, sem_signalled, the semaphore's count, and how often
      event_callback has signalled it. */
  datatype Waiter = Waiter(readset: set<nat>, writeset: set<nat>, maxfdp1: nat, signalled: bool, sem: nat, posted: nat)

  /** The sockets, select_cb_list front first, and the select_cb of every thread inside lwip_select. */
  datatype Net = Net(socks: seq<Sock>, list: seq<Tid>, cbs: map<Tid, Waiter>)

  ghost predicate Distinct(s: seq<Tid>)
  {
    forall i, j :: 0 <= i < j < |s| ==> s[i] != s[j]
  }

  // ----- the atomic sections -----

  predicate ReadReady(socks: seq<Sock>, s: nat)
  {
    s < |socks| && socks[s].open && (socks[s].lastdata || socks[s].rcvevent > 0)
  }

  predicate WriteReady(socks: seq<Sock>, s: nat)
  {
    s < |socks| && socks[s].open && socks[s].sendevent
  }

  function ReadySet(socks: seq<Sock>, maxfdp1: nat, fds: set<nat>): set<nat>
  {
    set i | i in fds && i < maxfdp1 && ReadReady(socks, i)
  }

  function WritableSet(socks: seq<Sock>, maxfdp1: nat, fds: set<nat>): set<nat>
  {
    set i | i in fds && i < maxfdp1 && WriteReady(socks, i)
  }

  /** Nothing in the sets is ready. */
  predicate NoneReady(n: Net, maxfdp1: nat, rd: set<nat>, wr: set<nat>)
  {
    ReadySet(n.socks, maxfdp1, rd) == {} && WritableSet(n.socks, maxfdp1, wr) == {}
  }

  /** The select puts itself on top of the list with a fresh semaphore. */
  function Enqueued(n: Net, t: Tid, maxfdp1: nat, rd: set<nat>, wr: set<nat>): Net
  {
    n.(list := [t] + n.list, cbs := n.cbs[t := Waiter(rd, wr, maxfdp1, false, 0, 0)])
  }

  function Without(list: seq<Tid>, t: Tid): seq<Tid>
  {
    if list == [] then [] else if list[0] == t then list[1..] else [list[0]] + Without(list[1..], t)
  }

  function Unlinked(n: Net, t: Tid): Net
  {
    n.(list := Without(n.list, t))
  }

  function Updated(k: Sock, e: Event): Sock
  {
    match e
    case RcvPlus => k.(rcvevent := S16(k.rcvevent + 1))
    case RcvMinus => k.(rcvevent := S16(k.rcvevent - 1))
    case SendPlus => k.(sendevent := true)
    case SendMinus => k.(sendevent := false)
  }

  /** The test event_callback applies to a list entry; it looks neither at maxfdp1 nor at lastdata. */
  predicate Eligible(n: Net, t: Tid, s: nat)
  {
    t in n.cbs && s < |n.socks| && !n.cbs[t].signalled &&
    ((s in n.cbs[t].readset && n.socks[s].rcvevent > 0) || (s in n.cbs[t].writeset && n.socks[s].sendevent))
  }

  /** The first eligible entry from position i on. */
  function FirstFrom(n: Net, s: nat, i: nat): (r: Option<Tid>)
    requires i <= |n.list|
    ensures r.Some? ==> r.value in n.list && Eligible(n, r.value, s)
    ensures r.None? ==> forall k :: i <= k < |n.list| ==> !Eligible(n, n.list[k], s)
    decreases |n.list| - i
  {
    if i == |n.list| then None else if Eligible(n, n.list[i], s) then Some(n.list[i]) else FirstFrom(n, s, i + 1)
  }

  function Signalled(n: Net, t: Tid): Net
    requires t in n.cbs
  {
    n.(cbs := n.cbs[t := n.cbs[t].(signalled := true, sem := n.cbs[t].sem + 1, posted := n.cbs[t].posted + 1)])
  }

  // ----- the linked list in memory -----

  /** A select_cb on some thread's stack. */
  datatype Cb = Cb(next: Option<Tid>, w: Waiter)

  function EntryAt(order: seq<Tid>, i: nat): Option<Tid>
  {
    if i < |order| then Some(order[i]) else None
  }

  /** The next pointers from head on visit exactly order, once each, and then end. */
  ghost predicate Linked(head: Option<Tid>, cbs: map<Tid, Cb>, order: seq<Tid>)
  {
    head == EntryAt(order, 0) && Distinct(order) && (forall i :: 0 <= i < |order| ==> order[i] in cbs) &&
    forall i {:trigger cbs[order[i]]} :: 0 <= i < |order| ==> cbs[order[i]].next == EntryAt(order, i + 1)
  }

  lemma {:induction false} WithoutAt(list: seq<Tid>, i: nat)
    requires i < |list| && Distinct(list)
    ensures Without(list, list[i]) == list[..i] + list[i + 1..]
  {
    if i > 0 {
      var rest := list[1..];
      WithoutAt(rest, i - 1);
      assert list[0] != list[i];
      assert [list[0]] + rest[..i - 1] == list[..i] && rest[i..] == list[i + 1..];
    }
  }

  lemma {:induction false} WithoutAbsent(list: seq<Tid>, t: Tid)
    requires t !in list
    ensures Without(list, t) == list
  {
    if list != [] {
      WithoutAbsent(list[1..], t);
    }
  }

  /** Removing a thread keeps exactly the others, in order. */
  lemma WithoutMembers(list: seq<Tid>, t: Tid)
    requires Distinct(list)
    ensures Distinct(Without(list, t)) && forall u :: u in Without(list, t) <==> u in list && u != t
  {
    if t in list {
      var i :| 0 <= i < |list| && list[i] == t;
      WithoutAt(list, i);
      var r := list[..i] + list[i + 1..];
      forall u
        ensures u in r <==> u in list && u != t
      {
        if u in list && u != t {
          var k :| 0 <= k < |list| && list[k] == u;
          assert r[if k < i then k else k - 1] == u;
        }
      }
    } else {
      WithoutAbsent(list, t);
    }
  }

  lemma SamePlace(s: seq<Tid>, i: nat, j: nat)
    requires Distinct(s) && i < |s| && j < |s| && s[i] == s[j]
    ensures i == j
  {
  }

  lemma DistinctWithout(s: seq<Tid>, i: nat)
    requires Distinct(s) && i < |s|
    ensures Distinct(s[..i] + s[i + 1..])
  {
  }

  /** Bypassing one entry of a linked list. */
  lemma UnlinkedList(head: Option<Tid>, cbs: map<Tid, Cb>, order: seq<Tid>, i: nat)
    requires Linked(head, cbs, order) && 0 < i < |order|
    ensures var cbs' := cbs[order[i - 1] := cbs[order[i - 1]].(next := cbs[order[i]].next)];
            Linked(head, cbs', order[..i] + order[i + 1..])
  {
    hide Distinct;
    var p := order[i - 1];
    var cbs' := cbs[p := cbs[p].(next := cbs[order[i]].next)];
    var r := order[..i] + order[i + 1..];
    DistinctWithout(order, i);
    forall k | 0 <= k < |r|
      ensures r[k] in cbs' && cbs'[r[k]].next == EntryAt(r, k + 1)
    {
      var was := if k < i then k else k + 1;
      assert r[k] == order[was] && cbs[order[was]].next == EntryAt(order, was + 1);
      if order[was] == p {
        SamePlace(order, was, i - 1);
      }
    }
  }

  lemma FirstUnlinked(head: Option<Tid>, cbs: map<Tid, Cb>, order: seq<Tid>)
    requires Linked(head, cbs, order) && order != []
    ensures Linked(cbs[order[0]].next, cbs, order[..0] + order[1..])
  {
    hide Distinct;
    var r := order[..0] + order[1..];
    DistinctWithout(order, 0);
    forall k | 0 <= k < |r|
      ensures r[k] in cbs && cbs[r[k]].next == EntryAt(r, k + 1)
    {
      assert r[k] == order[k + 1] && cbs[order[k + 1]].next == EntryAt(order, k + 2);
    }
  }

  class SocketLayer {
    var sockets: seq<Sock>
    var selectCbList: Option<Tid>
    var cbs: map<Tid, Cb>
    ghost var order: seq<Tid>

    ghost predicate Valid()
      reads this
    {
      Linked(selectCbList, cbs, order)
    }

    ghost function View(): Net
      reads this
    {
      Net(sockets, order, map t | t in cbs :: cbs[t].w)
    }

    /** Goes through the sets below maxfdp1 and keeps exactly the ready descriptors. */
    method LwipSelscan(maxfdp1: nat, readset: set<nat>, writeset: set<nat>)
      returns (nready: nat, lreadset: set<nat>, lwriteset: set<nat>)
      ensures lreadset == ReadySet(sockets, maxfdp1, readset)
      ensures lwriteset == WritableSet(sockets, maxfdp1, writeset)
      ensures forall i :: i in lreadset <==>
        i in readset && i < maxfdp1 && i < |sockets| && sockets[i].open &&
        (sockets[i].lastdata || sockets[i].rcvevent > 0)
      ensures forall i :: i in lwriteset <==>
        i in writeset && i < maxfdp1 && i < |sockets| && sockets[i].open && sockets[i].sendevent
      ensures nready == |lreadset| + |lwriteset|
    {
      nready, lreadset, lwriteset := 0, {}, {};
      for i := 0 to maxfdp1
        invariant lreadset == ReadySet(sockets, i, readset)
        invariant lwriteset == WritableSet(sockets, i, writeset)
        invariant nready == |lreadset| + |lwriteset|
      {
        if i in readset && ReadReady(sockets, i) {
          lreadset := lreadset + {i};
          nready := nready + 1;
        }
        if i in writeset && WriteReady(sockets, i) {
          lwriteset := lwriteset + {i};
          nready := nready + 1;
        }
      }
    }

    /** The first critical section of lwip_select: scan, and join the list if nothing is ready and the caller
        may block. */
    method SelectEnter(me: Tid, maxfdp1: nat, readset: set<nat>, writeset: set<nat>, poll: bool)
      returns (nready: nat, lreadset: set<nat>, lwriteset: set<nat>)
      requires Valid() && me !in cbs
      modifies this
      ensures Valid()
      ensures lreadset == ReadySet(old(sockets), maxfdp1, readset)
      ensures lwriteset == WritableSet(old(sockets), maxfdp1, writeset)
      ensures nready == |lreadset| + |lwriteset|
      ensures View() == if NoneReady(old(View()), maxfdp1, readset, writeset) && !poll
        then Enqueued(old(View()), me, maxfdp1, readset, writeset) else old(View())
      ensures if nready == 0 && !poll
        then order == [me] + old(order) && cbs[me].w == Waiter(readset, writeset, maxfdp1, false, 0, 0)
        else order == old(order) && cbs == old(cbs)
    {
      nready, lreadset, lwriteset := LwipSelscan(maxfdp1, readset, writeset);
      if nready == 0 {
        if !poll {
          cbs := cbs[me := Cb(selectCbList, Waiter(readset, writeset, maxfdp1, false, 0, 0))];
          selectCbList := Some(me);
          order := [me] + order;
        }
      }
    }

    /** The second critical section: take the entry off the list, wherever it is. */
    method SelectLeave(me: Tid)
      requires Valid() && me in order
      modifies this
      ensures Valid() && View() == Unlinked(old(View()), me)
    {
      hide Distinct, Without;
      ghost var at :| 0 <= at < |order| && order[at] == me;
      ghost var before := View();
      WithoutAt(order, at);
      if selectCbList == Some(me) {
        SamePlace(order, 0, at);
        FirstUnlinked(selectCbList, cbs, order);
        selectCbList := cbs[me].next;
      } else {
        var selcb := selectCbList;
        ghost var i := 0;
        while selcb.Some? && cbs[selcb.value].next != Some(me)
          invariant 0 <= i < at && selcb == Some(order[i])
          decreases at - i
        {
          assert i + 1 < at;
          selcb := cbs[selcb.value].next;
          i := i + 1;
        }
        SamePlace(order, i + 1, at);
        UnlinkedList(selectCbList, cbs, order, at);
        cbs := cbs[selcb.value := cbs[selcb.value].(next := cbs[me].next)];
      }
      order := order[..at] + order[at + 1..];
      assert View().cbs == before.cbs;
    }

    /** The end of lwip_select: after a timeout nothing is ready, after a signal the sets are scanned again. */
    method SelectResult(timedOut: bool, maxfdp1: nat, readset: set<nat>, writeset: set<nat>)
      returns (nready: nat, lreadset: set<nat>, lwriteset: set<nat>)
      ensures timedOut ==> lreadset == {} && lwriteset == {}
      ensures !timedOut ==> forall i :: i in lreadset <==>
        i in readset && i < maxfdp1 && i < |sockets| && sockets[i].open &&
        (sockets[i].lastdata || sockets[i].rcvevent > 0)
      ensures !timedOut ==> forall i :: i in lwriteset <==>
        i in writeset && i < maxfdp1 && i < |sockets| && sockets[i].open && sockets[i].sendevent
      ensures nready == |lreadset| + |lwriteset|
    {
      if timedOut {
        return 0, {}, {};
      }
      nready, lreadset, lwriteset := LwipSelscan(maxfdp1, readset, writeset);
    }

    /** alloc_socket: the lowest free descriptor, made ready for writing, or -1. */
    method AllocSocket() returns (fd: int)
      requires Valid()
      modifies this`sockets
      ensures Valid() && -1 <= fd < |sockets| == |old(sockets)|
      ensures fd == -1 ==> sockets == old(sockets) && forall k :: 0 <= k < |sockets| ==> sockets[k].open
      ensures fd >= 0 ==> sockets == old(sockets)[fd := Sock(true, false, 0, true)] && !old(sockets)[fd].open &&
                          forall k :: 0 <= k < fd ==> old(sockets)[k].open
    {
      for i := 0 to |sockets|
        invariant sockets == old(sockets) && forall k :: 0 <= k < i ==> sockets[k].open
      {
        if !sockets[i].open {
          sockets := sockets[i := Sock(true, false, 0, true)];
          return i;
        }
      }
      fd := -1;
    }

    /** The event update of event_callback. */
    method EventUpdate(s: nat, e: Event)
      requires Valid() && s < |sockets|
      modifies this`sockets
      ensures Valid() && View() == old(View()).(socks := old(sockets)[s := Updated(old(sockets)[s], e)])
      ensures sockets[s].rcvevent == match e
        case RcvPlus => S16(old(sockets)[s].rcvevent + 1)
        case RcvMinus => S16(old(sockets)[s].rcvevent - 1)
        case _ => old(sockets)[s].rcvevent
      ensures sockets[s].sendevent == (e == SendPlus || (e != SendMinus && old(sockets)[s].sendevent))
    {
      match e
      case RcvPlus => sockets := sockets[s := sockets[s].(rcvevent := S16(sockets[s].rcvevent + 1))];
      case RcvMinus => sockets := sockets[s := sockets[s].(rcvevent := S16(sockets[s].rcvevent - 1))];
      case SendPlus => sockets := sockets[s := sockets[s].(sendevent := true)];
      case SendMinus => sockets := sockets[s := sockets[s].(sendevent := false)];
    }

    /** One pass of the signalling loop: the first eligible select is signalled; none ends the loop. */
    method EventPass(s: nat) returns (hit: Option<Tid>)
      requires Valid() && s < |sockets|
      modifies this`cbs
      ensures Valid() && hit == FirstFrom(old(View()), s, 0)
      ensures View() == match hit case Some(t) => Signalled(old(View()), t) case None => old(View())
    {
      hide Distinct, ReadySet, WritableSet, S16, Updated;
      ghost var n := View();
      var scb := selectCbList;
      ghost var i: nat := 0;
      while scb.Some?
        invariant i <= |order| && scb == EntryAt(order, i)
        invariant FirstFrom(n, s, 0) == FirstFrom(n, s, i)
        decreases |order| - i
      {
        var w := cbs[scb.value].w;
        if !w.signalled {
          if s in w.readset && sockets[s].rcvevent > 0 {
            break;
          }
          if s in w.writeset && sockets[s].sendevent {
            break;
          }
        }
        scb := cbs[scb.value].next;
        i := i + 1;
      }
      hit := scb;
      assert hit == FirstFrom(n, s, 0);
      if scb.Some? {
        var c := cbs[scb.value];
        cbs := cbs[scb.value := c.(w := c.w.(signalled := true, sem := c.w.sem + 1, posted := c.w.posted + 1))];
      }
    }

    /** event_callback run without interference: the event is recorded and afterwards no select on the list is
        left that the socket should wake. */
    method EventCallback(s: nat, e: Event)
      requires Valid() && s < |sockets|
      modifies this`sockets, this`cbs
      ensures Valid() && order == old(order)
      ensures sockets == old(sockets)[s := Updated(old(sockets)[s], e)]
      ensures View() == Drained(old(View()).(socks := sockets), s)
      ensures forall t :: t in order ==> !Eligible(View(), t, s)
    {
      EventUpdate(s, e);
      ghost var goal := Drained(View(), s);
      while true
        invariant Valid() && order == old(order) && sockets == old(sockets)[s := Updated(old(sockets)[s], e)]
        invariant Drained(View(), s) == goal
        decreases |Unsignalled(View())|
      {
        ghost var before := View();
        DrainStep(before, s);
        var hit := EventPass(s);
        if hit.None? {
          break;
        }
        FewerUnsignalled(before, hit.value);
      }
    }
  }

  function Unsignalled(n: Net): set<Tid>
  {
    set t | t in n.cbs && !n.cbs[t].signalled
  }

  lemma FewerUnsignalled(n: Net, t: Tid)
    requires t in n.cbs && !n.cbs[t].signalled
    ensures Unsignalled(Signalled(n, t)) == Unsignalled(n) - {t}
    ensures |Unsignalled(Signalled(n, t))| < |Unsignalled(n)|
  {
  }

  /** What the signalling loop as a whole does: every eligible entry of the list is signalled once. */
  function Drained(n: Net, s: nat): Net
  {
    n.(cbs := map t | t in n.cbs :: if t in n.list && Eligible(n, t, s)
      then n.cbs[t].(signalled := true, sem := n.cbs[t].sem + 1, posted := n.cbs[t].posted + 1) else n.cbs[t])
  }

  lemma DrainStep(n: Net, s: nat)
    ensures match FirstFrom(n, s, 0)
            case Some(t) => t in n.cbs && !n.cbs[t].signalled && Drained(Signalled(n, t), s) == Drained(n, s)
            case None => Drained(n, s) == n && forall t :: t in n.list ==> !Eligible(n, t, s)
  {
    match FirstFrom(n, s, 0)
    case Some(t) =>
        forall u | u in n.cbs
        ensures Drained(Signalled(n, t), s).cbs[u] == Drained(n, s).cbs[u]
      {
        assert u != t ==> Eligible(Signalled(n, t), u, s) == Eligible(n, u, s);
      }
    case None =>
  }
}

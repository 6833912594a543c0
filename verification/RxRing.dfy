/** The ring of receive descriptors shared by the Ethernet DMA and the driver
    (Utilities/lwip-1.3.1/port/ethernetif.c:231-309, 374-424; Libraries/STM32_ETH_Driver/src/stm32_eth.c:1540-1577). */
module RxRing {
  import opened Bits

  /** The flags and the frame length (with CRC) of a descriptor's status word. */
  datatype Status = Status(es: bool, fs: bool, ls: bool, fl: nat)

  const CLEARED := Status(false, false, false, 0)

  /** A frame the DMA has finished: the status it wrote and what its buffer held. */
  datatype Frame = Frame(st: Status, data: seq<byte>)

  /** The descriptors: who owns each, its status and its buffer; the descriptor the DMA uses next, the one the driver
      looks at next, and the flag that the DMA has suspended for lack of a buffer. */
  datatype Ring = Ring(own: seq<bool>, st: seq<Status>, buf: seq<seq<byte>>, dma: nat, toGet: nat, rbus: bool)

  /** The driver inside low_level_input: nothing taken, or copying from descriptor at into a pbuf (None if pbuf_alloc
      failed). */
  datatype Cpu = Idle | Copying(at: nat, len: nat, p: Option<seq<byte>>)

  /** What became of a frame: skipped as erroneous, dropped because pbuf_alloc failed, or passed to the stack. */
  datatype Fate = Skipped | NoBuffer | Passed

  /** received: the finished frames, first to last.  got: how many descriptors the driver has taken or skipped.
      last: the frame each descriptor was last used for, -1 for none.  fates and delivered: what the driver did. */
  datatype World = World(ring: Ring, cpu: Cpu, received: seq<Frame>, got: nat, last: seq<int>, fates: seq<Fate>,
                         delivered: seq<seq<byte>>)

  /** The test of ETH_RxPkt_ChainMode; a length of 4 makes the result 0, which low_level_input takes for an error. */
  predicate Good(st: Status)
  {
    !st.es && st.ls && st.fs && st.fl != 4
  }

  /** What the hardware writes: a frame reported whole and without error includes its CRC and fits its buffer. */
  predicate Plausible(st: Status, size: nat)
  {
    !st.es && st.ls && st.fs ==> 4 <= st.fl <= size
  }

  function Next(d: nat, n: nat): nat
  {
    if d + 1 == n then 0 else d + 1
  }

  /** The descriptor of the i-th use. */
  function Slot(i: nat, n: nat): nat
  {
    if i == 0 then 0 else Next(Slot(i - 1, n), n)
  }

  datatype Action =
    | DmaWrite(j: nat, b: byte)
    | DmaComplete(st: Status)
    | DmaSuspend
    | Fetch(alloc: bool)
    | Copy(k: nat)
    | Release

  predicate Shaped(r: Ring)
  {
    |r.own| > 0 && |r.st| == |r.own| && |r.buf| == |r.own| && r.dma < |r.own| && r.toGet < |r.own|
  }

  predicate Enabled(w: World, a: Action)
  {
    Shaped(w.ring) &&
    match a
    case DmaWrite(j, _) => !w.ring.rbus && w.ring.own[w.ring.dma] && j < |w.ring.buf[w.ring.dma]|
    case DmaComplete(st) => !w.ring.rbus && w.ring.own[w.ring.dma] && Plausible(st, |w.ring.buf[w.ring.dma]|)
    case DmaSuspend => !w.ring.own[w.ring.dma]
    case Fetch(_) => w.cpu.Idle?
    case Copy(k) =>
      w.cpu.Copying? && w.cpu.p.Some? && w.cpu.at < |w.ring.buf| &&
      |w.cpu.p.value| + k <= w.cpu.len <= |w.ring.buf[w.cpu.at]|
    case Release => w.cpu.Copying? && w.cpu.at < |w.ring.own| && (w.cpu.p.Some? ==> |w.cpu.p.value| == w.cpu.len)
  }

  /** ETH_RxPkt_ChainMode, and what low_level_input does with its result before it copies. */
  function Fetched(r: Ring, alloc: bool): (Ring, Cpu)
    requires Shaped(r)
  {
    var d := r.toGet;
    if r.own[d] then (r.(rbus := false), Idle)
    else
      (r.(toGet := Next(d, |r.own|)),
       if !Good(r.st[d]) then Idle
       else Copying(d, if r.st[d].fl >= 4 then r.st[d].fl - 4 else 0, if alloc then Some([]) else None))
  }

  /** The end of low_level_input: the descriptor goes back to the DMA and reception is resumed. */
  function GivenBack(r: Ring, d: nat): Ring
    requires Shaped(r) && d < |r.own|
  {
    r.(own := r.own[d := true], st := r.st[d := CLEARED], rbus := false)
  }

  function Do(w: World, a: Action): World
    requires Enabled(w, a)
    requires |w.last| == |w.ring.own|
  {
    var r := w.ring;
    match a
    case DmaWrite(j, b) =>
      var data: seq<byte> := r.buf[r.dma][j := b];
      w.(ring := r.(buf := r.buf[r.dma := data]))
    case DmaComplete(st) =>
      w.(ring := r.(own := r.own[r.dma := false], st := r.st[r.dma := st], dma := Next(r.dma, |r.own|)),
         received := w.received + [Frame(st, r.buf[r.dma])],
         last := w.last[r.dma := |w.received|])
    case DmaSuspend => w.(ring := r.(rbus := true))
    case Fetch(alloc) =>
      var (r', cpu) := Fetched(r, alloc);
      if r.own[r.toGet] then w.(ring := r')
      else
        w.(ring := r', cpu := cpu, got := w.got + 1,
           fates := if cpu.Idle? && w.got < |w.received| then w.fates + [Skipped] else w.fates)
    case Copy(k) =>
      var at := |w.cpu.p.value|;
      w.(cpu := w.cpu.(p := Some(w.cpu.p.value + r.buf[w.cpu.at][at..at + k])))
    case Release =>
      w.(ring := GivenBack(r, w.cpu.at), cpu := Idle,
         fates := w.fates + [if w.cpu.p.Some? then Passed else NoBuffer],
         delivered := if w.cpu.p.Some? then w.delivered + [w.cpu.p.value] else w.delivered)
  }

  /** After ETH_DMARxDescChainInit. */
  ghost predicate Init(w: World)
  {
    Shaped(w.ring) && |w.last| == |w.ring.own| &&
    (forall d :: 0 <= d < |w.ring.own| ==> w.ring.own[d] && w.last[d] == -1) &&
    w.ring.dma == 0 && w.ring.toGet == 0 && !w.ring.rbus && w.cpu == Idle &&
    w.received == [] && w.got == 0 && w.fates == [] && w.delivered == []
  }

  // ----- what was delivered -----

  function Payload(f: Frame): seq<byte>
  {
    if 4 <= f.st.fl <= |f.data| then f.data[..f.st.fl - 4] else []
  }

  /** The payloads of the first |fates| frames that were passed on, in order. */
  function Deliveries(received: seq<Frame>, fates: seq<Fate>): seq<seq<byte>>
    requires |fates| <= |received|
  {
    if fates == [] then []
    else
      var i := |fates| - 1;
      Deliveries(received, fates[..i]) + if fates[i] == Passed then [Payload(received[i])] else []
  }

  lemma {:induction false} DeliveriesGrow(received: seq<Frame>, f: Frame, fates: seq<Fate>)
    requires |fates| <= |received|
    ensures Deliveries(received + [f], fates) == Deliveries(received, fates)
  {
    if fates != [] {
      DeliveriesGrow(received, f, fates[..|fates| - 1]);
    }
  }

  lemma DeliveriesStep(received: seq<Frame>, fates: seq<Fate>, x: Fate)
    requires |fates| < |received|
    ensures Deliveries(received, fates + [x]) ==
            Deliveries(received, fates) + if x == Passed then [Payload(received[|fates|])] else []
  {
  }

  // ----- the invariant -----

  /** Frame i has been taken by the driver and its descriptor given back. */
  predicate Returned(w: World, i: nat)
    requires i < |w.received|
  {
    i < w.got && Good(w.received[i].st) && !(w.cpu.Copying? && i == w.got - 1)
  }

  ghost predicate Sized(w: World)
  {
    Shaped(w.ring) && |w.last| == |w.ring.own| &&
    w.ring.dma == Slot(|w.received|, |w.ring.own|) && w.ring.toGet == Slot(w.got, |w.ring.own|) &&
    forall i :: 0 <= i < |w.received| ==> Plausible(w.received[i].st, |w.received[i].data|)
  }

  /** Descriptor d was last used for frame last[d], one of the latest n. */
  ghost predicate Latest(w: World, d: nat)
    requires Sized(w) && d < |w.last|
  {
    -1 <= w.last[d] < |w.received| && (w.last[d] == -1 <==> d >= |w.received|) &&
    (w.last[d] >= 0 ==> |w.received| - |w.last| <= w.last[d] && Slot(w.last[d], |w.last|) == d)
  }

  /** It belongs to the DMA exactly when that frame has been returned, and until then it still holds the frame. */
  ghost predicate Owned(w: World, d: nat)
    requires Sized(w) && d < |w.last| && Latest(w, d)
  {
    w.ring.own[d] == (w.last[d] >= 0 ==> Returned(w, w.last[d])) &&
    (!w.ring.own[d] ==> Frame(w.ring.st[d], w.ring.buf[d]) == w.received[w.last[d]])
  }

  /** Every frame older than the latest n was good and has been returned. */
  ghost predicate OldReturned(w: World)
  {
    forall i :: 0 <= i < |w.received| - |w.ring.own| ==> Returned(w, i)
  }

  ghost predicate Holding(w: World)
    requires Sized(w)
  {
    w.cpu.Copying? ==>
      var f := w.got - 1;
      0 <= f < |w.received| && w.cpu.at == Slot(f, |w.last|) < |w.last| && w.last[w.cpu.at] == f &&
      Good(w.received[f].st) &&
      w.cpu.len == w.received[f].st.fl - 4 && w.cpu.len <= |w.received[f].data| &&
      (w.cpu.p.Some? ==> w.cpu.p.value <= w.received[f].data[..w.cpu.len])
  }

  function Settled(w: World): int
  {
    (if w.got < |w.received| then w.got else |w.received|) - (if w.cpu.Copying? then 1 else 0)
  }

  /** The frames settled so far were delivered in order, except the erroneous ones and those without a pbuf. */
  ghost predicate InOrder(w: World)
  {
    |w.fates| == Settled(w) && w.delivered == Deliveries(w.received, w.fates) &&
    forall i :: 0 <= i < |w.fates| ==> (w.fates[i] == Skipped <==> !Good(w.received[i].st))
  }

  ghost predicate Slots(w: World)
    requires Sized(w)
  {
    forall d :: 0 <= d < |w.last| ==> Latest(w, d) && Owned(w, d)
  }

  /** The driver runs ahead of the DMA only over descriptors it has never given back. */
  ghost predicate NotAhead(w: World)
  {
    w.got > |w.received| ==> |w.received| >= |w.last| > 0 && !Good(w.received[|w.received| - |w.last|].st)
  }

  ghost predicate Inv(w: World)
  {
    Sized(w) && Slots(w) && OldReturned(w) && Holding(w) && InOrder(w) && NotAhead(w)
  }

  // ----- going round the ring -----

  lemma {:induction false} SlotAhead(i: nat, k: nat, n: nat)
    requires k < n
    ensures Slot(i, n) < n && Slot(i + k, n) == if Slot(i, n) + k < n then Slot(i, n) + k else Slot(i, n) + k - n
    decreases k
  {
    if k == 0 {
      SlotBelow(i, n);
    } else {
      SlotAhead(i, k - 1, n);
    }
  }

  lemma {:induction false} SlotBelow(i: nat, n: nat)
    requires n > 0
    ensures Slot(i, n) < n
  {
    if i > 0 {
      SlotBelow(i - 1, n);
    }
  }

  /** Once round the ring. */
  lemma SlotAgain(i: nat, n: nat)
    requires n > 0
    ensures Slot(i + n, n) == Slot(i, n) < n
  {
    SlotAhead(i, n - 1, n);
  }

  /** Two frames less than n apart that use the same descriptor are the same frame. */
  lemma SameSlot(i: nat, j: nat, n: nat)
    requires n > 0 && Slot(i, n) == Slot(j, n) && i <= j < i + n
    ensures i == j
  {
    SlotAhead(i, j - i, n);
  }

  // ----- one step -----

  /** The descriptor the DMA comes to was last used n frames ago. */
  lemma AtDma(w: World)
    requires Inv(w)
    ensures w.ring.dma < |w.last|
    ensures w.last[w.ring.dma] == if |w.received| < |w.last| then -1 else |w.received| - |w.last|
  {
    hide InOrder, Holding, OldReturned, NotAhead, Owned;
    var n, r := |w.last|, |w.received|;
    SlotBelow(r, n);
    var i := w.last[w.ring.dma];
    assert Latest(w, w.ring.dma);
    if r < n {
      SlotAhead(0, r, n);
    } else if r < i + n {
      SameSlot(i, r, n);
    }
  }

  /** A descriptor the driver finds filled holds the frame it is waiting for, or an erroneous one it has met before. */
  lemma AtCpu(w: World)
    requires Inv(w) && w.cpu.Idle? && !w.ring.own[w.ring.toGet]
    ensures 0 <= w.last[w.ring.toGet] < |w.received|
    ensures w.ring.st[w.ring.toGet] == w.received[w.last[w.ring.toGet]].st
    ensures if w.got < |w.received| then w.last[w.ring.toGet] == w.got else !Good(w.ring.st[w.ring.toGet])
    ensures w.got == |w.received| ==> w.last[w.ring.toGet] == w.got - |w.last|
  {
    hide InOrder, Holding;
    var n, r, d := |w.last|, |w.received|, w.ring.toGet;
    var i := w.last[d];
    assert Latest(w, d) && Owned(w, d);
    if w.got < r {
      assert w.got < r - n ==> Returned(w, w.got);
      if i <= w.got {
        SameSlot(i, w.got, n);
      } else {
        SameSlot(w.got, i, n);
      }
    }
    if w.got == r {
      AtDma(w);
    }
  }

  lemma DmaWriteStep(w: World, j: nat, b: byte)
    requires Inv(w) && Enabled(w, DmaWrite(j, b))
    ensures Inv(Do(w, DmaWrite(j, b)))
  {
    hide Good, Plausible;
    var w' := Do(w, DmaWrite(j, b));
    forall d | 0 <= d < |w.last|
      ensures Latest(w', d) && Owned(w', d)
    {
      assert Latest(w, d) && Owned(w, d);
    }
    forall i | 0 <= i < |w.received| - |w.last|
      ensures Returned(w', i)
    {
      assert Returned(w, i);
    }
  }

  lemma CompleteSlots(w: World, st: Status)
    requires Inv(w) && Enabled(w, DmaComplete(st))
    ensures Sized(Do(w, DmaComplete(st))) && Slots(Do(w, DmaComplete(st)))
    ensures w.got <= |w.received| && (|w.received| >= |w.last| ==> Returned(w, |w.received| - |w.last|))
  {
    hide Good, Plausible, InOrder, Holding;
    var w', n, r, at := Do(w, DmaComplete(st)), |w.last|, |w.received|, w.ring.dma;
    assert Latest(w, at) && Owned(w, at);
    AtDma(w);
    forall i | 0 <= i < |w'.received|
      ensures Plausible(w'.received[i].st, |w'.received[i].data|)
    {
      assert i < r ==> w'.received[i] == w.received[i];
    }
    if r < n {
      SlotAhead(0, r, n);
    } else {
      SlotAgain(r - n, n);
    }
    assert w.got <= r;
    forall d | 0 <= d < n
      ensures Latest(w', d) && Owned(w', d)
    {
      assert Latest(w, d) && Owned(w, d);
    }
  }

  lemma DmaCompleteStep(w: World, st: Status)
    requires Inv(w) && Enabled(w, DmaComplete(st))
    ensures Inv(Do(w, DmaComplete(st)))
  {
    hide Good, Plausible, Latest, Deliveries;
    var w' := Do(w, DmaComplete(st));
    CompleteSlots(w, st);
    DeliveriesGrow(w.received, Frame(st, w.ring.buf[w.ring.dma]), w.fates);
    assert forall i :: 0 <= i < |w.received| ==> w'.received[i] == w.received[i];
    forall i | 0 <= i < |w'.received| - |w.last|
      ensures Returned(w', i)
    {
      assert Returned(w, i);
    }
    if w.cpu.Copying? {
      assert Latest(w, w.cpu.at) && Owned(w, w.cpu.at);
    }
  }

  lemma FetchStep(w: World, alloc: bool)
    requires Inv(w) && Enabled(w, Fetch(alloc)) && !w.ring.own[w.ring.toGet]
    ensures Inv(Do(w, Fetch(alloc)))
  {
    hide Good, Deliveries;
    var w' := Do(w, Fetch(alloc));
    AtCpu(w);
    var d0 := w.ring.toGet;
    assert Latest(w, d0) && Owned(w, d0);
    forall d | 0 <= d < |w.last|
      ensures Latest(w', d) && Owned(w', d)
    {
      assert Latest(w, d) && Owned(w, d);
    }
    forall i | 0 <= i < |w.received| - |w.last|
      ensures Returned(w', i)
    {
      assert Returned(w, i);
    }
    if w.got < |w.received| {
      assert Plausible(w.received[w.got].st, |w.received[w.got].data|);
      DeliveriesStep(w.received, w.fates, Skipped);
    }
    GoodLength(w.ring.st[d0], |w.ring.buf[d0]|);
  }

  lemma GoodLength(st: Status, size: nat)
    requires Plausible(st, size)
    ensures Good(st) ==> 4 < st.fl <= size
  {
  }

  lemma CopyStep(w: World, k: nat)
    requires Inv(w) && Enabled(w, Copy(k))
    ensures Inv(Do(w, Copy(k)))
  {
    hide Good, Plausible, Deliveries;
    var w' := Do(w, Copy(k));
    var at, f := |w.cpu.p.value|, w.received[w.got - 1];
    assert Latest(w, w.cpu.at) && Owned(w, w.cpu.at);
    assert w'.cpu.p.value == f.data[..w.cpu.len][..at + k];
    forall d | 0 <= d < |w.last|
      ensures Latest(w', d) && Owned(w', d)
    {
      assert Latest(w, d) && Owned(w, d);
    }
    forall i | 0 <= i < |w.received| - |w.last|
      ensures Returned(w', i)
    {
      assert Returned(w, i);
    }
  }

  lemma ReleaseStep(w: World)
    requires Inv(w) && Enabled(w, Release)
    ensures Inv(Do(w, Release))
  {
    hide Good, Plausible, Deliveries;
    var w', f := Do(w, Release), w.got - 1;
    forall d | 0 <= d < |w.last|
      ensures Latest(w', d) && Owned(w', d)
    {
      assert Latest(w, d) && Owned(w, d);
    }
    forall i | 0 <= i < |w.received| - |w.last|
      ensures Returned(w', i)
    {
      assert Returned(w, i);
    }
    DeliveriesStep(w.received, w.fates, if w.cpu.p.Some? then Passed else NoBuffer);
    assert Good(w.received[f].st) && Plausible(w.received[f].st, |w.received[f].data|);
    GoodLength(w.received[f].st, |w.received[f].data|);
    assert w.cpu.p.Some? ==> w.cpu.p.value == Payload(w.received[f]);
  }

  lemma InvStep(w: World, a: Action)
    requires Inv(w) && Enabled(w, a)
    ensures Inv(Do(w, a))
  {
    hide Good, Plausible, Deliveries, Latest, Owned, Returned;
    match a
    case DmaWrite(j, b) => DmaWriteStep(w, j, b);
    case DmaComplete(st) => DmaCompleteStep(w, st);
    case DmaSuspend => SuspendStep(w, true);
    case Fetch(alloc) =>
      if w.ring.own[w.ring.toGet] {
        SuspendStep(w, false);
      } else {
        FetchStep(w, alloc);
      }
    case Copy(k) => CopyStep(w, k);
    case Release => ReleaseStep(w);
  }

  lemma SuspendStep(w: World, rbus: bool)
    requires Inv(w)
    ensures Inv(w.(ring := w.ring.(rbus := rbus)))
  {
    hide Good, Plausible, Deliveries;
    var w' := w.(ring := w.ring.(rbus := rbus));
    forall d | 0 <= d < |w.last|
      ensures Latest(w', d) && Owned(w', d)
    {
      assert Latest(w, d) && Owned(w, d);
    }
    forall i | 0 <= i < |w.received| - |w.last|
      ensures Returned(w', i)
    {
      assert Returned(w, i);
    }
  }

  // ----- whole runs -----

  ghost predicate Run(ws: seq<World>, acts: seq<Action>)
  {
    |ws| == |acts| + 1 && Init(ws[0]) &&
    forall i :: 0 <= i < |acts| ==>
      Enabled(ws[i], acts[i]) && |ws[i].last| == |ws[i].ring.own| && ws[i + 1] == Do(ws[i], acts[i])
  }

  /** Whatever the DMA does between and during the driver's calls. */
  lemma {:induction false} RunInv(ws: seq<World>, acts: seq<Action>, i: nat)
    requires Run(ws, acts) && i < |ws|
    ensures Inv(ws[i])
  {
    hide Do;
    if i > 0 {
      RunInv(ws, acts, i - 1);
      InvStep(ws[i - 1], acts[i - 1]);
    }
  }

  /** Over any run whose finished frames are all good, the ring is a FIFO: the payloads go up in DMA order, each once,
      and only frames for which pbuf_alloc failed are missing. */
  lemma GoodRunIsFifo(ws: seq<World>, acts: seq<Action>, i: nat)
    requires Run(ws, acts) && i < |ws| && forall f :: f in ws[i].received ==> Good(f.st)
    ensures var w := ws[i];
            w.got <= |w.received| && |w.fates| == w.got - (if w.cpu.Copying? then 1 else 0) &&
            w.delivered == Deliveries(w.received, w.fates) && forall x :: x in w.fates ==> x == Passed || x == NoBuffer
  {
    hide Good, Deliveries, Plausible, Latest, Owned;
    RunInv(ws, acts, i);
    var w := ws[i];
    assert forall k :: 0 <= k < |w.received| ==> w.received[k] in w.received && Good(w.received[k].st);
  }

  /** While the driver copies out of a buffer its descriptor is not the DMA's, and the buffer holds the frame. */
  lemma DriverOwnsWhatItReads(ws: seq<World>, acts: seq<Action>, i: nat)
    requires Run(ws, acts) && i < |ws| && ws[i].cpu.Copying?
    ensures var w := ws[i];
            w.cpu.at < |w.ring.own| == |w.ring.buf| && !w.ring.own[w.cpu.at] &&
            0 < w.got <= |w.received| && w.ring.buf[w.cpu.at] == w.received[w.got - 1].data
  {
    RunInv(ws, acts, i);
    assert Latest(ws[i], ws[i].cpu.at) && Owned(ws[i], ws[i].cpu.at);
  }

  /** An idle driver that is behind finds the next frame, good or not, in the descriptor it looks at. */
  lemma NothingIsOverlooked(w: World)
    requires Inv(w) && w.cpu.Idle? && w.got < |w.received|
    ensures !w.ring.own[w.ring.toGet] && Frame(w.ring.st[w.ring.toGet], w.ring.buf[w.ring.toGet]) == w.received[w.got]
  {
    var n, r, d := |w.last|, |w.received|, w.ring.toGet;
    SlotBelow(w.got, n);
    assert Latest(w, d) && Owned(w, d);
    assert w.got < r - n ==> Returned(w, w.got);
    var i := w.last[d];
    if i < 0 {
      SlotAhead(0, w.got, n);
    } else if i <= w.got {
      SameSlot(i, w.got, n);
    } else {
      SameSlot(w.got, i, n);
    }
  }

  /** Once the driver has caught up, the DMA can go on exactly when the frame n places back was good: an erroneous
      frame's descriptor is never given back. */
  lemma DmaCanGoOnExactly(w: World)
    requires Inv(w) && w.cpu.Idle? && w.got >= |w.received|
    ensures w.ring.dma < |w.ring.own|
    ensures w.ring.own[w.ring.dma] <==>
            |w.received| < |w.ring.own| || Good(w.received[|w.received| - |w.ring.own|].st)
  {
    AtDma(w);
    assert Latest(w, w.ring.dma) && Owned(w, w.ring.dma);
  }

  lemma {:induction false} ReceivedGrows(ws: seq<World>, acts: seq<Action>, i: nat, j: nat)
    requires Run(ws, acts) && i <= j < |ws|
    ensures ws[i].received <= ws[j].received && |ws[i].ring.own| == |ws[j].ring.own|
    decreases j
  {
    if i < j {
      ReceivedGrows(ws, acts, i, j - 1);
    }
  }

  /** So one erroneous frame stops reception for good: after frame number e, counting from 0, at most n - 1 more
      frames are ever received, however often the driver polls. */
  lemma BadFrameStalls(ws: seq<World>, acts: seq<Action>, i: nat, j: nat, e: nat)
    requires Run(ws, acts) && i <= j < |ws| && e < |ws[i].received| && !Good(ws[i].received[e].st)
    ensures |ws[j].received| <= e + |ws[i].ring.own|
  {
    ReceivedGrows(ws, acts, i, j);
    RunInv(ws, acts, j);
    assert ws[j].received[e] == ws[i].received[e];
    assert e < |ws[j].received| - |ws[j].ring.own| ==> Returned(ws[j], e);
  }

  // ----- what the driver does with a frame, on the status bits -----

  /** The driver skips exactly the frames with an error summary, those that do not lie in one buffer, and those of
      length 4; all others are passed on or dropped for want of a pbuf. */
  lemma SkippedExactly(ws: seq<World>, acts: seq<Action>, i: nat, k: nat)
    requires Run(ws, acts) && i < |ws| && k < |ws[i].fates|
    ensures k < |ws[i].received|
    ensures var st := ws[i].received[k].st;
            ws[i].fates[k] == Skipped <==> st.es || !st.ls || !st.fs || st.fl == 4
  {
    hide Sized, Slots, OldReturned, Holding;
    RunInv(ws, acts, i);
  }

  /** A driver that is behind takes the next frame: an acceptable one is about to be copied, without its four bytes of
      CRC, into a pbuf if there is one; any other is skipped on the spot. */
  lemma FetchTakesNext(ws: seq<World>, acts: seq<Action>, i: nat, alloc: bool)
    requires Run(ws, acts) && i < |acts| && acts[i] == Fetch(alloc) && ws[i].got < |ws[i].received|
    ensures ws[i + 1].got == ws[i].got + 1 && ws[i + 1].ring.own == ws[i].ring.own
    ensures var (st, w, w') := (ws[i].received[ws[i].got].st, ws[i], ws[i + 1]);
            if !st.es && st.ls && st.fs && st.fl != 4
            then st.fl > 4 && w'.cpu == Copying(w.ring.toGet, st.fl - 4, if alloc then Some([]) else None) &&
                 w'.fates == w.fates
            else w'.cpu == Idle && w'.fates == w.fates + [Skipped]
  {
    hide Slots, OldReturned, InOrder;
    RunInv(ws, acts, i);
    NothingIsOverlooked(ws[i]);
    assert Plausible(ws[i].received[ws[i].got].st, |ws[i].received[ws[i].got].data|);
  }

  /** When the driver is done with a frame, its data without the CRC go to the stack, if there was a pbuf; the
      descriptor is the DMA's again and reception is not suspended. */
  lemma ReleaseDelivers(ws: seq<World>, acts: seq<Action>, i: nat)
    requires Run(ws, acts) && i < |acts| && acts[i] == Release
    ensures 0 < ws[i].got <= |ws[i].received| && ws[i].cpu.Copying? && ws[i].cpu.at < |ws[i + 1].ring.own|
    ensures var (w, w', f) := (ws[i], ws[i + 1], ws[i].received[ws[i].got - 1]);
            4 < f.st.fl <= |f.data| && w'.ring.own == w.ring.own[w.cpu.at := true] && !w'.ring.rbus && w'.cpu == Idle &&
            if w.cpu.p.Some?
            then w'.delivered == w.delivered + [f.data[..f.st.fl - 4]] && w'.fates == w.fates + [Passed]
            else w'.delivered == w.delivered && w'.fates == w.fates + [NoBuffer]
  {
    hide Slots, OldReturned, InOrder;
    RunInv(ws, acts, i);
    assert Enabled(ws[i], acts[i]) && ws[i + 1] == Do(ws[i], acts[i]);
    var f := ws[i].received[ws[i].got - 1];
    assert Plausible(f.st, |f.data|);
    GoodLength(f.st, |f.data|);
    if ws[i].cpu.p.Some? {
      var d := f.data[..ws[i].cpu.len];
      assert ws[i].cpu.p.value == d[..|d|] == d;
    }
  }

  /** Over a run of acceptable frames reception never stops: when the driver has caught up and polls once more, the DMA
      may finish its next frame, whatever has been suspended before. */
  lemma GoodRunGoesOn(ws: seq<World>, acts: seq<Action>, i: nat, alloc: bool, st: Status)
    requires Run(ws, acts) && i < |acts| && acts[i] == Fetch(alloc) && ws[i].got == |ws[i].received|
    requires forall f :: f in ws[i].received ==> !f.st.es && f.st.ls && f.st.fs && f.st.fl != 4
    ensures ws[i + 1].received == ws[i].received && Shaped(ws[i + 1].ring)
    ensures Plausible(st, |ws[i + 1].ring.buf[ws[i + 1].ring.dma]|) ==> Enabled(ws[i + 1], DmaComplete(st))
  {
    hide Slots, OldReturned, InOrder, Plausible;
    RunInv(ws, acts, i);
    var w := ws[i];
    assert Enabled(w, acts[i]) && ws[i + 1] == Do(w, acts[i]);
    DmaCanGoOnExactly(w);
    var k := |w.received| - |w.ring.own|;
    if k >= 0 {
      assert w.received[k] in w.received;
    }
    assert w.ring.toGet == w.ring.dma && w.ring.own[w.ring.dma];
  }

  // ----- the code -----

  /** low_level_input with nobody else running: fetch, copy pbuf by pbuf, give the descriptor back. */
  function CopiedOut(r: Ring, at: nat, from: nat, lens: seq<nat>): seq<seq<byte>>
    requires at < |r.buf| && from + Total(lens) <= |r.buf[at]|
    decreases |lens|
  {
    if lens == [] then []
    else [r.buf[at][from..from + lens[0]]] + CopiedOut(r, at, from + lens[0], lens[1..])
  }

  function Total(lens: seq<nat>): nat
  {
    if lens == [] then 0 else lens[0] + Total(lens[1..])
  }

  /** The pbufs of a chain of any shape hold the frame's bytes in order. */
  lemma {:induction false} ChainHoldsFrame(r: Ring, at: nat, from: nat, lens: seq<nat>)
    requires at < |r.buf| && from + Total(lens) <= |r.buf[at]|
    ensures Joined(CopiedOut(r, at, from, lens)) == r.buf[at][from..from + Total(lens)]
    decreases |lens|
  {
    if lens != [] {
      var rest := CopiedOut(r, at, from + lens[0], lens[1..]);
      ChainHoldsFrame(r, at, from + lens[0], lens[1..]);
      assert ([r.buf[at][from..from + lens[0]]] + rest)[1..] == rest;
    }
  }

  /** A frame as ETH_RxPkt_ChainMode returns it; length 0 is ETH_ERROR. */
  datatype FrameType = FrameType(length: nat, descriptor: nat)

  class EthDriver {
    const own: array<bool>
    const status: array<Status>
    const buffer: array<seq<byte>>
    const nextDesc: array<nat>
    var dma: nat
    var rxDescToGet: nat
    var rbus: bool

    ghost predicate Valid()
      reads this, own, status, buffer, nextDesc
    {
      own.Length > 0 && status.Length == own.Length && buffer.Length == own.Length && nextDesc.Length == own.Length &&
      dma < own.Length && rxDescToGet < own.Length &&
      forall d :: 0 <= d < own.Length ==> nextDesc[d] == Next(d, own.Length)
    }

    ghost function View(): (r: Ring)
      requires Valid()
      reads this, own, status, buffer, nextDesc
      ensures Shaped(r)
    {
      Ring(own[..], status[..], buffer[..], dma, rxDescToGet, rbus)
    }

    /** ETH_DMARxDescChainInit: every descriptor to the DMA, each linked to the next and the last to the first. */
    constructor (count: nat, size: nat)
      requires count > 0
      ensures Valid() && own.Length == count && rxDescToGet == 0 && dma == 0 && !rbus
      ensures forall d :: 0 <= d < count ==> own[d] && status[d] == CLEARED && |buffer[d]| == size
      ensures fresh(own) && fresh(status) && fresh(buffer) && fresh(nextDesc)
    {
      own, status := new bool[count], new Status[count];
      buffer, nextDesc := new seq<byte>[count](_ => seq(size, _ => 0)), new nat[count];
      dma, rxDescToGet, rbus := 0, 0, false;
      new;
      for i := 0 to count
        invariant rxDescToGet == 0 && dma == 0 && !rbus
        invariant forall d :: 0 <= d < i ==> own[d] && status[d] == CLEARED && nextDesc[d] == Next(d, count)
        invariant forall d :: 0 <= d < count ==> |buffer[d]| == size
      {
        own[i], status[i] := true, CLEARED;
        nextDesc[i] := if i < count - 1 then i + 1 else 0;
      }
    }

    method EthRxPktChainMode() returns (frame: FrameType)
      requires Valid() && forall d :: 0 <= d < own.Length ==> Plausible(status[d], |buffer[d]|)
      modifies this
      ensures Valid()
      ensures View() == Fetched(old(View()), true).0 && frame.descriptor < own.Length
      ensures match Fetched(old(View()), true).1
              case Idle => frame.length == 0
              case Copying(at, len, _) => frame == FrameType(len, at) && 0 < len && len + 4 <= |buffer[at]| && !own[at]
    {
      var d := rxDescToGet;
      if own[d] {
        if rbus {
          rbus := false;
        }
        return FrameType(0, d);
      }
      var framelength := 0;
      if !status[d].es && status[d].ls && status[d].fs {
        framelength := status[d].fl - 4;
      }
      frame := FrameType(framelength, d);
      rxDescToGet := nextDesc[d];
    }

    /** The copy loop: l runs through the buffer from pbuf to pbuf. */
    method CopyChain(at: nat, lens: seq<nat>) returns (chain: seq<seq<byte>>)
      requires Valid() && at < buffer.Length && Total(lens) <= |buffer[at]|
      ensures chain == CopiedOut(View(), at, 0, lens)
    {
      ghost var r := View();
      var data := buffer[at];
      var q: nat, l: nat := 0, 0;
      chain := [];
      while q < |lens|
        invariant q <= |lens| && l + Total(lens[q..]) <= |data|
        invariant chain + CopiedOut(r, at, l, lens[q..]) == CopiedOut(r, at, 0, lens)
      {
        assert lens[q..][1..] == lens[q + 1..];
        chain := chain + [data[l..l + lens[q]]];
        l := l + lens[q];
        q := q + 1;
      }
    }

    /** lens are the lengths of the pbufs that pbuf_alloc hands out for the frame, ok whether it succeeds. */
    method LowLevelInput(ok: bool, lens: seq<nat>) returns (p: Option<seq<seq<byte>>>)
      requires Valid() && forall d :: 0 <= d < own.Length ==> Plausible(status[d], |buffer[d]|)
      requires match Fetched(View(), true).1 case Copying(_, len, _) => Total(lens) == len case Idle => true
      modifies this, own, status
      ensures Valid()
      ensures var d := old(rxDescToGet);
              var st := old(status[d]);
              if old(own[d]) then p.None? && !rbus && rxDescToGet == d && own[..] == old(own[..])
              else
                rxDescToGet == Next(d, own.Length) &&
                if !st.es && st.ls && st.fs && st.fl != 4
                then own[..] == old(own[..])[d := true] && !rbus && p.Some? == ok &&
                     (ok ==> 4 < st.fl <= |buffer[d]| && Joined(p.value) == buffer[d][..st.fl - 4])
                else p.None? && rbus == old(rbus) && own[..] == old(own[..])
      ensures Fetched(old(View()), true).1.Idle? ==> View() == Fetched(old(View()), true).0 && p.None?
      ensures var (r, cpu) := Fetched(old(View()), true);
              cpu.Copying? ==> (
                View() == GivenBack(r, cpu.at) && p.Some? == ok && cpu.len <= |r.buf[cpu.at]| &&
                (ok ==> p.value == CopiedOut(r, cpu.at, 0, lens) && Joined(p.value) == r.buf[cpu.at][..cpu.len]))
    {
      p := None;
      var frame := EthRxPktChainMode();
      if frame.length == 0 {
        return;
      }
      var at := frame.descriptor;
      if ok {
        var chain := CopyChain(at, lens);
        p := Some(chain);
        ChainHoldsFrame(View(), at, 0, lens);
      }
      own[at], status[at] := true, CLEARED;
      if rbus {
        rbus := false;
      }
    }
  }
}

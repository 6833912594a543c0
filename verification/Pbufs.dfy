/** Reference-counted pbuf chains (Utilities/lwip-1.3.1/src/core/pbuf.c:497-662). */
module Pbufs {
  import opened Bits

  const U16 := 65536

  /** A pbuf's data and reference count. */
  datatype Pb = Pb(payload: seq<byte>, ref: nat)

  function Bytes(chain: seq<Pb>): seq<byte>
  {
    if chain == [] then [] else chain[0].payload + Bytes(chain[1..])
  }

  lemma {:induction false} BytesAppend(a: seq<Pb>, b: seq<Pb>)
    ensures Bytes(a + b) == Bytes(a) + Bytes(b)
  {
    if a == [] {
      assert a + b == b;
    } else {
      BytesAppend(a[1..], b);
      assert (a + b)[1..] == a[1..] + b && (a + b)[0] == a[0];
      assert a[0].payload + (Bytes(a[1..]) + Bytes(b)) == (a[0].payload + Bytes(a[1..])) + Bytes(b);
    }
  }

  lemma BytesTo(all: seq<Pb>, k: nat)
    requires k < |all|
    ensures Bytes(all[..k + 1]) == Bytes(all[..k]) + all[k].payload
  {
    var last := [all[k]];
    assert all[..k + 1] == all[..k] + last && last[1..] == [];
    BytesAppend(all[..k], last);
    assert Bytes(last) == all[k].payload + Bytes([]);
  }

  lemma BytesUpTo(all: seq<Pb>, k: nat, t: nat)
    requires k <= t <= |all|
    ensures |Bytes(all[..k])| <= |Bytes(all[..t])|
  {
    assert all[..t] == all[..k] + all[k..t];
    BytesAppend(all[..k], all[k..t]);
  }

  /** Reference counts do not matter to the data. */
  lemma {:induction false} SameBytes(a: seq<Pb>, b: seq<Pb>)
    requires |a| == |b| && forall i :: 0 <= i < |a| ==> a[i].payload == b[i].payload
    ensures Bytes(a) == Bytes(b)
  {
    if a != [] {
      SameBytes(a[1..], b[1..]);
    }
  }

  /** pbuf_chain: the head of the second chain is referred to by the first one as well. */
  function Chained(a: seq<Pb>, b: seq<Pb>): seq<Pb>
    requires b != []
  {
    a + [b[0].(ref := b[0].ref + 1)] + b[1..]
  }

  lemma ChainedBytes(a: seq<Pb>, b: seq<Pb>)
    requires b != []
    ensures Bytes(Chained(a, b)) == Bytes(a) + Bytes(b)
  {
    var h := [b[0].(ref := b[0].ref + 1)];
    assert Chained(a, b) == a + (h + b[1..]) && (h + b[1..])[1..] == b[1..];
    BytesAppend(a, h + b[1..]);
  }

  // ----- reference counts -----

  /** pbuf_free on a chain with these counts. */
  function FreedRefs(refs: seq<nat>): (r: seq<nat>)
    ensures |r| == |refs|
  {
    if refs == [] then []
    else if refs[0] <= 1 then [0] + FreedRefs(refs[1..])
    else [refs[0] - 1] + refs[1..]
  }

  /** How many pbufs pbuf_free deallocates. */
  function Singles(refs: seq<nat>): (k: nat)
    ensures k <= |refs|
  {
    if refs == [] || refs[0] > 1 then 0 else 1 + Singles(refs[1..])
  }

  /** It deallocates the pbufs in front with a single reference, takes one reference off the first pbuf that stays, and
      leaves the rest alone. */
  lemma {:induction false} FreedRefsAt(refs: seq<nat>, i: nat)
    requires i < |refs| && forall k :: 0 <= k < |refs| ==> refs[k] >= 1
    ensures FreedRefs(refs)[i] == if i < Singles(refs) then 0 else if i == Singles(refs) then refs[i] - 1 else refs[i]
    ensures (i < Singles(refs) ==> refs[i] == 1) && (i == Singles(refs) ==> refs[i] > 1)
  {
    if i > 0 && refs[0] == 1 {
      FreedRefsAt(refs[1..], i - 1);
    }
  }

  /** The five cases its documentation gives. */
  lemma FreedRefsExamples()
    ensures FreedRefs([1, 2, 3]) == [0, 1, 3] && FreedRefs([3, 3, 3]) == [2, 3, 3] && FreedRefs([1, 1, 2]) == [0, 0, 1]
    ensures FreedRefs([2, 1, 1]) == [1, 1, 1] && FreedRefs([1, 1, 1]) == [0, 0, 0]
  {
  }

  // ----- the code -----

  class Pbuf {
    const payload: seq<byte>
    var next: Pbuf?
    var ref: nat
    var totLen: nat
    ghost var freed: nat

    /** A new pbuf, referred to by its owner alone. */
    constructor (payload: seq<byte>)
      ensures this.payload == payload && next == null && ref == 1 && totLen == |payload| % U16 && freed == 0
    {
      this.payload, next, ref, totLen, freed := payload, null, 1, |payload| % U16, 0;
    }
  }

  ghost function At(ps: seq<Pbuf>, i: nat): Pbuf?
  {
    if i < |ps| then ps[i] else null
  }

  ghost predicate Distinct(ps: seq<Pbuf>)
  {
    forall i, j :: 0 <= i < j < |ps| ==> ps[i] != ps[j]
  }

  lemma OnlyOne(ps: seq<Pbuf>, k: nat)
    requires Distinct(ps) && k < |ps|
    ensures forall i :: 0 <= i < |ps| && i != k ==> ps[i] != ps[k]
  {
  }

  /** The next pointers from p on visit exactly ps, once each. */
  ghost predicate Linked(p: Pbuf?, ps: seq<Pbuf>)
    reads ps
  {
    p == At(ps, 0) && Distinct(ps) && forall i {:trigger ps[i].next} :: 0 <= i < |ps| ==> ps[i].next == At(ps, i + 1)
  }

  /** The pbufs from p on, all referred to, and the values pbs they hold. */
  ghost predicate Chain(p: Pbuf?, ps: seq<Pbuf>, pbs: seq<Pb>)
    reads ps
  {
    Linked(p, ps) && |pbs| == |ps| &&
    forall i :: 0 <= i < |ps| ==> pbs[i] == Pb(ps[i].payload, ps[i].ref) && ps[i].ref >= 1
  }

  lemma ChainHead(p: Pbuf?, ps: seq<Pbuf>, pbs: seq<Pb>)
    requires Chain(p, ps, pbs)
    ensures |ps| == |pbs| && (p == null <==> ps == [])
    ensures ps != [] ==> p == ps[0] && pbs[0].payload == ps[0].payload && pbs[0].ref == ps[0].ref
  {
  }

  method PbufRef(p: Pbuf?)
    modifies (if p == null then {} else {p})`ref
    ensures p != null ==> p.ref == old(p.ref) + 1
  {
    if p != null {
      p.ref := p.ref + 1;
    }
  }

  lemma {:induction false} SinglesAre(refs: seq<nat>, k: nat)
    requires k <= |refs| && (forall i :: 0 <= i < k ==> refs[i] == 1) && (k < |refs| ==> refs[k] > 1)
    ensures Singles(refs) == k
  {
    if k > 0 {
      SinglesAre(refs[1..], k - 1);
    }
  }

  /** The start of a round of pbuf_free. */
  method DropRef(q: Pbuf) returns (gone: bool)
    requires q.ref >= 1
    modifies q`ref, q`freed
    ensures q.ref == old(q.ref) - 1 && gone == (q.ref == 0) && q.freed == old(q.freed) + if gone then 1 else 0
  {
    q.ref := q.ref - 1;
    gone := q.ref == 0;
    if gone {
      q.freed := q.freed + 1;
    }
  }

  /** pbuf_free: each pbuf it deallocates is deallocated once.  The number of them is returned in eight bits. */
  method PbufFree(p: Pbuf, ghost ps: seq<Pbuf>, ghost refs: seq<nat>) returns (count: nat)
    requires Linked(p, ps) && |refs| == |ps| && forall i :: 0 <= i < |ps| ==> ps[i].ref == refs[i] >= 1
    modifies (set x | x in ps)`ref, (set x | x in ps)`freed
    ensures forall i :: 0 <= i < |ps| ==> ps[i].ref == FreedRefs(refs)[i]
    ensures forall i :: 0 <= i < |ps| ==> ps[i].freed == old(ps[i].freed) + if i < Singles(refs) then 1 else 0
    ensures count == Singles(refs) % 256
  {
    hide Singles, FreedRefs, Distinct;
    ghost var k: nat := 0;
    count := 0;
    var q: Pbuf? := p;
    while q != null
      invariant k <= |ps| && q == At(ps, k)
      invariant forall i :: 0 <= i < k ==> refs[i] == 1 && ps[i].ref == 0 && ps[i].freed == old(ps[i].freed) + 1
      invariant forall i :: k <= i < |ps| ==> ps[i].ref == refs[i] && ps[i].freed == old(ps[i].freed)
      invariant count == k % 256
      decreases |ps| - k
    {
      OnlyOne(ps, k);
      assert q == ps[k] && q.next == At(ps, k + 1) && q in ps;
      var gone := DropRef(q);
      if !gone {
        break;
      }
      count := (count + 1) % 256;
      q := q.next;
      k := k + 1;
    }
    SinglesAre(refs, k);
    forall i | 0 <= i < |ps|
      ensures ps[i].ref == FreedRefs(refs)[i]
    {
      FreedRefsAt(refs, i);
    }
  }

  lemma FreedHead(refs: seq<nat>)
    requires refs != [] && refs[0] >= 1 && (|refs| > 1 ==> refs[1] >= 2)
    ensures Singles(refs) == if refs[0] > 1 then 0 else 1
    ensures FreedRefs(refs)[0] == refs[0] - 1
    ensures forall i :: 1 <= i < |refs| ==>
              FreedRefs(refs)[i] == if i == 1 && refs[0] == 1 then refs[1] - 1 else refs[i]
  {
    var t := refs[1..];
    if refs[0] > 1 {
      assert FreedRefs(refs) == [refs[0] - 1] + t;
    } else {
      assert FreedRefs(refs) == [0] + FreedRefs(t);
      assert t != [] ==> FreedRefs(t) == [t[0] - 1] + t[1..];
      assert t == [] ==> FreedRefs(t) == [];
    }
  }

  /** The do-while around pbuf_free in tcp_server_deal: the first pbuf is deallocated once, however many references
      there are to it; the next one, if it has another reference, loses one and stays. */
  method FreeUntilGone(ptr: Pbuf, ghost ps: seq<Pbuf>, ghost refs: seq<nat>)
    requires Linked(ptr, ps) && |refs| == |ps| && forall i :: 0 <= i < |ps| ==> ps[i].ref == refs[i] >= 1
    requires ps != [] && (|ps| > 1 ==> refs[1] >= 2)
    modifies (set x | x in ps)`ref, (set x | x in ps)`freed
    ensures ptr.ref == 0 && ptr.freed == old(ptr.freed) + 1
    ensures forall i :: 1 <= i < |ps| ==> ps[i].freed == old(ps[i].freed)
    ensures forall i :: 1 <= i < |ps| ==> ps[i].ref == refs[i] - if i == 1 then 1 else 0
  {
    hide Singles, FreedRefs, Distinct;
    var freed := 0;
    ghost var now := refs;
    while freed == 0
      invariant |now| == |ps| && now[1..] == refs[1..] && (freed == 0 ==> now[0] >= 1)
      invariant freed == 0 ==> forall i :: 0 <= i < |ps| ==> ps[i].ref == now[i] && ps[i].freed == old(ps[i].freed)
      invariant freed != 0 ==> ptr.ref == 0 && ptr.freed == old(ptr.freed) + 1
      invariant freed != 0 ==> forall i :: 1 <= i < |ps| ==> ps[i].freed == old(ps[i].freed)
      invariant freed != 0 ==> forall i :: 1 <= i < |ps| ==> ps[i].ref == refs[i] - if i == 1 then 1 else 0
      decreases if freed == 0 then now[0] else 0
    {
      assert forall i :: 1 <= i < |ps| ==> now[i] == now[1..][i - 1] == refs[1..][i - 1] == refs[i];
      FreedHead(now);
      freed := PbufFree(ptr, ps, now);
      if freed == 0 {
        now := now[0 := now[0] - 1];
      }
    }
  }

  function RefsOf(pbs: seq<Pb>): (r: seq<nat>)
    ensures |r| == |pbs| && forall i :: 0 <= i < |pbs| ==> r[i] == pbs[i].ref
  {
    if pbs == [] then [] else [pbs[0].ref] + RefsOf(pbs[1..])
  }

  lemma OnlyLater(ps: seq<Pbuf>)
    requires Distinct(ps) && ps != []
    ensures Distinct(ps[1..])
  {
  }

  /** tot_len of every pbuf is the 16-bit length of the chain from it on. */
  ghost predicate Totals(ps: seq<Pbuf>, pbs: seq<Pb>)
    reads ps
  {
    |pbs| == |ps| && forall i {:trigger ps[i].totLen} :: 0 <= i < |ps| ==> ps[i].totLen == |Bytes(pbs[i..])| % U16
  }

  lemma DistinctJoined(hs: seq<Pbuf>, ts: seq<Pbuf>)
    requires Distinct(hs) && Distinct(ts) && forall i, j :: 0 <= i < |hs| && 0 <= j < |ts| ==> hs[i] != ts[j]
    ensures Distinct(hs + ts)
  {
  }

  lemma LinkedJoined(h: Pbuf, t: Pbuf, hs: seq<Pbuf>, ts: seq<Pbuf>)
    requires hs != [] && hs[0] == h && Distinct(hs) && Linked(t, ts) && ts != []
    requires forall i {:trigger hs[i].next} :: 0 <= i < |hs| - 1 ==> hs[i].next == At(hs, i + 1)
    requires hs[|hs| - 1].next == t
    requires forall i, j :: 0 <= i < |hs| && 0 <= j < |ts| ==> hs[i] != ts[j]
    ensures Linked(h, hs + ts)
  {
    hide Distinct;
    ghost var all := hs + ts;
    DistinctJoined(hs, ts);
    forall i | 0 <= i < |all|
      ensures all[i].next == At(all, i + 1)
    {
      if i < |hs| {
        assert all[i] == hs[i] && (i < |hs| - 1 ==> hs[i].next == At(hs, i + 1));
      } else {
        assert all[i] == ts[i - |hs|] && ts[i - |hs|].next == At(ts, i - |hs| + 1);
      }
    }
  }

  method AddTotal(p: Pbuf, t: Pbuf)
    modifies p`totLen
    ensures p.totLen == (old(p.totLen) + old(t.totLen)) % U16
  {
    p.totLen := (p.totLen + t.totLen) % U16;
  }

  /** pbuf_cat: the last pbuf of the first chain comes to point to the second chain, and the second chain's length is
      added to all lengths of the first. */
  method PbufCat(h: Pbuf, t: Pbuf, ghost hs: seq<Pbuf>, ghost ts: seq<Pbuf>)
    requires Linked(h, hs) && Linked(t, ts) && forall i, j :: 0 <= i < |hs| && 0 <= j < |ts| ==> hs[i] != ts[j]
    modifies (set x | x in hs)`next, (set x | x in hs)`totLen
    ensures Linked(h, hs + ts)
    ensures forall i {:trigger hs[i].totLen} :: 0 <= i < |hs| ==> hs[i].totLen == (old(hs[i].totLen) + t.totLen) % U16
  {
    hide Distinct;
    var p := h;
    ghost var k: nat := 0;
    while p.next != null
      invariant k < |hs| && p == hs[k]
      invariant forall i {:trigger hs[i].next} :: 0 <= i < |hs| ==> hs[i].next == At(hs, i + 1)
      invariant forall i {:trigger hs[i].totLen} :: 0 <= i < k ==> hs[i].totLen == (old(hs[i].totLen) + t.totLen) % U16
      invariant forall i {:trigger hs[i].totLen} :: k <= i < |hs| ==> hs[i].totLen == old(hs[i].totLen)
      decreases |hs| - k
    {
      OnlyOne(hs, k);
      assert hs[k].next == At(hs, k + 1);
      AddTotal(p, t);
      p := p.next;
      k := k + 1;
    }
    OnlyOne(hs, k);
    assert hs[k].next == At(hs, k + 1);
    AddTotal(p, t);
    p.next := t;
    LinkedJoined(h, t, hs, ts);
  }

  lemma TotalStep(x: nat, y: nat)
    ensures (x % U16 + y % U16) % U16 == (x + y) % U16
  {
  }

  /** The length of a concatenation, from any pbuf of the first chain on. */
  lemma TotalAt(a: seq<Pb>, b: seq<Pb>, i: nat)
    requires i <= |a| && b != []
    ensures |Bytes(Chained(a, b)[i..])| % U16 == (|Bytes(a[i..])| % U16 + |Bytes(b)| % U16) % U16
  {
    assert Chained(a, b)[i..] == Chained(a[i..], b);
    ChainedBytes(a[i..], b);
    TotalStep(|Bytes(a[i..])|, |Bytes(b)|);
  }

  method PbufChain(h: Pbuf, t: Pbuf, ghost hs: seq<Pbuf>, ghost ts: seq<Pbuf>, ghost a: seq<Pb>, ghost b: seq<Pb>)
    requires Chain(h, hs, a) && Chain(t, ts, b) && forall i, j :: 0 <= i < |hs| && 0 <= j < |ts| ==> hs[i] != ts[j]
    requires Totals(hs, a) && Totals(ts, b)
    modifies (set x | x in hs)`next, (set x | x in hs)`totLen, t`ref
    ensures Chain(h, hs + ts, Chained(a, b)) && Totals(hs + ts, Chained(a, b))
  {
    hide Bytes, Distinct;
    assert t.totLen == |Bytes(b)| % U16 by {
      assert ts[0].totLen == |Bytes(b[0..])| % U16 && b[0..] == b;
    }
    assert forall i :: 0 <= i < |hs| ==> hs[i].totLen == |Bytes(a[i..])| % U16;
    PbufCat(h, t, hs, ts);
    OnlyOne(ts, 0);
    PbufRef(t);
    ghost var all, pbs := hs + ts, Chained(a, b);
    forall i | 0 <= i < |all|
      ensures pbs[i] == Pb(all[i].payload, all[i].ref) && all[i].ref >= 1
      ensures all[i].totLen == |Bytes(pbs[i..])| % U16
    {
      if i < |hs| {
        assert pbs[i] == a[i] && all[i] == hs[i];
        TotalAt(a, b, i);
      } else {
        var k := i - |hs|;
        assert all[i] == ts[k] && pbs[i] == if k == 0 then b[0].(ref := b[0].ref + 1) else b[k];
        assert ts[k].totLen == |Bytes(b[k..])| % U16;
        SameBytes(pbs[i..], b[k..]);
      }
    }
  }

  lemma ChainLater(ps: seq<Pbuf>, pbs: seq<Pb>)
    requires ps != [] && |pbs| == |ps| && Distinct(ps)
    requires forall i {:trigger ps[i].next} :: 0 <= i < |ps| ==> ps[i].next == At(ps, i + 1)
    requires forall i :: 1 <= i < |ps| ==> pbs[i] == Pb(ps[i].payload, ps[i].ref) && ps[i].ref >= 1
    ensures Chain(At(ps, 1), ps[1..], pbs[1..])
  {
    hide Distinct;
    OnlyLater(ps);
    ghost var later := ps[1..];
    forall i | 0 <= i < |later|
      ensures pbs[1..][i] == Pb(later[i].payload, later[i].ref) && later[i].ref >= 1
      ensures later[i].next == At(later, i + 1)
    {
      assert later[i] == ps[i + 1] && ps[i + 1].next == At(ps, i + 2);
    }
  }

  lemma TotalsLater(ps: seq<Pbuf>, pbs: seq<Pb>)
    requires ps != [] && Totals(ps, pbs)
    ensures Totals(ps[1..], pbs[1..])
  {
    hide Bytes;
    ghost var later := ps[1..];
    forall i | 0 <= i < |later|
      ensures later[i].totLen == |Bytes(pbs[1..][i..])| % U16
    {
      assert later[i] == ps[i + 1] && pbs[1..][i..] == pbs[i + 1..];
      assert ps[i + 1].totLen == |Bytes(pbs[i + 1..])| % U16;
    }
  }

  /** The end of a turn of the loop in tcp_server_deal: the first pbuf is deallocated, once, and the rest of the chain
      keeps its counts. */
  method FreeFirst(ptr: Pbuf, ghost ps: seq<Pbuf>, ghost pbs: seq<Pb>) returns (rest: Pbuf?)
    requires Chain(ptr, ps, pbs) && Totals(ps, pbs)
    modifies (set x | x in ps)`ref, (set x | x in ps)`freed
    ensures Chain(rest, ps[1..], pbs[1..]) && Totals(ps[1..], pbs[1..])
    ensures ptr.freed == old(ptr.freed) + 1 && forall i :: 1 <= i < |ps| ==> ps[i].freed == old(ps[i].freed)
  {
    hide Distinct, Bytes;
    ghost var refs := RefsOf(pbs);
    rest := ptr.next;
    assert ps[0].next == At(ps, 1);
    if rest != null {
      OnlyOne(ps, 1);
      PbufRef(rest);
      refs := refs[1 := refs[1] + 1];
    }
    FreeUntilGone(ptr, ps, refs);
    ChainLater(ps, pbs);
    TotalsLater(ps, pbs);
  }
}

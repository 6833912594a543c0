/** lwip_recvfrom (Utilities/lwip-1.3.1/src/api/sockets.c:474-626) over netconn_recv and pbuf_copy_partial: what the
    reader gets, call after call, of the data posted to the receive mailbox. */
module RecvStream {
  import opened Bits
  import SelectProtocol

  const U16 := 65536

  /** A received packet: a pbuf chain, and the PUSH flag of its first pbuf. */
  datatype Netbuf = Netbuf(chain: seq<seq<byte>>, push: bool)

  /** What TCP posts to recvmbox; Gone is the NULL it posts when the connection has ended. */
  datatype Mail = Data(buf: Netbuf) | Gone

  /** struct lwip_socket as a reader sees it.  mail holds everything that will ever be posted and is not fetched yet. */
  datatype Sock = Sock(tcp: bool, lastdata: Option<Netbuf>, lastoffset: nat, mail: seq<Mail>)

  /** One round of the loop as the rest of the system decides it: rcvevent at its first use, whether
      netconn_recv gets as far as the mailbox, and rcvevent at its second use. */
  datatype Tick = Tick(ready: int, recvOk: bool, more: int)

  datatype Errno = NoError | WouldBlock | RecvError

  /** Blocked: the call waits for the empty mailbox.  Running: the rounds given do not reach its end. */
  datatype Reply = Returned(n: int, errno: Errno) | Blocked | Running

  /** The payload of everything still to be fetched. */
  function Posted(mail: seq<Mail>): seq<byte>
  {
    if mail == [] then []
    else (if mail[0].Data? then Joined(mail[0].buf.chain) else []) + Posted(mail[1..])
  }

  predicate Valid(s: Sock)
  {
    (s.lastdata.None? ==> s.lastoffset == 0) &&
    (s.lastdata.Some? ==> s.lastoffset <= |Joined(s.lastdata.value.chain)|)
  }

  /** The unread remainder: the rest of the saved buffer, then what is posted. */
  function Remaining(s: Sock): seq<byte>
    requires Valid(s)
  {
    (if s.lastdata.Some? then Joined(s.lastdata.value.chain)[s.lastoffset..] else []) + Posted(s.mail)
  }

  predicate Done(s: Sock, buf: Netbuf, left: nat, more: int, peek: bool)
  {
    !s.tcp || left == 0 || buf.push || more <= 0 || peek
  }

  /** The socket after k bytes of its saved buffer have been handed out. */
  function Consumed(s: Sock, k: nat, peek: bool): (r: Sock)
    requires Valid(s) && s.lastdata.Some? && k <= |Joined(s.lastdata.value.chain)| - s.lastoffset
    ensures Valid(r) && r.mail == s.mail && r.tcp == s.tcp
  {
    if peek then s
    else if s.tcp && k < |Joined(s.lastdata.value.chain)| - s.lastoffset then s.(lastoffset := s.lastoffset + k)
    else s.(lastdata := None, lastoffset := 0)
  }

  /** The next round needs a packet: the socket with one in lastdata, or the way the call ends without. */
  datatype Fetch = Got(s: Sock) | Ended(s: Sock, reply: Reply)

  function Fetched(s: Sock, dontwait: bool, t: Tick, off: nat): (f: Fetch)
    requires Valid(s)
    ensures Valid(f.s) && f.s.tcp == s.tcp && (f.Got? ==> f.s.lastdata.Some?)
  {
    if s.lastdata.Some? then Got(s)
    else if dontwait && t.ready <= 0 then
      Ended(s, if off > 0 then Returned(off, NoError) else Returned(-1, WouldBlock))
    else if !t.recvOk then Ended(s, Returned(off, if off > 0 then NoError else RecvError))
    else if s.mail == [] then Ended(s, Blocked)
    else if s.mail[0].Gone? then
      Ended(s.(mail := s.mail[1..]), Returned(off, if off > 0 then NoError else RecvError))
    else Got(s.(lastdata := Some(s.mail[0].buf), mail := s.mail[1..]))
  }

  /** How a round ends: the call is over (or blocked), or left more bytes are wanted. */
  datatype Round = Stop(s: Sock, reply: Reply, got: seq<byte>) | Next(s: Sock, left: nat, got: seq<byte>)

  /** One round of the loop, given what has been taken so far.  The count the code keeps is a 16-bit variable. */
  function RoundOf(s: Sock, len: nat, peek: bool, dontwait: bool, t: Tick, taken: seq<byte>): (r: Round)
    requires Valid(s)
    ensures Valid(r.s) && r.s.tcp == s.tcp
  {
    match Fetched(s, dontwait, t, |taken| % U16)
    case Ended(s', reply) => Stop(s', reply, taken)
    case Got(s1) =>
      var data := Joined(s1.lastdata.value.chain)[s1.lastoffset..];
      var k := Min(len, |data|);
      var got := taken + data[..k];
      var s2 := Consumed(s1, k, peek);
      if Done(s, s1.lastdata.value, len - k, t.more, peek) then Stop(s2, Returned(|got| % U16, NoError), got)
      else Next(s2, len - k, got)
  }

  /** A whole call: the new state, the reply, and all bytes handed out. */
  function Receive(s: Sock, len: nat, peek: bool, dontwait: bool, env: seq<Tick>, taken: seq<byte>)
    : (r: (Sock, Reply, seq<byte>))
    requires Valid(s)
    ensures Valid(r.0) && r.0.tcp == s.tcp
    decreases |env|
  {
    if env == [] then (s, Running, taken)
    else
      match RoundOf(s, len, peek, dontwait, env[0], taken)
      case Stop(s', reply, got) => (s', reply, got)
      case Next(s', left, got) => Receive(s', left, peek, dontwait, env[1..], got)
  }

  lemma FetchKeeps(s: Sock, dontwait: bool, t: Tick, off: nat)
    requires Valid(s)
    ensures Remaining(Fetched(s, dontwait, t, off).s) == Remaining(s)
  {
  }

  lemma ConsumedSplits(s: Sock, k: nat)
    requires Valid(s) && s.tcp && s.lastdata.Some? && k <= |Joined(s.lastdata.value.chain)| - s.lastoffset
    ensures Remaining(s) == Joined(s.lastdata.value.chain)[s.lastoffset..][..k] + Remaining(Consumed(s, k, false))
  {
  }

  lemma RoundSplits(s: Sock, len: nat, dontwait: bool, t: Tick, taken: seq<byte>)
    requires Valid(s) && s.tcp
    ensures var r := RoundOf(s, len, false, dontwait, t, taken);
            taken + Remaining(s) == r.got + Remaining(r.s)
  {
    hide Joined, Posted, Remaining, Fetched, Consumed, Done;
    var f := Fetched(s, dontwait, t, |taken| % U16);
    FetchKeeps(s, dontwait, t, |taken| % U16);
    if f.Got? {
      var data := Joined(f.s.lastdata.value.chain)[f.s.lastoffset..];
      var k := Min(len, |data|);
      ConsumedSplits(f.s, k);
      assert (taken + data[..k]) + Remaining(Consumed(f.s, k, false)) == taken + Remaining(s);
    }
  }

  /** A read on a TCP socket splits the remainder exactly: the bytes handed out, then the new remainder. */
  lemma {:induction false} ReadSplits(s: Sock, len: nat, dontwait: bool, env: seq<Tick>, taken: seq<byte>)
    requires Valid(s) && s.tcp
    ensures var (s', _, got) := Receive(s, len, false, dontwait, env, taken);
            taken + Remaining(s) == got + Remaining(s')
    decreases |env|
  {
    hide Remaining, RoundOf;
    if env != [] {
      var r := RoundOf(s, len, false, dontwait, env[0], taken);
      RoundSplits(s, len, dontwait, env[0], taken);
      if r.Next? {
        ReadSplits(r.s, r.left, dontwait, env[1..], r.got);
      }
    }
  }

  /** A peek hands out a prefix of the remainder, of one packet at most, and leaves the remainder as it is. */
  lemma PeekConsumesNothing(s: Sock, len: nat, dontwait: bool, env: seq<Tick>)
    requires Valid(s)
    ensures var (s', _, got) := Receive(s, len, true, dontwait, env, []);
            Remaining(s') == Remaining(s) && got <= Remaining(s) && |got| <= len
  {
    hide Joined, Posted, Fetched;
    if env != [] {
      var f := Fetched(s, dontwait, env[0], 0);
      FetchKeeps(s, dontwait, env[0], 0);
      if f.Got? {
        var data := Joined(f.s.lastdata.value.chain)[f.s.lastoffset..];
        assert Receive(s, len, true, dontwait, env, []).2 == data[..Min(len, |data|)];
      }
    }
  }

  /** The value returned is the number of bytes handed out in 16 bits, or -1 for a non-blocking call. */
  ghost predicate Counted(reply: Reply, got: seq<byte>, dontwait: bool)
  {
    reply.Returned? ==>
      if reply.n == -1 then reply.errno == WouldBlock && |got| % U16 == 0 && dontwait else reply.n == |got| % U16
  }

  lemma RoundCounts(s: Sock, len: nat, peek: bool, dontwait: bool, t: Tick, taken: seq<byte>)
    requires Valid(s)
    ensures var r := RoundOf(s, len, peek, dontwait, t, taken);
            |taken| <= |r.got| <= |taken| + len && (r.Next? ==> |r.got| + r.left == |taken| + len) &&
            (r.Stop? ==> Counted(r.reply, r.got, dontwait))
  {
  }

  lemma {:induction false} CallCounts(s: Sock, len: nat, peek: bool, dontwait: bool, env: seq<Tick>, taken: seq<byte>)
    requires Valid(s)
    ensures var (_, reply, got) := Receive(s, len, peek, dontwait, env, taken);
            |taken| <= |got| <= |taken| + len && Counted(reply, got, dontwait)
    decreases |env|
  {
    hide RoundOf;
    if env != [] {
      var r := RoundOf(s, len, peek, dontwait, env[0], taken);
      RoundCounts(s, len, peek, dontwait, env[0], taken);
      if r.Next? {
        CallCounts(r.s, r.left, peek, dontwait, env[1..], r.got);
      }
    }
  }

  /** A call that has returned says how many bytes it handed out; -1 means none. */
  ghost predicate Truthful(r: (Sock, Reply, seq<byte>))
  {
    r.1.Returned? ==> r.1.n == |r.2| || (r.1.n == -1 && r.1.errno == WouldBlock && r.2 == [])
  }

  /** For a buffer of 65536 bytes or more the 16-bit count can wrap: after two packets of 32768 bytes the caller is
      told 0. */
  lemma CountCanWrap(len: nat, x: byte) returns (s: Sock, env: seq<Tick>)
    requires len >= 65536
    ensures Valid(s) && s.tcp && Receive(s, len, false, false, env, []).1 == Returned(0, NoError)
    ensures |Receive(s, len, false, false, env, []).2| == 65536
  {
    hide Posted;
    var half := seq(32768, _ => x);
    var buf := Netbuf([half], false);
    env := [Tick(1, true, 1), Tick(1, true, 0)];
    s := Sock(true, None, 0, [Data(buf), Data(buf)]);
    assert Joined(buf.chain) == half;
    var s1 := Sock(true, None, 0, [Data(buf)]);
    assert s.mail[1..] == s1.mail;
    assert half[0..] == half && half[..32768] == half;
    assert Receive(s, len, false, false, env, []) == Receive(s1, len - 32768, false, false, env[1..], [] + half);
    assert Receive(s1, len - 32768, false, false, env[1..], half).2 == half + half;
    assert [] + half == half;
  }

  /** The length passed decides: below 65536 every call tells the truth, whatever its flags, the socket, the data and
      the timing; from 65536 on some blocking TCP read does not. */
  lemma CountIsExact(len: nat)
    ensures len < 65536 ==> forall s: Sock, peek: bool, dontwait: bool, env: seq<Tick> ::
              Valid(s) ==> Truthful(Receive(s, len, peek, dontwait, env, []))
    ensures len < 65536 <==> forall s: Sock, env: seq<Tick> ::
              Valid(s) && s.tcp ==> Truthful(Receive(s, len, false, false, env, []))
  {
    hide Receive;
    if len < U16 {
      forall s: Sock, peek: bool, dontwait: bool, env: seq<Tick> | Valid(s)
        ensures Truthful(Receive(s, len, peek, dontwait, env, []))
      {
        CallCounts(s, len, peek, dontwait, env, []);
      }
    } else {
      var s, env := CountCanWrap(len, 0);
      assert !Truthful(Receive(s, len, false, false, env, []));
    }
  }

  // ----- any number of calls -----

  datatype Call = Call(len: nat, peek: bool, dontwait: bool, env: seq<Tick>)

  function After(s: Sock, c: Call): (r: (Sock, Reply, seq<byte>))
    requires Valid(s)
    ensures Valid(r.0) && r.0.tcp == s.tcp
  {
    Receive(s, c.len, c.peek, c.dontwait, c.env, [])
  }

  function AfterAll(s: Sock, calls: seq<Call>): (r: Sock)
    requires Valid(s)
    ensures Valid(r)
    decreases |calls|
  {
    if calls == [] then s else AfterAll(After(s, calls[0]).0, calls[1..])
  }

  /** What the calls that do not peek hand out, one after the other. */
  function Read(s: Sock, calls: seq<Call>): seq<byte>
    requires Valid(s)
    decreases |calls|
  {
    if calls == [] then []
    else (if calls[0].peek then [] else After(s, calls[0]).2) + Read(After(s, calls[0]).0, calls[1..])
  }

  /** TCP reads deliver the exact stream: over any calls, with any lengths, flags and timing, what has been read
      followed by what remains is what there was to read. */
  lemma {:induction false} ReadsDeliverTheStream(s: Sock, calls: seq<Call>)
    requires Valid(s) && s.tcp
    ensures Read(s, calls) + Remaining(AfterAll(s, calls)) == Remaining(s)
    decreases |calls|
  {
    hide Remaining, Receive;
    if calls != [] {
      var c := calls[0];
      var (s1, _, got) := After(s, c);
      if c.peek {
        PeekConsumesNothing(s, c.len, c.dontwait, c.env);
      } else {
        ReadSplits(s, c.len, c.dontwait, c.env, []);
        assert [] + Remaining(s) == Remaining(s);
      }
      ReadsDeliverTheStream(s1, calls[1..]);
      var rest := Read(s1, calls[1..]);
      assert (got + rest) + Remaining(AfterAll(s, calls)) == got + (rest + Remaining(AfterAll(s, calls)));
      assert [] + rest == rest;
    }
  }

  /** What a peek shows is what the next read starts with. */
  lemma PeekedIsReadNext(s: Sock, p: Call, r: Call)
    requires Valid(s) && s.tcp && p.peek && !r.peek
    ensures var (s1, _, seen) := After(s, p);
            var (_, _, got) := After(s1, r);
            if |seen| <= |got| then seen <= got else got <= seen
  {
    hide Remaining, Receive;
    var (s1, _, seen) := After(s, p);
    var (s2, _, got) := After(s1, r);
    PeekConsumesNothing(s, p.len, p.dontwait, p.env);
    ReadSplits(s1, r.len, r.dontwait, r.env, []);
    assert [] + Remaining(s1) == Remaining(s1);
    assert got == Remaining(s1)[..|got|] && seen == Remaining(s1)[..|seen|];
  }

  // ----- when a call ends, and with what -----

  lemma JoinedOne(d: seq<byte>)
    ensures Joined([d]) == d
  {
    assert Joined([d]) == d + Joined([]);
  }

  /** Everything a reader can still get, packet by packet: what is left of the saved buffer counts as one. */
  function Queue(s: Sock): (q: seq<Mail>)
    requires Valid(s)
    ensures |q| == |s.mail| + (if s.lastdata.Some? then 1 else 0)
  {
    (if s.lastdata.Some?
     then [Data(Netbuf([Joined(s.lastdata.value.chain)[s.lastoffset..]], s.lastdata.value.push))] else []) + s.mail
  }

  /** netconn_recv is called and gets as far as the mailbox. */
  predicate Fetches(dontwait: bool, t: Tick)
  {
    t.recvOk && (dontwait ==> t.ready > 0)
  }

  /** The rest of a packet of which k bytes have been taken. */
  function Rest(d: seq<byte>, k: nat, push: bool): seq<Mail>
    requires k <= |d|
  {
    if k < |d| then [Data(Netbuf([d[k..]], push))] else []
  }

  lemma RestOfPiece(d: seq<byte>, o: nat, k: nat)
    requires o + k <= |d|
    ensures d[o..][k..] == d[o + k..]
  {
  }

  lemma FirstPiece(s: Sock, dontwait: bool, t: Tick, off: nat)
    requires Valid(s) && Queue(s) != [] && Queue(s)[0].Data? && (s.lastdata.None? ==> Fetches(dontwait, t))
    ensures var f := Fetched(s, dontwait, t, off);
            f.Got? && Joined(Queue(s)[0].buf.chain) == Joined(f.s.lastdata.value.chain)[f.s.lastoffset..] &&
            Queue(s)[0].buf.push == f.s.lastdata.value.push && f.s.mail == Queue(s)[1..]
  {
    hide Joined;
    if s.lastdata.Some? {
      JoinedOne(Joined(s.lastdata.value.chain)[s.lastoffset..]);
    }
  }

  lemma ConsumedLeaves(s: Sock, k: nat)
    requires Valid(s) && s.tcp && s.lastdata.Some? && k <= |Joined(s.lastdata.value.chain)| - s.lastoffset
    ensures var d := Joined(s.lastdata.value.chain)[s.lastoffset..];
            var s' := Consumed(s, k, false);
            Queue(s') == Rest(d, k, s.lastdata.value.push) + s.mail && (k == |d| ==> s'.lastdata.None?)
  {
    hide Joined;
    RestOfPiece(Joined(s.lastdata.value.chain), s.lastoffset, k);
  }

  /** A TCP round takes from the first packet what fits.  It is the last one exactly when that was all that was asked
      for, the packet had PUSH, or no more is announced. */
  lemma TcpRound(s: Sock, len: nat, dontwait: bool, t: Tick, taken: seq<byte>)
    requires Valid(s) && s.tcp && Queue(s) != [] && Queue(s)[0].Data?
    requires s.lastdata.None? ==> Fetches(dontwait, t)
    ensures var (p, r) := (Queue(s)[0].buf, RoundOf(s, len, false, dontwait, t, taken));
            var d := Joined(p.chain);
            var k := Min(len, |d|);
            r.got == taken + d[..k] && Queue(r.s) == Rest(d, k, p.push) + Queue(s)[1..] &&
            (r.Stop? <==> len <= |d| || p.push || t.more <= 0) &&
            (r.Stop? ==> r.reply == Returned(|r.got| % U16, NoError)) &&
            (r.Next? ==> r.s.lastdata.None? && r.left == len - |d| && r.got == taken + d)
  {
    hide Joined, Fetched, Consumed, Queue;
    var off := |taken| % U16;
    FirstPiece(s, dontwait, t, off);
    var f := Fetched(s, dontwait, t, off);
    var d := Joined(f.s.lastdata.value.chain)[f.s.lastoffset..];
    var k := Min(len, |d|);
    ConsumedLeaves(f.s, k);
    assert d[..|d|] == d;
  }

  /** A round that finds nothing saved and may not fetch, or fetches nothing: it never is followed by another. */
  lemma LastRound(s: Sock, len: nat, peek: bool, dontwait: bool, t: Tick, taken: seq<byte>)
    requires Valid(s) && s.lastdata.None?
    requires Fetches(dontwait, t) ==> s.mail == [] || s.mail[0].Gone?
    ensures var off := |taken| % U16;
            RoundOf(s, len, peek, dontwait, t, taken) ==
            if dontwait && t.ready <= 0 then
              Stop(s, if off > 0 then Returned(off, NoError) else Returned(-1, WouldBlock), taken)
            else if t.recvOk && s.mail == [] then Stop(s, Blocked, taken)
            else Stop(s.(mail := if t.recvOk then s.mail[1..] else s.mail),
                      if off > 0 then Returned(off, NoError) else Returned(0, RecvError), taken)
  {
  }

  /** The first n rounds of a read each empty one packet and ask for more. */
  ghost predicate Unfinished(s: Sock, len: nat, dontwait: bool, env: seq<Tick>, n: nat)
    requires Valid(s)
  {
    n <= |env| && n <= |Queue(s)| &&
    (forall j :: 0 <= j < n && (j > 0 || s.lastdata.None?) ==> Fetches(dontwait, env[j])) &&
    forall j :: 0 <= j < n ==>
      Queue(s)[j].Data? && |Posted(Queue(s)[..j + 1])| < len && !Queue(s)[j].buf.push && env[j].more > 0
  }

  lemma PostedFirst(q: seq<Mail>, n: nat)
    requires 0 < n <= |q| && q[0].Data?
    ensures Posted(q[..n]) == Joined(q[0].buf.chain) + Posted(q[1..][..n - 1])
  {
    assert q[..n][1..] == q[1..][..n - 1];
  }

  lemma UnfinishedRest(s: Sock, s1: Sock, len: nat, dontwait: bool, env: seq<Tick>, n: nat)
    requires Valid(s) && 0 < n && Unfinished(s, len, dontwait, env, n)
    requires Valid(s1) && s1.lastdata.None? && Queue(s1) == Queue(s)[1..]
    ensures |Joined(Queue(s)[0].buf.chain)| < len
    ensures Unfinished(s1, len - |Joined(Queue(s)[0].buf.chain)|, dontwait, env[1..], n - 1)
  {
    hide Joined, Posted, Queue, Valid;
    var q := Queue(s);
    PostedFirst(q, 1);
    forall j | 0 <= j < n - 1
      ensures q[1..][j] == q[j + 1] && |Posted(q[..j + 2])| == |Joined(q[0].buf.chain)| + |Posted(q[1..][..j + 1])|
    {
      PostedFirst(q, j + 2);
    }
  }

  lemma OneGathered(s: Sock, len: nat, dontwait: bool, env: seq<Tick>, taken: seq<byte>, n: nat)
    returns (s1: Sock, d: seq<byte>)
    requires Valid(s) && s.tcp && 0 < n && Unfinished(s, len, dontwait, env, n)
    ensures Valid(s1) && s1.tcp && s1.lastdata.None? && Queue(s1) == Queue(s)[1..] && |d| < len
    ensures Unfinished(s1, len - |d|, dontwait, env[1..], n - 1) && d == Joined(Queue(s)[0].buf.chain)
    ensures Receive(s, len, false, dontwait, env, taken) ==
            Receive(s1, len - |d|, false, dontwait, env[1..], taken + d)
  {
    hide Joined, Posted, Queue, RoundOf, Fetches, Valid;
    var p := Queue(s)[0].buf;
    var r := RoundOf(s, len, false, dontwait, env[0], taken);
    s1, d := r.s, Joined(p.chain);
    PostedFirst(Queue(s), 1);
    PostedNothing(Queue(s)[1..][..0]);
    TcpRound(s, len, dontwait, env[0], taken);
    assert Rest(d, |d|, p.push) + Queue(s)[1..] == Queue(s)[1..];
    UnfinishedRest(s, s1, len, dontwait, env, n);
  }

  lemma TailsMeet<T>(s: seq<T>, n: nat)
    requires 0 < n <= |s|
    ensures s[1..][n - 1..] == s[n..]
  {
  }

  /** After n such rounds the call goes on with the rest of the packets and the rest of the length. */
  lemma {:induction false} GathersOn(s: Sock, len: nat, dontwait: bool, env: seq<Tick>, taken: seq<byte>, n: nat)
    returns (s1: Sock)
    requires Valid(s) && s.tcp && Unfinished(s, len, dontwait, env, n)
    ensures Valid(s1) && s1.tcp && Queue(s1) == Queue(s)[n..]
    ensures if n == 0 then s1 == s else s1.lastdata.None?
    ensures |Posted(Queue(s)[..n])| <= len
    ensures Receive(s, len, false, dontwait, env, taken) ==
            Receive(s1, len - |Posted(Queue(s)[..n])|, false, dontwait, env[n..], taken + Posted(Queue(s)[..n]))
    decreases n
  {
    hide Joined, Posted, Queue, RoundOf, Receive, Fetches, Valid;
    var q := Queue(s);
    if n == 0 {
      s1 := s;
      PostedNothing(q[..0]);
      assert env[0..] == env && q[0..] == q && taken + Posted(q[..0]) == taken;
    } else {
      var s0, d := OneGathered(s, len, dontwait, env, taken, n);
      s1 := GathersOn(s0, len - |d|, dontwait, env[1..], taken + d, n - 1);
      PostedFirst(q, n);
      TailsMeet(env, n);
      TailsMeet(q, n);
      assert (taken + d) + Posted(q[1..][..n - 1]) == taken + Posted(q[..n]);
    }
  }

  lemma PostedNothing(q: seq<Mail>)
    requires q == []
    ensures Posted(q) == []
  {
  }

  /** What a TCP read returns: it gathers packet after packet and ends with the first one that completes the length,
      that carries PUSH, or after which rcvevent is not positive; of that one the rest stays. */
  lemma ReadGathers(s: Sock, len: nat, dontwait: bool, env: seq<Tick>, n: nat)
    requires Valid(s) && s.tcp && Unfinished(s, len, dontwait, env, n) && n < |env| && n < |Queue(s)|
    requires Queue(s)[n].Data? && (n > 0 || s.lastdata.None? ==> Fetches(dontwait, env[n]))
    requires |Posted(Queue(s)[..n])| + |Joined(Queue(s)[n].buf.chain)| >= len || Queue(s)[n].buf.push ||
             env[n].more <= 0
    ensures |Posted(Queue(s)[..n])| <= len
    ensures var (s', reply, got) := Receive(s, len, false, dontwait, env, []);
            var (before, last) := (Posted(Queue(s)[..n]), Queue(s)[n].buf);
            var d := Joined(last.chain);
            var k := Min(len - |before|, |d|);
            got == before + d[..k] && reply == Returned(|got| % U16, NoError) &&
            Queue(s') == Rest(d, k, last.push) + Queue(s)[n + 1..]
  {
    hide Joined, Posted, Queue, RoundOf, Receive, Fetches;
    var q := Queue(s);
    var before := Posted(q[..n]);
    var s1 := GathersOn(s, len, dontwait, env, [], n);
    assert [] + before == before && q[n..][0] == q[n] && q[n..][1..] == q[n + 1..];
    TcpRound(s1, len - |before|, dontwait, env[n], before);
    ReceiveRound(s1, len - |before|, false, dontwait, env, n, before);
  }

  /** When the packets run out first, or may not be fetched, the read returns what it has gathered; with nothing
      gathered it fails, or blocks on the empty mailbox if it may.  (Gathered is what the 16-bit count says.) */
  lemma ReadEndsEarly(s: Sock, len: nat, dontwait: bool, env: seq<Tick>, n: nat)
    requires Valid(s) && s.tcp && Unfinished(s, len, dontwait, env, n) && n < |env|
    requires (n > 0 || s.lastdata.None?) && (Fetches(dontwait, env[n]) ==> n == |Queue(s)| || Queue(s)[n].Gone?)
    ensures var (s', reply, got) := Receive(s, len, false, dontwait, env, []);
            got == Posted(Queue(s)[..n]) &&
            var off := |got| % U16;
            if dontwait && env[n].ready <= 0 then
              Queue(s') == Queue(s)[n..] &&
              reply == if off > 0 then Returned(off, NoError) else Returned(-1, WouldBlock)
            else if env[n].recvOk && n == |Queue(s)| then Queue(s') == [] && reply == Blocked
            else
              Queue(s') == Queue(s)[if env[n].recvOk then n + 1 else n..] &&
              reply == if off > 0 then Returned(off, NoError) else Returned(0, RecvError)
  {
    hide Joined, Posted, RoundOf, Receive;
    var q := Queue(s);
    var before := Posted(q[..n]);
    var s1 := GathersOn(s, len, dontwait, env, [], n);
    assert [] + before == before && s1.mail == q[n..];
    LastRound(s1, len - |before|, false, dontwait, env[n], before);
    ReceiveRound(s1, len - |before|, false, dontwait, env, n, before);
  }

  /** On a datagram socket a read takes one packet: its first bytes are handed out, the rest of it is discarded. */
  lemma DatagramRead(s: Sock, len: nat, dontwait: bool, env: seq<Tick>)
    requires Valid(s) && !s.tcp && env != [] && Queue(s) != [] && Queue(s)[0].Data?
    requires s.lastdata.None? ==> Fetches(dontwait, env[0])
    ensures var (s', reply, got) := Receive(s, len, false, dontwait, env, []);
            var d := Joined(Queue(s)[0].buf.chain);
            got == d[..Min(len, |d|)] && reply == Returned(|got| % U16, NoError) &&
            s' == s.(lastdata := None, lastoffset := 0, mail := Queue(s)[1..])
  {
    hide Joined, Fetched, Queue;
    FirstPiece(s, dontwait, env[0], 0);
    var d := Joined(Queue(s)[0].buf.chain);
    assert [] + d[..Min(len, |d|)] == d[..Min(len, |d|)];
  }

  /** A peek shows the start of one packet, however much more there is, and leaves every packet as it was. */
  lemma PeekShows(s: Sock, len: nat, dontwait: bool, env: seq<Tick>)
    requires Valid(s) && env != [] && Queue(s) != [] && Queue(s)[0].Data?
    requires s.lastdata.None? ==> Fetches(dontwait, env[0])
    ensures var (s', reply, got) := Receive(s, len, true, dontwait, env, []);
            var d := Joined(Queue(s)[0].buf.chain);
            got == d[..Min(len, |d|)] && reply == Returned(|got| % U16, NoError) &&
            Queue(s') == [Data(Netbuf([d], Queue(s)[0].buf.push))] + Queue(s)[1..]
  {
    hide Joined, Fetched, Queue;
    FirstPiece(s, dontwait, env[0], 0);
    var f := Fetched(s, dontwait, env[0], 0).s;
    var d := Joined(f.lastdata.value.chain)[f.lastoffset..];
    assert [] + d[..Min(len, |d|)] == d[..Min(len, |d|)];
    QueueOf(f);
  }

  lemma QueueOf(s: Sock)
    requires Valid(s)
    ensures Queue(s) == if s.lastdata.None? then s.mail else
      [Data(Netbuf([Joined(s.lastdata.value.chain)[s.lastoffset..]], s.lastdata.value.push))] + s.mail
  {
  }

  // ----- blocking -----

  /** Only a round of a TCP read that has used up a packet is followed by another. */
  lemma NextUsesAPacket(s: Sock, len: nat, peek: bool, dontwait: bool, t: Tick, taken: seq<byte>)
    requires Valid(s)
    ensures var r := RoundOf(s, len, peek, dontwait, t, taken);
            (r.Next? ==> |Queue(r.s)| == |Queue(s)| - 1) &&
            (r.Stop? && r.reply == Blocked ==> Queue(s) == [] && Fetches(dontwait, t)) &&
            !(r.Stop? && r.reply == Running)
  {
    hide Joined;
  }

  /** A call is over, or blocked, after at most one round more than there are packets. */
  lemma {:induction false} CallEnds(s: Sock, len: nat, peek: bool, dontwait: bool, env: seq<Tick>, taken: seq<byte>)
    requires Valid(s) && |env| > |Queue(s)|
    ensures Receive(s, len, peek, dontwait, env, taken).1 != Running
    decreases |env|
  {
    hide RoundOf, Queue;
    NextUsesAPacket(s, len, peek, dontwait, env[0], taken);
    var r := RoundOf(s, len, peek, dontwait, env[0], taken);
    if r.Next? {
      CallEnds(r.s, r.left, peek, dontwait, env[1..], r.got);
    }
  }

  /** A non-blocking call never blocks, as long as rcvevent is positive only while something is left to fetch. */
  lemma {:induction false} NonBlockingReturns(s: Sock, len: nat, peek: bool, env: seq<Tick>, taken: seq<byte>)
    requires Valid(s) && |env| > |Queue(s)| && forall k :: 0 <= k < |env| && env[k].ready > 0 ==> k < |Queue(s)|
    ensures Receive(s, len, peek, true, env, taken).1.Returned?
    decreases |env|
  {
    hide RoundOf, Queue;
    CallEnds(s, len, peek, true, env, taken);
    NextUsesAPacket(s, len, peek, true, env[0], taken);
    var r := RoundOf(s, len, peek, true, env[0], taken);
    if r.Next? {
      NonBlockingReturns(r.s, r.left, peek, env[1..], r.got);
    }
  }

  /** EWOULDBLOCK: with nothing saved and rcvevent not positive a non-blocking call answers it at once, hands out
      nothing and changes nothing. */
  lemma WouldBlockAtOnce(s: Sock, len: nat, peek: bool, env: seq<Tick>)
    requires Valid(s) && env != [] && s.lastdata.None? && env[0].ready <= 0
    ensures Receive(s, len, peek, true, env, []) == (s, Returned(-1, WouldBlock), [])
  {
    LastRound(s, len, peek, true, env[0], []);
  }

  /** And only then, if packets are not empty and the length is below 65536, so that after the first round there is a
      count to return. */
  lemma WouldBlockExactly(s: Sock, len: nat, peek: bool, dontwait: bool, env: seq<Tick>)
    requires Valid(s) && env != [] && len < U16
    requires forall k :: 0 <= k < |Queue(s)| && Queue(s)[k].Data? ==> Joined(Queue(s)[k].buf.chain) != []
    ensures Receive(s, len, peek, dontwait, env, []).1 == Returned(-1, WouldBlock) <==>
            dontwait && s.lastdata.None? && env[0].ready <= 0
  {
    hide Joined, Posted, Fetched, Consumed, Queue;
    QueueOf(s);
    var r := RoundOf(s, len, peek, dontwait, env[0], []);
    RoundCounts(s, len, peek, dontwait, env[0], []);
    if s.lastdata.None? && (Fetches(dontwait, env[0]) ==> s.mail == [] || s.mail[0].Gone?) {
      LastRound(s, len, peek, dontwait, env[0], []);
    } else {
      FirstPiece(s, dontwait, env[0], 0);
      if r.Next? {
        CallCounts(r.s, r.left, peek, dontwait, env[1..], r.got);
      }
    }
  }

  /** What select calls ready for reading is a socket whose non-blocking read does not answer EWOULDBLOCK. */
  lemma SelectTellsReaders(socks: seq<SelectProtocol.Sock>, fd: nat, s: Sock, len: nat, peek: bool, env: seq<Tick>)
    requires Valid(s) && env != [] && len < U16
    requires forall k :: 0 <= k < |Queue(s)| && Queue(s)[k].Data? ==> Joined(Queue(s)[k].buf.chain) != []
    requires fd < |socks| && socks[fd].open && socks[fd].lastdata == s.lastdata.Some? &&
             socks[fd].rcvevent == env[0].ready
    ensures SelectProtocol.ReadReady(socks, fd) <==>
            Receive(s, len, peek, true, env, []).1 != Returned(-1, WouldBlock)
  {
    hide Receive, Joined, Posted, Queue;
    WouldBlockExactly(s, len, peek, true, env);
  }

  // ----- the code -----

  lemma ReceiveEnd(s: Sock, len: nat, peek: bool, dontwait: bool, env: seq<Tick>, taken: seq<byte>)
    requires Valid(s) && env == []
    ensures Receive(s, len, peek, dontwait, env, taken) == (s, Running, taken)
  {
  }

  /** One unfolding of Receive. */
  lemma ReceiveRound(s: Sock, len: nat, peek: bool, dontwait: bool, env: seq<Tick>, i: nat, taken: seq<byte>)
    requires Valid(s) && i < |env|
    ensures var r := RoundOf(s, len, peek, dontwait, env[i], taken);
            Receive(s, len, peek, dontwait, env[i..], taken) ==
            if r.Stop? then (r.s, r.reply, r.got) else Receive(r.s, r.left, peek, dontwait, env[i + 1..], r.got)
  {
  }

  lemma {:induction false} JoinedFrom(chain: seq<seq<byte>>, i: nat)
    requires i < |chain|
    ensures Joined(chain[i..]) == chain[i] + Joined(chain[i + 1..])
  {
  }

  /** Copying c bytes of the first pbuf leaves the rest of what is wanted at the start of the next one. */
  lemma CopyPiece(flat: seq<byte>, p: seq<byte>, rest: seq<byte>, o: nat, n: nat, c: nat)
    requires flat == p + rest && o + n <= |flat| && o <= |p| && c == Min(|p| - o, n)
    ensures flat[o..o + n][..c] == p[o..o + c]
    ensures n - c <= |rest| && flat[o..o + n][c..] == rest[..n - c]
  {
    assert flat[o..o + n][..c] == flat[o..o + c] && flat[o..o + n][c..] == flat[o + c..o + n];
    assert flat[..|p|] == p && flat[|p|..] == rest;
    assert flat[o..o + c] == flat[..|p|][o..o + c];
    if c == |p| - o {
      assert flat[|p|..o + n] == flat[|p|..][..n - c];
    }
  }

  lemma Progress(want: seq<byte>, left: nat, part: seq<byte>, c: nat)
    requires left <= |want| && want[left..] == part && c <= |part|
    ensures want[..left] + part[..c] == want[..left + c] && want[left + c..] == part[c..]
  {
  }

  /** A pbuf that ends before the wanted range is passed over. */
  lemma SkipPiece(flat: seq<byte>, p: seq<byte>, rest: seq<byte>, o: nat, n: nat)
    requires flat == p + rest && |p| <= o && o + n <= |flat|
    ensures flat[o..o + n] == rest[o - |p|..o - |p| + n]
  {
  }

  /** pbuf_copy_partial: the len bytes from offset on of the whole chain, wherever the pbuf borders lie. */
  method CopyPartial(chain: seq<seq<byte>>, mem: array<byte>, at: nat, len: nat, offset: nat)
    requires offset + len <= |Joined(chain)| && at + len <= mem.Length
    modifies mem
    ensures mem[..] == Put(old(mem[..]), at, Joined(chain)[offset..offset + len])
  {
    hide Put, Joined;
    var left: nat, n: nat, o: nat, i := 0, len, offset, 0;
    ghost var want := Joined(chain)[offset..offset + len];
    assert chain[0..] == chain && Put(mem[..], at, want[..0]) == mem[..] by {
      PutNothing(mem[..], at, want[..0]);
    }
    while n != 0 && i < |chain|
      invariant 0 <= i <= |chain| && left + n == len && o + n <= |Joined(chain[i..])|
      invariant want[left..] == Joined(chain[i..])[o..o + n]
      invariant mem[..] == Put(old(mem[..]), at, want[..left])
      decreases |chain| - i
    {
      JoinedFrom(chain, i);
      ghost var flat, rest := Joined(chain[i..]), Joined(chain[i + 1..]);
      var p := chain[i];
      if o != 0 && o >= |p| {
        SkipPiece(flat, p, rest, o, n);
        o := o - |p|;
      } else {
        var c := |p| - o;
        if c > n {
          c := n;
        }
        CopyPiece(flat, p, rest, o, n, c);
        Progress(want, left, flat[o..o + n], c);
        PutPut(old(mem[..]), at, want[..left], p[o..o + c]);
        MemCpy(mem, at + left, p[o..o + c]);
        left, n, o := left + c, n - c, 0;
      }
      i := i + 1;
    }
    assert n == 0 by {
      if i == |chain| {
        JoinedNone(chain[i..]);
      }
    }
    assert want[..left] == want;
  }

  lemma JoinedNone(chain: seq<seq<byte>>)
    requires chain == []
    ensures Joined(chain) == []
  {
  }

  lemma CountStep(taken: nat, k: nat)
    ensures (taken % U16 + k) % U16 == (taken + k) % U16
  {
  }

  class SocketReader {
    const tcp: bool
    var lastdata: Option<Netbuf>
    var lastoffset: nat
    var recvmbox: seq<Mail>

    ghost function View(): Sock
      reads this
    {
      Sock(tcp, lastdata, lastoffset, recvmbox)
    }

    /** netconn_recv: the oldest packet, or None if it fails before the mailbox or fetches the NULL of a connection
        that has ended; blocked while the mailbox is empty. */
    method NetconnRecv(ok: bool) returns (blocked: bool, buf: Option<Netbuf>)
      modifies this`recvmbox
      ensures blocked == (ok && old(recvmbox) == [])
      ensures buf == if ok && !blocked && old(recvmbox)[0].Data? then Some(old(recvmbox)[0].buf) else None
      ensures recvmbox == if ok && !blocked then old(recvmbox)[1..] else old(recvmbox)
    {
      blocked, buf := false, None;
      if !ok {
        return;
      }
      if recvmbox == [] {
        blocked := true;
        return;
      }
      if recvmbox[0].Data? {
        buf := Some(recvmbox[0].buf);
      }
      recvmbox := recvmbox[1..];
    }

    /** The first half of a round: the saved buffer, or a new one from the network. */
    method NextBuffer(dontwait: bool, t: Tick, off: nat) returns (buf: Option<Netbuf>, reply: Reply)
      requires Valid(View())
      modifies this
      ensures match Fetched(old(View()), dontwait, t, off)
              case Got(s) => View() == s && buf == lastdata && buf.Some?
              case Ended(s, r) => View() == s && buf.None? && reply == r
      ensures old(lastdata).Some? ==> buf == old(lastdata) && View() == old(View())
      ensures old(lastdata).None? && dontwait && t.ready <= 0 ==>
        buf.None? && View() == old(View()) &&
        reply == if off > 0 then Returned(off, NoError) else Returned(-1, WouldBlock)
      ensures old(lastdata).None? && (dontwait ==> t.ready > 0) && t.recvOk && old(recvmbox) == [] ==>
        buf.None? && View() == old(View()) && reply == Blocked
    {
      hide Joined;
      buf, reply := lastdata, Blocked;
      if buf.None? {
        if dontwait && t.ready <= 0 {
          if off > 0 {
            return None, Returned(off, NoError);
          }
          return None, Returned(-1, WouldBlock);
        }
        var blocked;
        blocked, buf := NetconnRecv(t.recvOk);
        if !blocked {
          lastdata := buf;
          if buf.None? {
            if off > 0 {
              return None, Returned(off, NoError);
            }
            return None, Returned(0, RecvError);
          }
        }
      }
    }

    /** The end of a round: unless peeking, save what is left of the buffer or let go of it. */
    method KeepRest(buf: Netbuf, buflen: nat, copylen: nat, peek: bool)
      requires Valid(View()) && lastdata == Some(buf) && copylen <= buflen == |Joined(buf.chain)| - lastoffset
      modifies this
      ensures View() == Consumed(old(View()), copylen, peek)
    {
      if !peek {
        if tcp && buflen - copylen > 0 {
          lastdata := Some(buf);
          lastoffset := lastoffset + copylen;
        } else {
          lastdata := None;
          lastoffset := 0;
        }
      }
    }

    /** The copy in the middle of a round. */
    method TakeFrom(buf: Netbuf, mem: array<byte>, off: nat, copylen: nat, ghost taken: seq<byte>)
      returns (ghost piece: seq<byte>)
      requires lastoffset + copylen <= |Joined(buf.chain)| && |taken| + copylen <= mem.Length && off == |taken| % U16
      requires |taken| < U16 ==> mem[..|taken|] == taken
      modifies mem
      ensures piece == Joined(buf.chain)[lastoffset..][..copylen]
      ensures |taken| < U16 ==> mem[|taken| + copylen..] == old(mem[|taken| + copylen..])
      ensures |taken| < U16 ==> mem[..|taken| + copylen] == taken + piece
    {
      hide Joined, Put;
      piece := Joined(buf.chain)[lastoffset..][..copylen];
      assert piece == Joined(buf.chain)[lastoffset..lastoffset + copylen];
      if |taken| < U16 {
        PutPrefix(mem[..], taken, piece);
      }
      CopyPartial(buf.chain, mem, off, copylen, lastoffset);
    }

    /** The body of the loop. */
    method OneRound(mem: array<byte>, len: nat, off: nat, peek: bool, dontwait: bool, t: Tick, ghost taken: seq<byte>)
      returns (done: bool, reply: Reply, left: nat, off': nat, ghost got: seq<byte>)
      requires Valid(View()) && |taken| + len <= mem.Length && off == |taken| % U16
      requires |taken| < U16 ==> mem[..|taken|] == taken
      modifies this, mem
      ensures Valid(View()) && |taken| <= |got| <= mem.Length && (|got| < U16 ==> mem[..|got|] == got)
      ensures |got| < U16 ==> mem[|got|..] == old(mem[|got|..])
      ensures RoundOf(old(View()), len, peek, dontwait, t, taken) ==
              if done then Stop(View(), reply, got) else Next(View(), left, got)
      ensures !done ==> off' == |got| % U16 && |got| + left <= |taken| + len
    {
      hide Joined, Posted, Remaining, Put, Fetched, Consumed;
      done, left, off', got := true, len, off, taken;
      var buf;
      buf, reply := NextBuffer(dontwait, t, off);
      if buf.None? {
        return;
      }
      var buflen := |Joined(buf.value.chain)| - lastoffset;
      var copylen := if len > buflen then buflen else len;
      ghost var piece := TakeFrom(buf.value, mem, off, copylen, taken);
      got := taken + piece;
      off' := (off + copylen) % U16;
      CountStep(|taken|, copylen);
      if tcp {
        left := len - copylen;
        done := left == 0 || buf.value.push || t.more <= 0 || peek;
      }
      KeepRest(buf.value, buflen, copylen, peek);
      reply := Returned(off', NoError);
    }

    /** The loop of lwip_recvfrom. */
    method RecvFrom(mem: array<byte>, maxlen: nat, peek: bool, dontwait: bool, env: seq<Tick>)
      returns (reply: Reply, ghost taken: seq<byte>)
      requires Valid(View()) && maxlen <= mem.Length
      modifies this, mem
      ensures (View(), reply, taken) == Receive(old(View()), maxlen, peek, dontwait, env, [])
      ensures |taken| <= mem.Length
      ensures |taken| < U16 ==> mem[..|taken|] == taken && mem[|taken|..] == old(mem[|taken|..])
    {
      hide RoundOf, Receive;
      var len: nat, off: nat, round: nat := maxlen, 0, 0;
      taken := [];
      ghost var goal := Receive(View(), maxlen, peek, dontwait, env, []);
      assert env[0..] == env && goal == Receive(View(), maxlen, peek, dontwait, env[0..], []);
      while round < |env|
        invariant round <= |env| && Valid(View()) && off == |taken| % U16 && |taken| + len <= mem.Length
        invariant |taken| < U16 ==> mem[..|taken|] == taken && mem[|taken|..] == old(mem[|taken|..])
        invariant goal == Receive(View(), len, peek, dontwait, env[round..], taken)
      {
        ReceiveRound(View(), len, peek, dontwait, env, round, taken);
        var done;
        done, reply, len, off, taken := OneRound(mem, len, off, peek, dontwait, env[round], taken);
        if done {
          return;
        }
        round := round + 1;
      }
      ReceiveEnd(View(), len, peek, dontwait, env[round..], taken);
      reply := Running;
    }
  }
}

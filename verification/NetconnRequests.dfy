/** Blocking requests on a TCP netconn (Utilities/lwip-1.3.1/src/api/api_msg.c): what tcpip_thread does with a write,
    connect, close or delete request and with the TCP callbacks that finish it. */
module NetconnRequests {
  import opened Bits
  import opened SelectProtocol

  const ERR_OK := 0
  const ERR_MEM := -1
  const ERR_RTE := -4
  const ERR_CONN := -8
  const ERR_VAL := -9
  const ERR_ISCONN := -13
  const TCP_SNDLOWAT := 1460
  const MAX_U16 := 65535

  predicate Fatal(err: int)
  {
    err < ERR_RTE
  }

  datatype State = NONE | WRITE | CONNECT | CLOSE

  /** The callbacks registered in the tcp_pcb: the netconn as argument, recv_tcp, sent_tcp, poll_tcp, err_tcp; and
      do_connected, which the TCP core may call once while the pcb is in SYN_SENT. */
  datatype Pcb = Pcb(arg: bool, recv: bool, sent: bool, poll: bool, errf: bool, connected: bool)

  /** struct netconn; pcb is None once conn->pcb.tcp is NULL.  signals counts sys_sem_signal on op_completed, stream
      holds the bytes tcp_write has accepted, events the calls of API_EVENT. */
  datatype Conn = Conn(state: State, err: int, writeMsg: Option<seq<byte>>, writeOffset: nat, pcb: Option<Pcb>,
                       signals: nat, stream: seq<byte>, events: seq<Event>)

  /** What the TCP core answers during one call: the send buffer before and after, and the results of tcp_write,
      tcp_output and tcp_close. */
  datatype Answers = Answers(sndbuf: nat, write: int, output: int, sndbufAfter: nat, close: int)

  function Registered(p: Pcb): Pcb
  {
    p.(arg := true, recv := true, sent := true, poll := true, errf := true)
  }

  /** tcp_connect gives up before it touches the pcb. */
  predicate Refused(result: int)
  {
    result == ERR_VAL || result == ERR_ISCONN
  }

  /** Otherwise it moves the pcb to SYN_SENT and registers do_connected, and only then can it run out of memory. */
  function Connecting(p: Pcb, result: int): Pcb
  {
    if Refused(result) then p else p.(connected := true)
  }

  predicate Hooked(p: Pcb)
  {
    p.arg && p.sent && p.poll && p.errf
  }

  predicate Busy(s: State)
  {
    s != NONE
  }

  function Released(c: Conn): Conn
  {
    c.(state := NONE, signals := c.signals + 1)
  }

  /** How much the next tcp_write offers: what is left, at most 65535 bytes and at most the send buffer. */
  function Chunk(left: nat, sndbuf: nat): (k: nat)
    ensures k <= left && k <= 65535 && k <= sndbuf && (k == left || k == 65535 || k == sndbuf)
  {
    Min(Min(left, MAX_U16), sndbuf)
  }

  predicate Writing(c: Conn)
  {
    c.state == WRITE && c.writeMsg.Some? && c.writeOffset <= |c.writeMsg.value| && c.pcb.Some?
  }

  predicate Closing(c: Conn)
  {
    c.state == CLOSE && c.pcb.Some?
  }

  function AfterWriteMore(c: Conn, a: Answers): Conn
    requires Writing(c)
  {
    var data := c.writeMsg.value;
    var next := c.writeOffset + Chunk(|data| - c.writeOffset, a.sndbuf);
    if a.write == ERR_MEM then c
    else if a.write != ERR_OK then Released(c.(err := a.write))
    else
      var c1 := c.(err := a.output, stream := c.stream + data[c.writeOffset..next],
                   events := c.events +
                     if a.output == ERR_OK && a.sndbufAfter <= TCP_SNDLOWAT then [SendMinus] else []);
      if next == |data| then Released(c1.(writeMsg := None, writeOffset := 0)) else c1.(writeOffset := next)
  }

  function AfterClose(c: Conn, err: int): Conn
    requires Closing(c)
  {
    if err == ERR_OK then
      Released(c.(pcb := None, err := ERR_OK, events := c.events + [RcvPlus, SendPlus]))
    else
      c.(pcb := Some(c.pcb.value.(arg := true, recv := false, sent := true, poll := true, errf := true)))
  }

  // ----- requests and callbacks -----

  datatype Request = Write(data: seq<byte>) | Connect(result: int) | Close | Delete | Other(result: int)

  datatype Callback = Sent | Poll | Recv(recvErr: int, posted: bool) | Err(lost: int) | Connected(how: int)

  datatype Action = Issue(req: Request, ans: Answers) | Call(cb: Callback, ans: Answers)

  /** do_write, do_connect, do_close, do_delconn, and the requests that only acknowledge. */
  function Issued(c: Conn, r: Request, a: Answers): Conn
    requires !Busy(c.state)
  {
    match r
    case Write(data) =>
      if Fatal(c.err) then Released(c)
      else if c.pcb.None? then Released(c.(err := ERR_VAL))
      else AfterWriteMore(c.(state := WRITE, writeMsg := Some(data), writeOffset := 0), a)
    case Connect(result) =>
      if c.pcb.None? then Released(c)
      else c.(state := CONNECT, err := result, pcb := Some(Connecting(Registered(c.pcb.value), result)))
    case Close =>
      if c.pcb.None? then Released(c.(err := ERR_VAL)) else AfterClose(c.(state := CLOSE), a.close)
    case Delete =>
      if c.pcb.None? then Released(c.(events := c.events + [RcvPlus, SendPlus]))
      else AfterClose(c.(state := CLOSE), a.close)
    case Other(result) => Released(c.(err := result))
  }

  /** poll_tcp; sent_tcp starts with the same step. */
  function Resumed(c: Conn, a: Answers): Conn
    requires c.state == WRITE ==> Writing(c)
    requires c.state == CLOSE ==> Closing(c)
  {
    if c.state == WRITE then AfterWriteMore(c, a) else if c.state == CLOSE then AfterClose(c, a.close) else c
  }

  predicate Callable(c: Conn, cb: Callback)
  {
    c.pcb.Some? && c.pcb.value.arg &&
    match cb
    case Sent => c.pcb.value.sent
    case Poll => c.pcb.value.poll
    case Recv(_, _) => c.pcb.value.recv
    case Err(_) => c.pcb.value.errf
    case Connected(_) => c.pcb.value.connected
  }

  function Called(c: Conn, cb: Callback, a: Answers): Conn
    requires Callable(c, cb)
    requires c.state == WRITE ==> Writing(c)
  {
    match cb
    case Sent =>
      var c1 := Resumed(c, a);
      c1.(events := c1.events + if c1.pcb.Some? && a.sndbufAfter > TCP_SNDLOWAT then [SendPlus] else [])
    case Poll => Resumed(c, a)
    case Recv(e, posted) => c.(err := e, events := c.events + if posted then [RcvPlus] else [])
    case Err(e) =>
      var c1 := c.(pcb := None, err := e, events := c.events + [RcvPlus]);
      if Busy(c.state) then Released(c1) else c1
    case Connected(e) =>
      var p := c.pcb.value.(connected := false);
      Released(c.(err := e, pcb := Some(if e == ERR_OK then Registered(p) else p)))
  }

  // ----- runs -----

  /** How a write ended: with a last tcp_write that took the rest, with an error from tcp_write, or because err_tcp
      reported the connection gone. */
  datatype End = Finished | Failed | Reset

  /** A write request that has ended: its data, how many bytes of it were accepted, and how it ended. */
  datatype Written = Written(data: seq<byte>, took: nat, end: End)

  /** A netconn with the history of its requests; deleted once netconn_delete has been asked for. */
  datatype World = World(c: Conn, issued: nat, deleted: bool, writes: seq<Written>)

  ghost predicate Init(w: World)
  {
    w.c.state == NONE && w.c.writeMsg.None? && w.c.writeOffset == 0 && w.c.signals == 0 && w.c.stream == [] &&
    (w.c.pcb.Some? ==> Hooked(w.c.pcb.value) && w.c.pcb.value.recv && !w.c.pcb.value.connected) &&
    w.issued == 0 && !w.deleted && w.writes == []
  }

  /** One thread uses the netconn: it issues a request once the previous one has been released. */
  ghost predicate Enabled(w: World, a: Action)
  {
    match a
    case Issue(_, _) => !Busy(w.c.state) && !w.deleted
    case Call(cb, _) => Callable(w.c, cb) && (w.c.state == WRITE ==> Writing(w.c))
  }

  function Step(c: Conn, a: Action): Conn
    requires match a
             case Issue(_, _) => !Busy(c.state)
             case Call(cb, _) => Callable(c, cb) && (c.state == WRITE ==> Writing(c))
  {
    match a
    case Issue(r, ans) => Issued(c, r, ans)
    case Call(cb, ans) => Called(c, cb, ans)
  }

  /** The write in progress, or the one a new request starts. */
  function WriteOf(c: Conn, a: Action): Option<(seq<byte>, nat)>
  {
    if c.state == WRITE && c.writeMsg.Some? then Some((c.writeMsg.value, c.writeOffset))
    else if a.Issue? && a.req.Write? && !Fatal(c.err) && c.pcb.Some? then Some((a.req.data, 0))
    else None
  }

  ghost function Do(w: World, a: Action): World
    requires Enabled(w, a)
  {
    var c' := Step(w.c, a);
    var ended := WriteOf(w.c, a).Some? && c'.state != WRITE;
    World(c', w.issued + if a.Issue? then 1 else 0, w.deleted || (a.Issue? && a.req.Delete?),
      if ended then w.writes + [Ending(w.c, a)] else w.writes)
  }

  /** The record of a write that the step a has just ended. */
  function Ending(c: Conn, a: Action): Written
    requires WriteOf(c, a).Some?
  {
    var (data, at) := WriteOf(c, a).value;
    if a.Call? && a.cb.Err? then Written(data, at, Reset)
    else if a.ans.write == ERR_OK then Written(data, |data|, Finished)
    else Written(data, at, Failed)
  }

  /** The bytes a list of ended writes should have put into the stream. */
  function Bytes(ws: seq<Written>): seq<byte>
  {
    if ws == [] then []
    else
      var l := ws[|ws| - 1];
      Bytes(ws[..|ws| - 1]) + l.data[..Min(l.took, |l.data|)]
  }

  predicate WellWritten(d: Written)
  {
    d.took <= |d.data| && (d.end == Finished ==> d.took == |d.data|)
  }

  function LastEnd(ws: seq<Written>): End
  {
    if ws == [] then Finished else ws[|ws| - 1].end
  }

  /** Every request but the one in progress has been released exactly once, and with the netconn back in
      NETCONN_NONE. */
  ghost predicate Counted(w: World)
  {
    w.issued == w.c.signals + if Busy(w.c.state) then 1 else 0
  }

  /** A netconn that is waiting is still connected to the callbacks that will release it, and takes data unless it is
      being closed; one that has been deleted and released has none left. */
  ghost predicate Connectable(w: World)
  {
    (Busy(w.c.state) ==> w.c.pcb.Some?) && (w.c.pcb.Some? ==> Hooked(w.c.pcb.value)) &&
    (w.c.pcb.Some? ==> (w.c.pcb.value.recv <==> w.c.state != CLOSE)) &&
    (w.c.pcb.Some? && w.c.pcb.value.connected ==> w.c.state == CONNECT) &&
    (w.deleted ==> w.c.state == CLOSE || w.c.pcb.None?)
  }

  /** The bytes accepted are those of the ended writes, in order, and of the current one up to its offset. */
  ghost predicate Streamed(w: World)
  {
    (forall d :: d in w.writes ==> WellWritten(d)) &&
    (w.c.state == WRITE ==> Writing(w.c)) &&
    w.c.stream == Bytes(w.writes) + if Writing(w.c) then w.c.writeMsg.value[..w.c.writeOffset] else []
  }

  /** Outside a write, write_msg is still set exactly when the last write ended in an error. */
  ghost predicate Noted(w: World)
  {
    (w.c.writeMsg.None? ==> w.c.writeOffset == 0) &&
    (w.c.state != WRITE ==> (w.c.writeMsg.Some? <==> LastEnd(w.writes) != Finished)) &&
    (w.c.state != WRITE && LastEnd(w.writes) == Reset ==> w.c.pcb.None?)
  }

  ghost predicate Inv(w: World)
  {
    Counted(w) && Connectable(w) && Streamed(w) && Noted(w)
  }

  // ----- one step -----

  lemma CountedStep(w: World, a: Action)
    requires Counted(w) && Connectable(w) && Enabled(w, a)
    ensures Counted(Do(w, a)) && Connectable(Do(w, a))
  {
    hide Chunk, Ending;
  }

  /** Exactly which callback releases a waiting request. */
  predicate Releases(c: Conn, cb: Callback, a: Answers)
    requires c.state == WRITE ==> Writing(c)
  {
    match cb
    case Err(_) => Busy(c.state)
    case Connected(_) => true
    case Recv(_, _) => false
    case _ =>
      (c.state == CLOSE && a.close == ERR_OK) ||
      (c.state == WRITE && a.write != ERR_MEM &&
       (a.write != ERR_OK || Chunk(|c.writeMsg.value| - c.writeOffset, a.sndbuf) == |c.writeMsg.value| - c.writeOffset))
  }

  lemma ReleasedExactly(w: World, cb: Callback, a: Answers)
    requires Inv(w) && Enabled(w, Call(cb, a))
    ensures var c' := Called(w.c, cb, a);
            c'.signals == w.c.signals + (if Releases(w.c, cb, a) then 1 else 0) &&
            c'.state == (if Releases(w.c, cb, a) then NONE else w.c.state)
  {
  }

  lemma BytesAppend(ws: seq<Written>, l: Written)
    requires WellWritten(l)
    ensures Bytes(ws + [l]) == Bytes(ws) + l.data[..l.took]
  {
  }

  /** One attempt to write keeps the stream equal to what was there before the write, plus the data up to the
      offset, and ends the write only at its full length or on an error. */
  lemma WriteMoreKeeps(c: Conn, a: Answers, before: seq<byte>)
    requires Writing(c) && c.stream == before + c.writeMsg.value[..c.writeOffset]
    ensures var c' := AfterWriteMore(c, a);
            (Writing(c') || c'.state == NONE) && c'.pcb == c.pcb &&
            (Writing(c') ==> c'.writeMsg == c.writeMsg && c'.stream == before + c.writeMsg.value[..c'.writeOffset]) &&
            (c'.state == NONE ==> a.write != ERR_MEM && (c'.writeMsg.None? <==> a.write == ERR_OK)) &&
            (c'.state == NONE && c'.writeMsg.None? ==> c'.stream == before + c.writeMsg.value && c'.writeOffset == 0) &&
            (c'.state == NONE && c'.writeMsg.Some? ==>
               c'.writeMsg == c.writeMsg && c'.stream == c.stream && c'.writeOffset == c.writeOffset)
  {
  }

  lemma ChunkFits(left: nat, sndbuf: nat)
    ensures Chunk(left, sndbuf) <= left && (left > 0 && sndbuf > 0 ==> Chunk(left, sndbuf) > 0)
  {
  }

  /** A step that makes an attempt to write keeps the account of the stream. */
  lemma WritingStep(w: World, a: Action)
    requires Inv(w) && Enabled(w, a) && WriteOf(w.c, a).Some?
    ensures Streamed(Do(w, a)) && Noted(Do(w, a))
  {
    hide Chunk, Bytes, AfterWriteMore, AfterClose;
    var c, w' := w.c, Do(w, a);
    var (data, at) := WriteOf(c, a).value;
    var c0 := if c.state == WRITE then c else c.(state := WRITE, writeMsg := Some(data), writeOffset := 0);
    assert c.stream == Bytes(w.writes) + data[..at];
    WriteMoreKeeps(c0, a.ans, Bytes(w.writes));
    if w'.c.state != WRITE {
      BytesAppend(w.writes, Ending(c, a));
    }
  }

  lemma InvStep(w: World, a: Action)
    requires Inv(w) && Enabled(w, a)
    ensures Inv(Do(w, a))
  {
    hide Chunk, Bytes, AfterWriteMore, LastEnd;
    if WriteOf(w.c, a).Some? {
      WritingStep(w, a);
    }
    CountedStep(w, a);
  }

  // ----- whole runs -----

  ghost predicate Run(ws: seq<World>, acts: seq<Action>)
  {
    |ws| == |acts| + 1 && Init(ws[0]) &&
    forall i :: 0 <= i < |acts| ==> Enabled(ws[i], acts[i]) && ws[i + 1] == Do(ws[i], acts[i])
  }

  /** In every run of requests and callbacks, whatever the TCP core answers. */
  lemma {:induction false} RunInv(ws: seq<World>, acts: seq<Action>, i: nat)
    requires Run(ws, acts) && i < |ws|
    ensures Inv(ws[i])
  {
    hide Do, Enabled, Init;
    if i == 0 {
      InitInv(ws[0]);
    } else {
      RunInv(ws, acts, i - 1);
      InvStep(ws[i - 1], acts[i - 1]);
    }
  }

  lemma InitInv(w: World)
    requires Init(w)
    ensures Inv(w)
  {
  }

  predicate NoRequest(acts: seq<Action>, i: nat, j: nat)
    requires j <= |acts|
  {
    forall k :: i <= k < j ==> !acts[k].Issue?
  }

  lemma {:induction false} IssuedOnce(ws: seq<World>, acts: seq<Action>, i: nat, j: nat)
    requires Run(ws, acts) && i < j < |ws| && acts[i].Issue? && NoRequest(acts, i + 1, j)
    ensures ws[j].issued == ws[i].issued + 1
    decreases j
  {
    if j > i + 1 {
      IssuedOnce(ws, acts, i, j - 1);
    }
  }

  /** From a request to the next one op_completed is signalled at most once, and it has been signalled exactly when
      the netconn is back in NETCONN_NONE. */
  lemma OneReleasePerRequest(ws: seq<World>, acts: seq<Action>, i: nat, j: nat)
    requires Run(ws, acts) && i < j < |ws| && acts[i].Issue? && NoRequest(acts, i + 1, j)
    ensures ws[j].c.signals == ws[i].c.signals + if ws[j].c.state == NONE then 1 else 0
  {
    IssuedOnce(ws, acts, i, j);
    RunInv(ws, acts, i);
    RunInv(ws, acts, j);
    assert Enabled(ws[i], acts[i]);
  }

  /** A write that ended without an error put all its data into the stream, and no byte is lost, repeated or out of
      order over the whole run. */
  lemma WritesLoseNothing(ws: seq<World>, acts: seq<Action>, i: nat)
    requires Run(ws, acts) && i < |ws| && ws[i].c.state != WRITE
    requires forall d :: d in ws[i].writes ==> d.end == Finished
    ensures ws[i].c.stream == AllData(ws[i].writes)
  {
    RunInv(ws, acts, i);
    BytesOfFinished(ws[i].writes);
  }

  function AllData(ws: seq<Written>): seq<byte>
  {
    if ws == [] then [] else AllData(ws[..|ws| - 1]) + ws[|ws| - 1].data
  }

  lemma {:induction false} BytesOfFinished(ws: seq<Written>)
    requires forall d :: d in ws ==> WellWritten(d) && d.end == Finished
    ensures Bytes(ws) == AllData(ws)
  {
    if ws != [] {
      var l := ws[|ws| - 1];
      assert l in ws && l.data[..|l.data|] == l.data;
      BytesOfFinished(ws[..|ws| - 1]);
    }
  }

  /** Once netconn_delete has been released, no callback can reach the netconn again. */
  lemma DeletedIsUnreachable(ws: seq<World>, acts: seq<Action>, i: nat, cb: Callback)
    requires Run(ws, acts) && i < |ws| && ws[i].deleted && ws[i].c.state == NONE
    ensures ws[i].c.pcb.None? && !Callable(ws[i].c, cb)
  {
    RunInv(ws, acts, i);
  }

  /** The two callbacks that can end a connect. */
  predicate EndsConnect(a: Action)
  {
    a.Call? && (a.cb.Err? || a.cb.Connected?)
  }

  ghost predicate StillConnecting(ws: seq<World>, i: nat, j: nat)
    requires i < |ws| && j < |ws|
  {
    ws[j].c.state == CONNECT && ws[j].c.pcb.Some? && ws[j].c.signals == ws[i].c.signals
  }

  lemma ConnectStarts(w: World, a: Action)
    requires Enabled(w, a) && w.c.pcb.Some? && a.Issue? && a.req.Connect?
    ensures var c := Do(w, a).c;
            c.state == CONNECT && c.signals == w.c.signals && c.pcb.Some? &&
            c.pcb.value.connected == (w.c.pcb.value.connected || !Refused(a.req.result))
  {
  }

  lemma ConnectStep(w: World, a: Action)
    requires Enabled(w, a) && w.c.state == CONNECT && w.c.pcb.Some?
    ensures var c := Do(w, a).c;
            if EndsConnect(a) then c.signals == w.c.signals + 1
            else c.state == CONNECT && c.signals == w.c.signals && c.pcb == w.c.pcb
    ensures a.Call? && a.cb.Connected? ==> w.c.pcb.value.connected
  {
  }

  lemma SignalsGrow(ws: seq<World>, acts: seq<Action>, i: nat)
    requires Run(ws, acts) && i < |acts|
    ensures ws[i].c.signals <= ws[i + 1].c.signals
  {
    hide Chunk, Ending, Bytes;
    assert ws[i + 1] == Do(ws[i], acts[i]) && Enabled(ws[i], acts[i]);
    RunInv(ws, acts, i);
  }

  /** Whatever tcp_connect answers, success or an immediate error, do_connect releases nobody: the request waits
      exactly as long as neither err_tcp nor do_connected is called. */
  lemma {:induction false} ConnectWaitsExactly(ws: seq<World>, acts: seq<Action>, i: nat, j: nat)
    requires Run(ws, acts) && i < j < |ws| && ws[i].c.pcb.Some? && acts[i].Issue? && acts[i].req.Connect?
    ensures if forall k :: i < k < j ==> !EndsConnect(acts[k]) then StillConnecting(ws, i, j)
            else ws[j].c.signals > ws[i].c.signals
    decreases j
  {
    hide Do, Init;
    assert ws[j] == Do(ws[j - 1], acts[j - 1]);
    if j == i + 1 {
      ConnectStarts(ws[i], acts[i]);
    } else {
      ConnectWaitsExactly(ws, acts, i, j - 1);
      if exists k :: i < k < j - 1 && EndsConnect(acts[k]) {
        SignalsGrow(ws, acts, j - 1);
      } else {
        ConnectStep(ws[j - 1], acts[j - 1]);
      }
    }
  }

  /** If tcp_connect refuses before it touches the pcb, do_connected is not registered, and the request waits exactly
      until err_tcp is called. */
  lemma {:induction false} RefusedConnectNeedsErr(ws: seq<World>, acts: seq<Action>, i: nat, j: nat)
    requires Run(ws, acts) && i < j < |ws| && ws[i].c.pcb.Some?
    requires acts[i].Issue? && acts[i].req.Connect? && Refused(acts[i].req.result)
    ensures if forall k :: i < k < j ==> !(acts[k].Call? && acts[k].cb.Err?)
            then StillConnecting(ws, i, j) && !ws[j].c.pcb.value.connected
            else ws[j].c.signals > ws[i].c.signals
    decreases j
  {
    hide Do, Init;
    assert ws[j] == Do(ws[j - 1], acts[j - 1]);
    if j == i + 1 {
      RunInv(ws, acts, i);
      ConnectStarts(ws[i], acts[i]);
    } else {
      RefusedConnectNeedsErr(ws, acts, i, j - 1);
      if exists k :: i < k < j - 1 && acts[k].Call? && acts[k].cb.Err? {
        SignalsGrow(ws, acts, j - 1);
      } else {
        ConnectStep(ws[j - 1], acts[j - 1]);
      }
    }
  }

  // ----- the assertion in do_write -----

  /** do_write asserts that no write message is left over.  That holds exactly when the previous write did not end
      with an error from tcp_write. */
  lemma AlreadyWritingExactly(ws: seq<World>, acts: seq<Action>, i: nat)
    requires Run(ws, acts) && i < |ws| && ws[i].c.state == NONE && !Fatal(ws[i].c.err) && ws[i].c.pcb.Some?
    ensures ws[i].c.writeMsg.None? && ws[i].c.writeOffset == 0 <==> LastEnd(ws[i].writes) != Failed
  {
    RunInv(ws, acts, i);
  }

  /** The assertion does fail: a write before the connection is opened is refused with ERR_CONN, connecting clears the
      error, and the next write finds the old message. */
  lemma AlreadyWritingCanFail()
    ensures exists ws: seq<World>, acts: seq<Action> :: Run(ws, acts) && |acts| == 3 && ws[3].c.state == NONE &&
              !Fatal(ws[3].c.err) && ws[3].c.pcb.Some? && ws[3].c.writeMsg.Some?
  {
    var pcb := Pcb(true, true, true, true, true, false);
    var ans := Answers(100, ERR_CONN, ERR_OK, 100, ERR_OK);
    var w0 := World(Conn(NONE, ERR_OK, None, 0, Some(pcb), 0, [], []), 0, false, []);
    var acts := [Issue(Write([1]), ans), Issue(Connect(ERR_OK), ans), Call(Connected(ERR_OK), ans)];
    var w1 := Do(w0, acts[0]);
    var w2 := Do(w1, acts[1]);
    var w3 := Do(w2, acts[2]);
    assert Run([w0, w1, w2, w3], acts);
  }

  // ----- progress -----

  /** A write driven by callbacks for as long as it is in progress. */
  function Driven(c: Conn, answers: seq<Answers>): Conn
    decreases |answers|
  {
    if answers == [] || !Writing(c) then c else Driven(AfterWriteMore(c, answers[0]), answers[1..])
  }

  /** With room in the send buffer every callback makes progress, so a write of n bytes is released, complete, after
      at most n callbacks (one if it is empty). */
  lemma {:induction false} WriteCompletes(c: Conn, answers: seq<Answers>, before: seq<byte>)
    requires Writing(c) && c.stream == before + c.writeMsg.value[..c.writeOffset]
    requires forall i :: 0 <= i < |answers| ==> answers[i].write == ERR_OK && answers[i].sndbuf > 0
    requires |answers| > 0 && |answers| >= |c.writeMsg.value| - c.writeOffset
    ensures Driven(c, answers).state == NONE && Driven(c, answers).signals == c.signals + 1
    ensures Driven(c, answers).stream == before + c.writeMsg.value && Driven(c, answers).writeMsg.None?
    decreases |answers|
  {
    hide Chunk;
    var c1 := AfterWriteMore(c, answers[0]);
    ChunkFits(|c.writeMsg.value| - c.writeOffset, answers[0].sndbuf);
    WriteMoreKeeps(c, answers[0], before);
    if Writing(c1) {
      assert c1.writeOffset > c.writeOffset;
      WriteCompletes(c1, answers[1..], before);
    } else {
      assert Driven(c1, answers[1..]) == c1;
    }
  }

  // ----- the code -----

  class Netconn {
    var state: State
    var err: int
    var writeMsg: Option<seq<byte>>
    var writeOffset: nat
    var pcb: Option<Pcb>
    var opCompleted: nat
    ghost var stream: seq<byte>
    ghost var events: seq<Event>

    ghost function View(): Conn
      reads this
    {
      Conn(state, err, writeMsg, writeOffset, pcb, opCompleted, stream, events)
    }

    method ApiEvent(e: Event)
      modifies this`events
      ensures events == old(events) + [e]
    {
      events := events + [e];
    }

    method Signal()
      modifies this`opCompleted
      ensures opCompleted == old(opCompleted) + 1
    {
      opCompleted := opCompleted + 1;
    }

    /** tcp_write as the TCP core promises it: all the bytes are taken, or none. */
    method TcpWrite(data: seq<byte>, a: Answers) returns (err: int)
      requires |data| <= a.sndbuf && |data| <= 65535
      modifies this`stream
      ensures err == a.write
      ensures stream == if err == ERR_OK then old(stream) + data else old(stream)
    {
      err := a.write;
      if err == ERR_OK {
        stream := stream + data;
      }
    }

    method SetupTcp()
      requires pcb.Some?
      modifies this`pcb
      ensures pcb == Some(Registered(old(pcb).value))
    {
      pcb := Some(pcb.value.(arg := true));
      pcb := Some(pcb.value.(recv := true));
      pcb := Some(pcb.value.(sent := true));
      pcb := Some(pcb.value.(poll := true));
      pcb := Some(pcb.value.(errf := true));
    }

    method DoWriteMore(a: Answers)
      requires Writing(View())
      modifies this
      ensures View() == AfterWriteMore(old(View()), a)
      ensures err == if a.write == 0 then a.output else if a.write == -1 then old(err) else a.write
      ensures opCompleted == old(opCompleted) + if state == NONE then 1 else 0
    {
      hide Fatal, Busy, Registered;
      var finished := false;
      var diff := |writeMsg.value| - writeOffset;
      var len := if diff > MAX_U16 then MAX_U16 else diff;
      var available := a.sndbuf;
      if available < len {
        len := available;
      }
      assert len == Chunk(diff, a.sndbuf);
      var e := TcpWrite(writeMsg.value[writeOffset..writeOffset + len], a);
      if e == ERR_OK {
        writeOffset := writeOffset + len;
        if writeOffset == |writeMsg.value| {
          finished := true;
          writeMsg := None;
          writeOffset := 0;
          state := NONE;
        }
        e := a.output;
        err := e;
        if e == ERR_OK && a.sndbufAfter <= TCP_SNDLOWAT {
          ApiEvent(SendMinus);
        }
      } else if e == ERR_MEM {
        e := a.output;
      } else {
        err := e;
        finished := true;
      }
      if finished {
        state := NONE;
        Signal();
      }
    }

    method DoCloseInternal(result: int)
      requires Closing(View())
      modifies this
      ensures View() == AfterClose(old(View()), result)
    {
      pcb := Some(pcb.value.(arg := false, recv := false, sent := false, poll := false, errf := false));
      if result == ERR_OK {
        state := NONE;
        pcb := None;
        err := ERR_OK;
        ApiEvent(RcvPlus);
        ApiEvent(SendPlus);
        Signal();
      } else {
        pcb := Some(pcb.value.(sent := true));
        pcb := Some(pcb.value.(poll := true));
        pcb := Some(pcb.value.(errf := true));
        pcb := Some(pcb.value.(arg := true));
      }
    }

    method DoWrite(data: seq<byte>, a: Answers)
      requires state == NONE
      modifies this
      ensures View() == Issued(old(View()), Write(data), a)
    {
      if !Fatal(err) {
        if pcb.Some? {
          state := WRITE;
          writeMsg := Some(data);
          writeOffset := 0;
          DoWriteMore(a);
          return;
        } else {
          err := ERR_VAL;
        }
      }
      Signal();
    }

    method DoConnect(result: int, a: Answers)
      requires state == NONE
      modifies this
      ensures View() == Issued(old(View()), Connect(result), a)
    {
      if pcb.None? {
        Signal();
        return;
      }
      state := CONNECT;
      SetupTcp();
      TcpConnect(result);
      err := result;
    }

    /** tcp_connect as far as the pcb's callbacks go. */
    method TcpConnect(result: int)
      requires pcb.Some?
      modifies this`pcb
      ensures pcb == Some(Connecting(old(pcb).value, result))
    {
      if result == ERR_ISCONN {
        return;
      }
      if result == ERR_VAL {
        return;
      }
      pcb := Some(pcb.value.(connected := true));
    }

    method DoConnected(how: int, a: Answers)
      requires Callable(View(), Connected(how)) && state == CONNECT
      modifies this
      ensures View() == Called(old(View()), Connected(how), a)
    {
      pcb := Some(pcb.value.(connected := false));
      err := how;
      if how == ERR_OK {
        SetupTcp();
      }
      state := NONE;
      Signal();
    }

    method DoClose(a: Answers)
      requires state == NONE
      modifies this
      ensures View() == Issued(old(View()), Close, a)
    {
      if pcb.Some? {
        state := CLOSE;
        DoCloseInternal(a.close);
      } else {
        err := ERR_VAL;
        Signal();
      }
    }

    method DoDelconn(a: Answers)
      requires state == NONE
      modifies this
      ensures View() == Issued(old(View()), Delete, a)
    {
      if pcb.Some? {
        state := CLOSE;
        DoCloseInternal(a.close);
        return;
      }
      ApiEvent(RcvPlus);
      ApiEvent(SendPlus);
      Signal();
    }

    method PollTcp(a: Answers)
      requires Callable(View(), Poll) && (state == WRITE ==> Writing(View()))
      modifies this
      ensures View() == Called(old(View()), Poll, a)
    {
      if state == WRITE {
        DoWriteMore(a);
      } else if state == CLOSE {
        DoCloseInternal(a.close);
      }
    }

    method SentTcp(a: Answers)
      requires Callable(View(), Sent) && (state == WRITE ==> Writing(View()))
      modifies this
      ensures View() == Called(old(View()), Sent, a)
    {
      if state == WRITE {
        DoWriteMore(a);
      } else if state == CLOSE {
        DoCloseInternal(a.close);
      }
      if pcb.Some? && a.sndbufAfter > TCP_SNDLOWAT {
        ApiEvent(SendPlus);
      }
    }

    /** recv_tcp; the mailbox may be full, and then the error code is stored all the same. */
    method RecvTcp(how: int, posted: bool, a: Answers)
      requires Callable(View(), Recv(how, posted)) && (state == WRITE ==> Writing(View()))
      modifies this
      ensures View() == Called(old(View()), Recv(how, posted), a)
      ensures err == how && events == old(events) + if posted then [RcvPlus] else []
      ensures opCompleted == old(opCompleted)
    {
      err := how;
      if posted {
        ApiEvent(RcvPlus);
      }
    }

    method ErrTcp(lost: int, a: Answers)
      requires Callable(View(), Err(lost)) && (state == WRITE ==> Writing(View()))
      modifies this
      ensures View() == Called(old(View()), Err(lost), a)
    {
      pcb := None;
      err := lost;
      ApiEvent(RcvPlus);
      if state == CONNECT {
        state := NONE;
        Signal();
      }
      if state == WRITE || state == CLOSE {
        state := NONE;
        Signal();
      }
    }
  }
}

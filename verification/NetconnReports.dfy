/** What a blocking request reports to its caller and to select (Utilities/lwip-1.3.1/src/api/api_msg.c): the error
    code left behind by the step that releases the caller, and the events raised on the way. */
module NetconnReports {
  import opened Bits
  import opened SelectProtocol
  import opened NetconnRequests

  /** A step that makes an attempt to write. */
  predicate Attempts(c: Conn, a: Action)
  {
    if a.Issue? then a.req.Write? && c.err >= -4 && c.pcb.Some? else c.state == WRITE && (a.cb.Sent? || a.cb.Poll?)
  }

  /** A step that makes an attempt to close. */
  predicate Shuts(c: Conn, a: Action)
  {
    c.pcb.Some? && if a.Issue? then a.req.Close? || a.req.Delete? else c.state == CLOSE && (a.cb.Sent? || a.cb.Poll?)
  }

  /** The step that releases the caller leaves in err what the caller is told: the code of err_tcp or do_connected; for
      a write that failed the answer of tcp_write, for one that is complete the answer of tcp_output; ERR_OK after a
      close; the result of a request that only acknowledges; and ERR_VAL or the old error without a connection. */
  ghost predicate Reports(w: World, a: Action, w': World)
  {
    var (c, c') := (w.c, w'.c);
    if a.Call? && a.cb.Err? then c'.err == a.cb.lost && c'.pcb.None?
    else if a.Call? && a.cb.Connected? then c'.err == a.cb.how
    else if Attempts(c, a) then
      |w'.writes| == |w.writes| + 1 &&
      if w'.writes[|w.writes|].end == Failed then c'.err == a.ans.write && c'.err != 0 && c'.err != -1
      else w'.writes[|w.writes|].end == Finished && a.ans.write == 0 && c'.err == a.ans.output
    else if Shuts(c, a) then a.ans.close == 0 && c'.err == 0 && c'.pcb.None?
    else
      a.Issue? && c'.err ==
      if a.req.Other? then a.req.result
      else if a.req.Close? || (a.req.Write? && c.err >= -4) then -9 else c.err
  }

  /** In every run, at every step that signals op_completed. */
  lemma ReleaseReports(ws: seq<World>, acts: seq<Action>, i: nat)
    requires Run(ws, acts) && i < |acts| && ws[i + 1].c.signals > ws[i].c.signals
    ensures ws[i + 1].c.signals == ws[i].c.signals + 1 && Reports(ws[i], acts[i], ws[i + 1])
  {
    hide Chunk, Bytes, Init;
    RunInv(ws, acts, i);
  }

  /** And a step that releases nobody changes err only for a code it was handed: recv_tcp's or err_tcp's, the answer of
      tcp_output to a part of a write, or that of tcp_connect. */
  lemma ErrOtherwise(ws: seq<World>, acts: seq<Action>, i: nat)
    requires Run(ws, acts) && i < |acts| && ws[i + 1].c.signals == ws[i].c.signals
    ensures var (a, c) := (acts[i], ws[i].c);
            ws[i + 1].c.err ==
            if a.Call? && a.cb.Recv? then a.cb.recvErr
            else if a.Call? && a.cb.Err? then a.cb.lost
            else if Attempts(c, a) && a.ans.write == 0 then a.ans.output
            else if a.Issue? && a.req.Connect? then a.req.result
            else c.err
  {
    hide Chunk, Bytes, Init, Ending;
    RunInv(ws, acts, i);
  }

  lemma GoesOnWriting(w: World, a: Action, data: seq<byte>)
    requires Inv(w) && Enabled(w, a) && Do(w, a).c.signals == w.c.signals
    requires if a.Issue? then a.req == Write(data) else w.c.state == WRITE && w.c.writeMsg == Some(data)
    ensures var w' := Do(w, a);
            w'.c.state == WRITE && w'.c.writeMsg == Some(data) && w'.writes == w.writes
  {
    hide Chunk, Bytes, Ending, Noted;
  }

  lemma {:induction false} StillWriting(ws: seq<World>, acts: seq<Action>, i: nat, j: nat, data: seq<byte>)
    requires Run(ws, acts) && i < j < |ws| && acts[i].Issue? && acts[i].req == Write(data)
    requires NoRequest(acts, i + 1, j) && ws[j].c.signals == ws[i].c.signals
    ensures ws[j].c.state == WRITE && ws[j].c.writeMsg == Some(data) && ws[j].writes == ws[i].writes
    decreases j
  {
    hide Do, Enabled, Inv, Init;
    SignalsGrow(ws, acts, j - 1);
    SignalsNotLess(ws, acts, i, j - 1);
    RunInv(ws, acts, j - 1);
    if j > i + 1 {
      StillWriting(ws, acts, i, j - 1, data);
    }
    GoesOnWriting(ws[j - 1], acts[j - 1], data);
  }

  lemma {:induction false} SignalsNotLess(ws: seq<World>, acts: seq<Action>, i: nat, j: nat)
    requires Run(ws, acts) && i <= j < |ws|
    ensures ws[j].c.signals >= ws[i].c.signals
    decreases j
  {
    hide Do, Init, Enabled;
    if j > i {
      SignalsNotLess(ws, acts, i, j - 1);
      SignalsGrow(ws, acts, j - 1);
    }
  }

  /** The record of the write a releasing step ends. */
  lemma RecordOfRelease(w: World, a: Action)
    requires Inv(w) && Enabled(w, a) && Do(w, a).c.signals > w.c.signals && WriteOf(w.c, a).Some?
    ensures Do(w, a).writes == w.writes + [Ending(w.c, a)]
  {
    hide Bytes, Ending, Chunk;
  }

  lemma SameRecord(ws: seq<Written>, x: Written, y: Written)
    ensures ws + [x] == ws + [y] <==> x == y
    ensures ws + [x] != ws
  {
    assert (ws + [x])[|ws|] == x && (ws + [y])[|ws|] == y && |ws + [x]| == |ws| + 1;
  }

  /** netconn_write tells the truth: from the request at i to the step j that releases the caller, it reports ERR_OK if
      and only if all the data have been accepted and tcp_output did not fail on the last of them (err_tcp never
      carries ERR_OK). */
  lemma WriteReportsExactly(ws: seq<World>, acts: seq<Action>, i: nat, j: nat, data: seq<byte>)
    requires Run(ws, acts) && i <= j < |acts| && acts[i].Issue? && acts[i].req == Write(data)
    requires NoRequest(acts, i + 1, j + 1) && ws[j].c.signals == ws[i].c.signals < ws[j + 1].c.signals
    requires acts[j].Call? && acts[j].cb.Err? ==> acts[j].cb.lost != 0
    ensures ws[j + 1].c.err == 0 <==>
            ws[j + 1].writes == ws[i].writes + [Written(data, |data|, Finished)] && acts[j].ans.output == 0
  {
    hide Chunk, Bytes, Init;
    RunInv(ws, acts, i);
    RunInv(ws, acts, j);
    ReleaseReports(ws, acts, j);
    if i < j {
      StillWriting(ws, acts, i, j, data);
    }
    if WriteOf(ws[j].c, acts[j]).Some? {
      RecordOfRelease(ws[j], acts[j]);
      SameRecord(ws[i].writes, Ending(ws[j].c, acts[j]), Written(data, |data|, Finished));
    } else {
      SameRecord(ws[i].writes, Written(data, |data|, Finished), Written(data, |data|, Finished));
    }
  }

  // ----- events -----

  /** The events a step raises, read off the step itself. */
  ghost predicate Raises(c: Conn, a: Action, c': Conn)
  {
    var full := Attempts(c, a) && a.ans.write == 0 && a.ans.output == 0 && a.ans.sndbufAfter <= 1460;
    var space := a.Call? && a.cb.Sent? && c'.pcb.Some? && a.ans.sndbufAfter > 1460;
    var gone := (Shuts(c, a) && a.ans.close == 0) || (a.Issue? && a.req.Delete? && c.pcb.None?);
    var told := a.Call? && (a.cb.Err? || (a.cb.Recv? && a.cb.posted));
    c'.events == c.events +
      ((if full then [SendMinus] else if gone then [RcvPlus, SendPlus] else if told then [RcvPlus] else []) +
       (if space then [SendPlus] else []))
  }

  lemma AttemptRaises(c: Conn, a: Answers)
    requires Writing(c)
    ensures AfterWriteMore(c, a).events == c.events +
              (if a.write == 0 && a.output == 0 && a.sndbufAfter <= 1460 then [SendMinus] else [])
    ensures AfterWriteMore(c, a).pcb == c.pcb
  {
  }

  lemma CloseRaises(c: Conn, err: int)
    requires Closing(c)
    ensures AfterClose(c, err).events == c.events + (if err == 0 then [RcvPlus, SendPlus] else [])
    ensures AfterClose(c, err).pcb.Some? <==> err != 0
  {
  }

  lemma Regroup(a: seq<Event>, x: seq<Event>, y: seq<Event>)
    ensures (a + x) + y == a + (x + y)
  {
  }

  lemma StepRaises(w: World, a: Action)
    requires Inv(w) && Enabled(w, a)
    ensures Raises(w.c, a, Step(w.c, a))
  {
    hide AfterWriteMore, AfterClose, Counted, Streamed, Noted;
    var c := w.c;
    WritingOf(w);
    if Attempts(c, a) {
      var c0 := if a.Issue? then c.(state := WRITE, writeMsg := Some(a.req.data), writeOffset := 0) else c;
      AttemptRaises(c0, a.ans);
      Regroup(c.events, if a.ans.write == 0 && a.ans.output == 0 && a.ans.sndbufAfter <= 1460 then [SendMinus] else [],
              if a.ans.sndbufAfter > 1460 then [SendPlus] else []);
    } else if Shuts(c, a) {
      CloseRaises(c.(state := CLOSE), a.ans.close);
    }
  }

  lemma WritingOf(w: World)
    requires Inv(w)
    ensures w.c.state == WRITE ==> Writing(w.c)
  {
  }

  /** Over every run: SENDMINUS exactly when an accepted and sent chunk leaves at most 1460 bytes of send buffer,
      SENDPLUS exactly when acknowledged data leave more on a live connection, RCVPLUS exactly for a posted packet or
      an error, and both RCVPLUS and SENDPLUS when the connection has been closed. */
  lemma EventsExact(ws: seq<World>, acts: seq<Action>, i: nat)
    requires Run(ws, acts) && i < |acts|
    ensures Raises(ws[i].c, acts[i], ws[i + 1].c)
  {
    hide Inv, Init, Raises;
    RunInv(ws, acts, i);
    StepRaises(ws[i], acts[i]);
  }
}

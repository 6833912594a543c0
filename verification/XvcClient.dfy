/** What a client of the TCP server can rely on (Project/src/tcpserver.c, XVC_Interface): which frames are accepted,
    what the answers look like on the wire, and that erase, upload and download together give the file back. */
module XvcClient {
  import opened Bits
  import opened NorDevice
  import opened XvcSession

  // ----- accepting frames -----

  lemma HeadBytes(w: seq<byte>)
    requires |w| == 4
    ensures Word(w) == FRAME_HEAD <==> w == [0x55, 0x55, 0xAA, 0xAA]
  {
    Le32OfWord(w);
  }

  /** A frame whose head or checksum is wrong has no effect and no answer, and of the accepted ones only erase, write
      and read frames change the session. */
  lemma OnlyFlashCommandsAct(s: Session, f: seq<byte>, stored: nat)
    requires XvcSession.Valid(s) && WellFormed(f)
    ensures f[0..4] != [0x55, 0x55, 0xAA, 0xAA] || Word(f[|f| - 4..]) != Sum(f[..|f| - 4]) ==>
            Handle(s, f, stored) == (s, [])
    ensures Handle(s, f, stored).0 != s ==> Word(f[4..8]) in {1, 2, 3}
  {
    HeadBytes(f[0..4]);
  }

  lemma {:induction false} SumChanged(s: seq<byte>, i: nat, b: byte)
    requires i < |s|
    ensures Sum(s[i := b]) == Sum(s) - s[i] + b
  {
    var n := |s| - 1;
    var t := s[i := b];
    if i < n {
      SumChanged(s[..n], i, b);
      assert t[..n] == s[..n][i := b] && t[n] == s[n];
    } else {
      assert t[..n] == s[..n] && t[n] == b;
    }
  }

  /** Damage to a single byte of a good frame, wherever it is, is always noticed. */
  lemma DamageIsNoticed(f: seq<byte>, i: nat, b: byte)
    requires |f| >= 20 && Accepted(f) && i < |f| && b != f[i]
    ensures !Accepted(f[i := b])
  {
    var g := f[i := b];
    var n := |f| - 4;
    if i < n {
      SumChanged(f[..n], i, b);
      assert g[..n] == f[..n][i := b] && g[n..] == f[n..];
    } else {
      assert g[..n] == f[..n] && g[n..][i - n] == b && f[n..][i - n] == f[i];
      Le32OfWord(f[n..]);
      Le32OfWord(g[n..]);
    }
  }

  // ----- the answers -----

  /** A frame as a client accepts it: head, command, a size that fits, tail, and the byte sum of all that. */
  ghost predicate Answer(rsp: seq<byte>, cmd: byte)
  {
    20 <= |rsp| <= 916 && rsp[0..4] == [0x55, 0x55, 0xAA, 0xAA] && rsp[4..8] == [cmd, 0, 0, 0] &&
    Word(rsp[8..12]) == |rsp| - 20 && rsp[|rsp| - 8..|rsp| - 4] == [0xAA, 0xAA, 0x55, 0x55] &&
    Word(rsp[|rsp| - 4..]) == Sum(rsp[..|rsp| - 4])
  }

  lemma TitledBytes(b: SendBuf)
    ensures Titled(b)[0..4] == [0x55, 0x55, 0xAA, 0xAA] && Titled(b)[4..8] == [3, 0, 0, 0]
  {
    var head, cmd := Le32(FRAME_HEAD), Le32(CMD_READ);
    PutField(b, 0, head, 0, 4);
    PutField(Put(b, 0, head), 4, cmd, 0, 4);
  }

  lemma TailedBytes(b: SendBuf)
    requires Word(b[8..12]) <= DAT_MAX
    ensures var n := Word(b[8..12]);
            var rsp := Tailed(b)[..n + 20];
            rsp[..n + 12] == b[..n + 12] && rsp[n + 12..n + 16] == [0xAA, 0xAA, 0x55, 0x55] &&
            Word(rsp[n + 16..]) == Sum(rsp[..n + 16])
  {
    var n := Word(b[8..12]);
    var t := Put(b, 12 + n, Le32(FRAME_TAIL));
    SumBound(t[..n + 16]);
    var sum := Sum(t[..n + 16]);
    PutField(b, 12 + n, Le32(FRAME_TAIL), 0, 12 + n);
    PutField(t, 16 + n, Le32(sum), 0, 16 + n);
    var rsp := Tailed(b)[..n + 20];
    assert rsp[n + 16..] == Tailed(b)[n + 16..n + 20] && rsp[..n + 16] == Tailed(b)[..n + 16];
    assert rsp[..n + 12] == t[..n + 16][..n + 12] == t[..n + 12];
    assert rsp[n + 12..n + 16] == t[..n + 16][n + 12..] == t[12 + n..12 + n + 4];
    WordOfLe32(sum);
  }

  /** Every answer to a read request is a good frame, whatever the state of the session. */
  lemma ReadAnswer(s: Session, ack: nat)
    requires XvcSession.Valid(s)
    ensures Answer(StepRead(s, ack).1, 3)
  {
    hide Titled, Tailed, Loaded;
    var c := Started(s.core);
    var b := Filled(c, s.send, ack);
    var n := Word(b[8..12]);
    FilledSize(c, s.send, ack);
    TitledBytes(s.send);
    if TakesData(c, ack) {
      LoadedHead(Titled(s.send), Piece(c));
    }
    TailedBytes(b);
    var rsp := StepRead(s, ack).1;
    assert b[0..4] == b[..n + 12][0..4] == rsp[..n + 12][0..4] == rsp[0..4];
    assert b[4..8] == b[..n + 12][4..8] == rsp[..n + 12][4..8] == rsp[4..8];
    assert b[8..12] == b[..n + 12][8..12] == rsp[..n + 12][8..12] == rsp[8..12];
  }

  lemma LoadedHead(b: SendBuf, data: seq<byte>)
    requires |data| <= DAT_MAX
    ensures Loaded(b, data)[0..4] == b[0..4] && Loaded(b, data)[4..8] == b[4..8]
  {
    PutField(b, 12, data, 0, 4);
    PutField(b, 12, data, 4, 8);
    var t := Put(b, 12, data);
    PutField(t, 8, Le32(|data|), 0, 4);
    PutField(t, 8, Le32(|data|), 4, 8);
  }

  /** The answer to a write is a good frame that says 1. */
  lemma WriteAnswer()
    ensures Answer(WriteRsp(), 2) && WriteRsp()[12..16] == [1, 0, 0, 0]
  {
    var open := Header(CMD_WRITE, 4) + Le32(1);
    var t := open + Le32(FRAME_TAIL);
    SumBound(t);
    var rsp := WriteRsp();
    assert open == [0x55, 0x55, 0xAA, 0xAA, 2, 0, 0, 0, 4, 0, 0, 0, 1, 0, 0, 0];
    assert Le32(FRAME_TAIL) == [0xAA, 0xAA, 0x55, 0x55];
    assert rsp == t + Le32(Sum(t)) && rsp[..20] == t && rsp[20..] == Le32(Sum(t)) && |rsp| == 24;
    assert rsp[8..12] == Le32(4);
    WordOfLe32(4);
    WordOfLe32(Sum(t));
  }

  /** A request that takes no data branch, because exactly 896 bytes are left or its number is beyond the announced
      ones with less left, leaves an open session as it is and repeats what the last answer carried. */
  lemma StaleAnswer(s: Session, ack: nat)
    requires XvcSession.Valid(s) && s.core.setAddr
    requires s.core.readTotal == 896 || (s.core.readTotal < 896 && ack > s.core.ackCnt)
    ensures StepRead(s, ack).0.core == s.core
    ensures Payload(StepRead(s, ack).1) == s.send[12..12 + Word(s.send[8..12])]
  {
    hide Tailed;
    TitledSize(s.send);
    RspPayload(Titled(s.send));
    var n := Word(s.send[8..12]);
    assert Titled(s.send)[12..12 + n] == s.send[12..12 + n];
  }

  /** The first request of a session announces one answer for every piece of 896 bytes or less, and one more. */
  lemma Announcement(c: Core)
    requires !c.setAddr
    ensures Started(c) == c.(setAddr := true, readTotal := c.count, ackCnt := (c.count + 895) / 896 + 1)
  {
  }

  /** And while more than 896 bytes are left the request's number does not matter at all. */
  lemma NumberUnchecked(s: Session, ack: nat, other: nat)
    requires XvcSession.Valid(s) && s.core.setAddr && s.core.readTotal > 896
    ensures StepRead(s, ack) == StepRead(s, other)
    ensures StepRead(s, ack).0.core == s.core.(readTotal := s.core.readTotal - 896,
                                               readAddr := (s.core.readAddr + 896) % TWO_32)
  {
  }

  // ----- erase, upload, download -----

  /** The client's erase frame; the server looks at nothing behind the slot number. */
  function EraseFrame(size: nat, body: seq<byte>): seq<byte>
    requires size < TWO_32 && |body| < 60000
  {
    Closed(Header(CMD_ERASE, size) + body)
  }

  /** It leaves every cell at 255, the rest of the session as it was, and is not answered. */
  lemma EraseErases(s: Session, size: nat, body: seq<byte>, stored: nat)
    requires XvcSession.Valid(s) && size < TWO_32 && 8 <= |body| <= 2000
    ensures WellFormed(EraseFrame(size, body))
    ensures var (t, rsp) := Handle(s, EraseFrame(size, body), stored);
            rsp == [] && XvcSession.Valid(t) && t == s.(core := s.core.(mem := t.core.mem)) &&
            forall i :: 0 <= i < SIZE ==> t.core.mem[i] == 255
  {
    FrameFields(CMD_ERASE, size, body);
    forall i: nat | i < SIZE
      ensures Erased()[i] == 255
    {
      ErasedCells(i);
    }
  }

  lemma FileOnErased(mem: seq<byte>, file: seq<byte>, i: nat)
    requires |mem| == SIZE && |file| <= SIZE && i < SIZE && mem[i] == 255
    ensures FlatProgram(mem, 0, file)[i] == if i < |file| then file[i] else 255
  {
    FlatCells(mem, 0, file, i);
    if i < |file| {
      ErasedTakesData(file[i]);
    }
  }

  /** Erasing the chip, uploading a file in any chunks and downloading it gives the file back, whatever the array held
      before; it then holds the file and 255 everywhere else, and the session is at rest with the file's length. */
  lemma EraseUploadDownload(s: Session, size: nat, body: seq<byte>, up: seq<seq<byte>>, down: seq<seq<byte>>, cs: nat,
                            chunks: seq<seq<byte>>)
    requires XvcSession.Valid(s) && AtRest(s.core) && size < TWO_32 && 8 <= |body| <= 2000
    requires IsUpload(up, cs, 0, chunks) && IsDownload(down, cs, 1)
    requires |Joined(chunks)| <= SIZE && Finishable(|Joined(chunks)|) && |down| == Responses(|Joined(chunks)|)
    ensures WellFormed(EraseFrame(size, body)) && XvcSession.Valid(Handle(s, EraseFrame(size, body), 0).0)
    ensures AllWellFormed(up) && AllWellFormed(down) && WellFormed(WriteFrame(cs, 0, []))
    ensures var file, blank := Joined(chunks), Handle(s, EraseFrame(size, body), 0).0;
            var sent := Serve(blank, up, 0).0;
            var kept := Handle(sent, WriteFrame(cs, 0, []), sent.core.writeAddr).0;
            XvcSession.Valid(kept) && var (last, data) := Serve(kept, down, 0);
            data == file && AtRest(last.core) && last.core.count == |file| &&
            forall i :: 0 <= i < SIZE ==> last.core.mem[i] == if i < |file| then file[i] else 255
  {
    hide Handle, Serve, FlatProgram, AllWellFormed, IsUpload, IsDownload, WriteFrame;
    EraseErases(s, size, body, 0);
    var blank := Handle(s, EraseFrame(size, body), 0).0;
    UploadThenDownload(blank, up, down, cs, chunks);
    forall i: nat | i < SIZE
      ensures FlatProgram(blank.core.mem, 0, Joined(chunks))[i] ==
              if i < |Joined(chunks)| then Joined(chunks)[i] else 255
    {
      FileOnErased(blank.core.mem, Joined(chunks), i);
    }
  }
}

/** The command sessions of the TCP server (Project/src/tcpserver.c, XVC_Interface): a file is uploaded in
    chunks, its length stored on-chip, and downloaded again in 896-byte pieces. */
module XvcSession {
  import opened Bits
  import opened NorDevice

  const FRAME_HEAD: nat := 0xAAAA5555
  const FRAME_TAIL: nat := 0x5555AAAA
  const DAT_MAX: nat := 896         // ICD_DAT_MAX_SIZE
  const CHUNK_MAX: nat := 888       // ICD_FILEDAT_MAX_SIZE
  const SEND_SIZE: nat := 1024

  const CMD_ERASE: nat := 1
  const CMD_WRITE: nat := 2
  const CMD_READ: nat := 3

  type SendBuf = b: seq<byte> | |b| == SEND_SIZE witness seq(SEND_SIZE, _ => 0)

  /** The session globals, the flash array and the stored file length. */
  datatype Core = Core(mem: seq<byte>, count: nat, writeAddr: nat, readAddr: nat, readTotal: nat,
                       ackCnt: nat, setAddr: bool)

  datatype Session = Session(core: Core, send: SendBuf)

  ghost predicate Valid(s: Session)
  {
    |s.core.mem| == SIZE && s.core.count < TWO_32 && Word(s.send[8..12]) <= DAT_MAX
  }

  // ----- what the commands do to the session -----

  /** ICD_CMD_WRITE; stored is what the length word reads after a terminator tried to store it. */
  function Written(c: Core, size: nat, dat: seq<byte>, stored: nat): Core
    requires |c.mem| == SIZE
  {
    if size != 8 then
      c.(setAddr := true, mem := FlatProgram(c.mem, c.writeAddr, dat), writeAddr := (c.writeAddr + |dat|) % TWO_32)
    else
      c.(setAddr := false, count := stored, writeAddr := 0)
  }

  /** The first read of a session fetches the length and announces the number of responses. */
  function Started(c: Core): Core
  {
    if c.setAddr then c
    else c.(setAddr := true, readTotal := c.count,
            ackCnt := if c.count % DAT_MAX != 0 then c.count / DAT_MAX + 2 else c.count / DAT_MAX + 1)
  }

  predicate TakesData(c: Core, ack: nat)
  {
    c.readTotal > DAT_MAX || (c.ackCnt >= ack && c.readTotal < DAT_MAX)
  }

  function Piece(c: Core): (d: seq<byte>)
    requires |c.mem| == SIZE
    ensures |d| <= DAT_MAX
  {
    ReadBack(c.mem, c.readAddr, if c.readTotal > DAT_MAX then DAT_MAX else c.readTotal)
  }

  /** The two data branches; a remainder of exactly 896 takes neither, nor does a request beyond the
      announced number once at most one piece is left. */
  function Advanced(c: Core, ack: nat): Core
  {
    if c.readTotal > DAT_MAX then
      c.(readAddr := (c.readAddr + DAT_MAX) % TWO_32, readTotal := c.readTotal - DAT_MAX)
    else if c.ackCnt >= ack && c.readTotal < DAT_MAX then
      if c.readTotal == 0 then c.(setAddr := false, readAddr := 0, ackCnt := 0) else c.(readTotal := 0)
    else c
  }

  // ----- upload and download on the session alone -----

  ghost predicate Chunks(chunks: seq<seq<byte>>)
  {
    forall i :: 0 <= i < |chunks| ==> 1 <= |chunks[i]| <= CHUNK_MAX
  }

  ghost function Uploaded(c: Core, chunks: seq<seq<byte>>): (t: Core)
    requires |c.mem| == SIZE
    ensures |t.mem| == SIZE
    decreases |chunks|
  {
    if chunks == [] then c else Uploaded(Written(c, |chunks[0]| + 8, chunks[0], 0), chunks[1..])
  }

  lemma NothingWritten(mem: seq<byte>, addr: nat)
    requires |mem| == SIZE
    ensures FlatProgram(mem, addr, []) == mem
  {
  }

  /** An upload writes the concatenation of its chunks to consecutive addresses. */
  lemma {:induction false} UploadWritesFlat(c: Core, chunks: seq<seq<byte>>)
    requires |c.mem| == SIZE && Chunks(chunks)
    requires c.writeAddr + |Joined(chunks)| <= SIZE
    ensures Uploaded(c, chunks) ==
            c.(setAddr := c.setAddr || chunks != [], mem := FlatProgram(c.mem, c.writeAddr, Joined(chunks)),
               writeAddr := c.writeAddr + |Joined(chunks)|)
    decreases |chunks|
  {
    hide FlatProgram;
    if chunks == [] {
      NothingWritten(c.mem, c.writeAddr);
    } else {
      var t := Written(c, |chunks[0]| + 8, chunks[0], 0);
      UploadWritesFlat(t, chunks[1..]);
      FlatSplit(c.mem, c.writeAddr, chunks[0], Joined(chunks[1..]));
    }
  }

  /** n read requests numbered from first on, and the data they yield. */
  ghost function Download(c: Core, first: nat, n: nat): (r: (Core, seq<byte>))
    requires |c.mem| == SIZE
    ensures |r.0.mem| == SIZE
    decreases n
  {
    if n == 0 then (c, [])
    else
      var s := Started(c);
      var (t, data) := Download(Advanced(s, first), first + 1, n - 1);
      (t, (if TakesData(s, first) then Piece(s) else []) + data)
  }

  /** Every one of these requests takes a data branch. */
  ghost predicate Flowing(c: Core, first: nat, n: nat)
    decreases n
  {
    n == 0 ||
    (TakesData(Started(c), first) && Flowing(Advanced(Started(c), first), first + 1, n - 1))
  }

  lemma FlowingOnce(c: Core, first: nat, n: nat) returns (t: Core, d: seq<byte>)
    requires |c.mem| == SIZE && n > 0 && Flowing(c, first, n)
    ensures |t.mem| == SIZE && t == Advanced(Started(c), first) && d == Piece(Started(c))
    ensures TakesData(Started(c), first) && Flowing(t, first + 1, n - 1)
    ensures Download(c, first, n) == (Download(t, first + 1, n - 1).0, d + Download(t, first + 1, n - 1).1)
  {
    t, d := Advanced(Started(c), first), Piece(Started(c));
  }

  /** Responses a session still owes for r remaining bytes. */
  function Responses(r: nat): nat
  {
    if r == 0 then 1 else r / DAT_MAX + 2
  }

  lemma ReadBackSplit(mem: seq<byte>, addr: nat, m: nat, n: nat)
    requires |mem| == SIZE
    ensures ReadBack(mem, addr, m) + ReadBack(mem, addr + m, n) == ReadBack(mem, addr, m + n)
  {
  }

  /** A length the sessions can finish: zero, or not a multiple of the piece size. */
  predicate Finishable(r: nat)
  {
    r == 0 || r % DAT_MAX != 0
  }

  lemma OneLess(r: nat)
    requires r > DAT_MAX && Finishable(r)
    ensures Finishable(r - DAT_MAX) && r - DAT_MAX > 0 && Responses(r - DAT_MAX) == Responses(r) - 1
  {
  }

  /** The 32-bit address variable wraps at a multiple of the array size, so the bytes read are the same. */
  lemma ReadBackWraps(mem: seq<byte>, addr: nat, n: nat)
    requires |mem| == SIZE
    ensures ReadBack(mem, addr % TWO_32, n) == ReadBack(mem, addr, n)
  {
    forall i | 0 <= i < n
      ensures ReadBack(mem, addr % TWO_32, n)[i] == ReadBack(mem, addr, n)[i]
    {
      SameCell(addr, i);
    }
  }

  lemma SameCell(addr: nat, i: nat)
    ensures (addr % TWO_32 + i) % SIZE == (addr + i) % SIZE
  {
    var q := addr / TWO_32;
    assert addr + i == (addr % TWO_32 + i) + SIZE * (256 * q);
    ModShift(addr % TWO_32 + i, 256 * q);
  }

  lemma ModShift(x: int, q: int)
    ensures (x + SIZE * q) % SIZE == x % SIZE
  {
  }

  /** From an open session the announced number of requests delivers exactly the remaining bytes and closes it,
      whatever the length; beyond the end of the array the bytes start again from its beginning. */
  lemma {:induction false} DownloadRest(c: Core, first: nat)
    requires |c.mem| == SIZE && c.setAddr && Finishable(c.readTotal)
    requires first + Responses(c.readTotal) <= c.ackCnt + 1
    ensures var n := Responses(c.readTotal);
            Flowing(c, first, n) &&
            Download(c, first, n) ==
              (c.(setAddr := false, readAddr := 0, readTotal := 0, ackCnt := 0),
               ReadBack(c.mem, c.readAddr, c.readTotal))
    decreases c.readTotal
  {
    var t := Advanced(c, first);
    if c.readTotal > DAT_MAX {
      OneLess(c.readTotal);
      DownloadRest(t, first + 1);
      ReadBackSplit(c.mem, c.readAddr, DAT_MAX, c.readTotal - DAT_MAX);
      ReadBackWraps(c.mem, c.readAddr + DAT_MAX, c.readTotal - DAT_MAX);
    } else if c.readTotal > 0 {
      assert c.readTotal < DAT_MAX;
      DownloadRest(t, first + 1);
      assert Piece(c) + [] == Piece(c);
    } else {
      assert Download(t, first + 1, 0) == (t, []);
      assert Piece(c) + [] == Piece(c) == ReadBack(c.mem, c.readAddr, 0);
    }
  }

  /** Fewer requests leave the session open. */
  lemma {:induction false} DownloadStaysOpen(c: Core, first: nat, n: nat)
    requires |c.mem| == SIZE && c.setAddr && Finishable(c.readTotal)
    requires n < Responses(c.readTotal) && first + Responses(c.readTotal) <= c.ackCnt + 1
    ensures Download(c, first, n).0.setAddr
    decreases n
  {
    if n > 0 {
      if c.readTotal > DAT_MAX {
        OneLess(c.readTotal);
      }
      DownloadStaysOpen(Advanced(c, first), first + 1, n - 1);
    }
  }

  /** A positive multiple of 896: whatever request numbers the client uses, the session never ends. */
  ghost predicate Stuck(c: Core)
  {
    c.setAddr && c.readTotal >= DAT_MAX && c.readTotal % DAT_MAX == 0
  }

  ghost function Requested(c: Core, acks: seq<nat>): Core
    decreases |acks|
  {
    if acks == [] then c else Requested(Advanced(Started(c), acks[0]), acks[1..])
  }

  lemma {:induction false} StuckForever(c: Core, acks: seq<nat>)
    requires Stuck(c)
    ensures Stuck(Requested(c, acks))
    ensures c.readTotal == DAT_MAX ==> Requested(c, acks) == c
    ensures |acks| >= c.readTotal / DAT_MAX - 1 ==> Requested(c, acks).readTotal == DAT_MAX
    decreases |acks|
  {
    if acks != [] {
      var t := Advanced(c, acks[0]);
      StuckStep(c, acks[0]);
      StuckForever(t, acks[1..]);
    } else {
      assert c.readTotal / DAT_MAX <= 1 ==> c.readTotal == DAT_MAX;
    }
  }

  lemma StuckStep(c: Core, ack: nat)
    requires Stuck(c)
    ensures Stuck(Advanced(c, ack))
    ensures c.readTotal == DAT_MAX ==> Advanced(c, ack) == c
    ensures c.readTotal > DAT_MAX ==> Advanced(c, ack).readTotal / DAT_MAX == c.readTotal / DAT_MAX - 1
  {
  }

  /** No session is running. */
  ghost predicate AtRest(c: Core)
  {
    !c.setAddr && c.writeAddr == 0 && c.readAddr == 0 && c.readTotal == 0 && c.ackCnt == 0
  }

  function Numbers(n: nat): (r: seq<nat>)
    ensures |r| == n
  {
    seq(n, i => i + 1)
  }

  /** Whatever length is stored, the 0xFFFFFFFF of an erased word included: a download ends after exactly
      Responses(length) requests numbered 1, 2, 3, ... when the length is zero or not a multiple of 896; for a positive
      multiple no requests at all end it. */
  lemma DownloadEnds(c: Core)
    requires |c.mem| == SIZE && AtRest(c)
    ensures Finishable(c.count) <==> exists acks: seq<nat> :: acks != [] && !Requested(c, acks).setAddr
    ensures Finishable(c.count) ==>
      !Download(c, 1, Responses(c.count)).0.setAddr &&
      forall n :: 0 < n < Responses(c.count) ==> Download(c, 1, n).0.setAddr
  {
    var s := Started(c);
    if Finishable(c.count) {
      AnnouncedCount(c);
      DownloadRest(s, 1);
      SameStart(c, 1, Responses(c.count));
      forall n | 0 < n < Responses(c.count)
        ensures Download(c, 1, n).0.setAddr
      {
        DownloadStaysOpen(s, 1, n);
        SameStart(c, 1, n);
      }
      var acks := Numbers(Responses(c.count));
      RequestedIsDownload(c, 1, acks);
      assert !Requested(c, acks).setAddr;
    } else {
      forall acks: seq<nat> | acks != []
        ensures Requested(c, acks).setAddr
      {
        StuckForever(s, acks);
        assert Requested(c, acks) == Requested(s, acks);
      }
    }
  }

  lemma AnnouncedCount(c: Core)
    requires !c.setAddr && Finishable(c.count)
    ensures Started(c).ackCnt == Responses(c.count)
  {
  }

  /** The session opens with the first request, whether that happens before or inside it. */
  lemma SameStart(c: Core, first: nat, n: nat)
    requires |c.mem| == SIZE && n > 0
    ensures Download(c, first, n) == Download(Started(c), first, n)
    ensures Flowing(c, first, n) == Flowing(Started(c), first, n)
  {
  }

  lemma {:induction false} RequestedIsDownload(c: Core, first: nat, acks: seq<nat>)
    requires |c.mem| == SIZE
    requires forall i :: 0 <= i < |acks| ==> acks[i] == first + i
    ensures Requested(c, acks) == Download(c, first, |acks|).0
    decreases |acks|
  {
    if acks != [] {
      RequestedIsDownload(Advanced(Started(c), first), first + 1, acks[1..]);
    }
  }

  // ----- frames -----

  /** Closes a frame: tail word, then the byte sum of everything before it. */
  function Closed(open: seq<byte>): (f: seq<byte>)
    requires |open| < 65000
    ensures |f| == |open| + 8
  {
    var t := open + Le32(FRAME_TAIL);
    SumBound(t);
    t + Le32(Sum(t))
  }

  function Header(cmd: nat, size: nat): (h: seq<byte>)
    requires cmd < TWO_32 && size < TWO_32
    ensures |h| == 12
  {
    Le32(FRAME_HEAD) + Le32(cmd) + Le32(size)
  }

  /** The client's upload frame for one chunk; an empty chunk ends the upload. */
  function WriteFrame(cs: nat, ack: nat, chunk: seq<byte>): seq<byte>
    requires cs < TWO_32 && ack < TWO_32 && |chunk| <= CHUNK_MAX
  {
    Closed(Header(CMD_WRITE, |chunk| + 8) + (Le32(cs) + Le32(ack) + chunk))
  }

  /** The client's request number ack for the next piece. */
  function ReadFrame(cs: nat, ack: nat): seq<byte>
    requires cs < TWO_32 && ack < TWO_32
  {
    Closed(Header(CMD_READ, 8) + (Le32(cs) + Le32(ack)))
  }

  /** Only the head word and the checksum are verified. */
  predicate Accepted(f: seq<byte>)
    requires |f| >= 20
  {
    Word(f[0..4]) == FRAME_HEAD && Sum(f[..|f| - 4]) == Word(f[|f| - 4..])
  }

  /** A write frame's size field covers its two words and data that lie inside the frame. */
  ghost predicate WellFormed(f: seq<byte>)
  {
    20 <= |f| <= 2048 && (Accepted(f) && Word(f[4..8]) == CMD_WRITE ==> 8 <= Word(f[8..12]) <= |f| - 12)
  }

  /** What the client takes out of a read response. */
  function Payload(rsp: seq<byte>): seq<byte>
  {
    if |rsp| >= 12 && 12 + Word(rsp[8..12]) <= |rsp| then rsp[12..12 + Word(rsp[8..12])] else []
  }

  function WriteRsp(): seq<byte>
  {
    Closed(Header(CMD_WRITE, 4) + Le32(1))
  }

  // ----- the send buffer -----

  function Titled(b: SendBuf): SendBuf
  {
    Put(Put(b, 0, Le32(FRAME_HEAD)), 4, Le32(CMD_READ))
  }

  function Loaded(b: SendBuf, data: seq<byte>): SendBuf
    requires |data| <= DAT_MAX
  {
    Put(Put(b, 12, data), 8, Le32(|data|))
  }

  function Tailed(b: SendBuf): SendBuf
    requires Word(b[8..12]) <= DAT_MAX
  {
    var n := Word(b[8..12]);
    var t := Put(b, 12 + n, Le32(FRAME_TAIL));
    SumBound(t[..n + 16]);
    Put(t, 16 + n, Le32(Sum(t[..n + 16])))
  }

  lemma LoadedSize(b: SendBuf, data: seq<byte>)
    requires |data| <= DAT_MAX
    ensures Loaded(b, data)[8..12] == Le32(|data|) && Word(Loaded(b, data)[8..12]) == |data|
    ensures Loaded(b, data)[12..12 + |data|] == data
  {
  }

  lemma TitledSize(b: SendBuf)
    ensures Titled(b)[8..12] == b[8..12]
  {
  }

  lemma TailedKeeps(b: SendBuf, i: nat, j: nat)
    requires Word(b[8..12]) <= DAT_MAX && i <= j <= 12 + Word(b[8..12])
    ensures Tailed(b)[i..j] == b[i..j]
  {
  }

  lemma RspPayload(b: SendBuf)
    requires Word(b[8..12]) <= DAT_MAX
    ensures var n := Word(b[8..12]);
            Payload(Tailed(b)[..n + 20]) == b[12..12 + n]
  {
  }

  /** The buffer before the closing words: new data when a branch takes some, else whatever was there. */
  function Filled(c: Core, b: SendBuf, ack: nat): SendBuf
    requires |c.mem| == SIZE
  {
    if TakesData(c, ack) then Loaded(Titled(b), Piece(c)) else Titled(b)
  }

  lemma FilledSize(c: Core, b: SendBuf, ack: nat)
    requires |c.mem| == SIZE && Word(b[8..12]) <= DAT_MAX
    ensures Word(Filled(c, b, ack)[8..12]) <= DAT_MAX
  {
    TitledSize(b);
    LoadedSize(Titled(b), Piece(c));
  }

  /** ICD_CMD_READ. */
  function StepRead(s: Session, ack: nat): (Session, seq<byte>)
    requires Valid(s)
  {
    var c := Started(s.core);
    FilledSize(c, s.send, ack);
    var b := Filled(c, s.send, ack);
    (Session(Advanced(c, ack), Tailed(b)), Tailed(b)[..Word(b[8..12]) + 20])
  }

  lemma StepReadValid(s: Session, ack: nat)
    requires Valid(s)
    ensures Valid(StepRead(s, ack).0)
  {
    var c := Started(s.core);
    FilledSize(c, s.send, ack);
    TailedKeeps(Filled(c, s.send, ack), 8, 12);
  }

  /** A request that takes a data branch is answered with exactly that piece. */
  lemma StepReadData(s: Session, ack: nat)
    requires Valid(s) && TakesData(Started(s.core), ack)
    ensures Payload(StepRead(s, ack).1) == Piece(Started(s.core))
  {
    var c := Started(s.core);
    FilledSize(c, s.send, ack);
    RspPayload(Filled(c, s.send, ack));
    LoadedSize(Titled(s.send), Piece(c));
  }

  /** The switch of XVC_Interface, restricted to the flash commands. */
  function Executed(s: Session, f: seq<byte>, stored: nat): (Session, seq<byte>)
    requires Valid(s) && |f| >= 20 && (Word(f[4..8]) == CMD_WRITE ==> 8 <= Word(f[8..12]) <= |f| - 12)
  {
    var cmd, size := Word(f[4..8]), Word(f[8..12]);
    if cmd == CMD_ERASE then (s.(core := s.core.(mem := Erased())), [])
    else if cmd == CMD_WRITE then (s.(core := Written(s.core, size, f[20..size + 12], stored)), WriteRsp())
    else if cmd == CMD_READ then StepRead(s, Word(f[16..20]))
    else (s, [])
  }

  /** A complete frame; a rejected one changes nothing and is not answered. */
  function Handle(s: Session, f: seq<byte>, stored: nat): (Session, seq<byte>)
    requires Valid(s) && WellFormed(f)
  {
    if Accepted(f) then Executed(s, f, stored) else (s, [])
  }

  // ----- any buffer and any length -----

  /** XVC_Interface on memory as it is: four bytes in front of the receive buffer, the buffer, and the length it is
      called with, which may be shorter than any frame.  The checksum word is read in front of the end, if need be in
      front of the buffer; a short frame's fields are whatever the buffer still holds. */
  function CheckWord(before: seq<byte>, buf: seq<byte>, length: nat): nat
    requires |before| == 4 && length <= |buf|
  {
    Word((before + buf)[length..length + 4])
  }

  predicate AcceptedAt(before: seq<byte>, buf: seq<byte>, length: nat)
    requires |before| == 4 && length <= |buf| && |buf| >= 20
  {
    Word(buf[0..4]) == FRAME_HEAD && Sum(buf[..if length < 4 then 0 else length - 4]) == CheckWord(before, buf, length)
  }

  /** The data of an accepted write lies inside the buffer, not necessarily inside the frame. */
  ghost predicate Contained(before: seq<byte>, buf: seq<byte>, length: nat)
  {
    |before| == 4 && length <= |buf| && 20 <= |buf| <= 2048 &&
    (AcceptedAt(before, buf, length) && Word(buf[4..8]) == CMD_WRITE ==> 8 <= Word(buf[8..12]) <= |buf| - 12)
  }

  function HandleAt(s: Session, before: seq<byte>, buf: seq<byte>, length: nat, stored: nat): (Session, seq<byte>)
    requires Valid(s) && Contained(before, buf, length)
  {
    if AcceptedAt(before, buf, length) then Executed(s, buf, stored) else (s, [])
  }

  /** A complete frame is handled the same whatever lies in front of the buffer and behind the frame. */
  lemma HandleAtFrame(s: Session, before: seq<byte>, buf: seq<byte>, length: nat, stored: nat)
    requires Valid(s) && Contained(before, buf, length) && length >= 20 && WellFormed(buf[..length])
    ensures HandleAt(s, before, buf, length, stored) == Handle(s, buf[..length], stored)
  {
    var f := buf[..length];
    assert f[0..4] == buf[0..4] && f[4..8] == buf[4..8] && f[8..12] == buf[8..12] && f[16..20] == buf[16..20];
    assert f[..|f| - 4] == buf[..length - 4];
    assert (before + buf)[length..length + 4] == f[|f| - 4..];
    if Accepted(f) && Word(f[4..8]) == CMD_WRITE {
      assert f[20..Word(f[8..12]) + 12] == buf[20..Word(f[8..12]) + 12];
    }
  }

  /** Without a single received byte the handler still accepts, exactly when an old head is in the buffer and the four
      bytes in front of it are zero. */
  lemma EmptyFrameAccepted(before: seq<byte>, buf: seq<byte>)
    requires |before| == 4 && |buf| >= 20
    ensures AcceptedAt(before, buf, 0) <==> Word(buf[0..4]) == FRAME_HEAD && before == [0, 0, 0, 0]
  {
    assert (before + buf)[0..4] == before;
    Le32OfWord(before);
    assert Le32(0) == [0, 0, 0, 0];
  }

  /** Every handled frame leaves a usable session. */
  lemma HandleValid(s: Session, f: seq<byte>, stored: nat)
    requires Valid(s) && WellFormed(f) && stored < TWO_32
    ensures Valid(Handle(s, f, stored).0)
  {
    if Accepted(f) && Word(f[4..8]) == CMD_READ {
      StepReadValid(s, Word(f[16..20]));
    }
  }

  lemma FrameFields(cmd: nat, size: nat, body: seq<byte>)
    requires cmd < TWO_32 && size < TWO_32 && 8 <= |body| < 60000
    ensures var f := Closed(Header(cmd, size) + body);
            Word(f[0..4]) == FRAME_HEAD && Word(f[4..8]) == cmd && Word(f[8..12]) == size &&
            f[12..12 + |body|] == body && Accepted(f)
  {
  }

  /** The server decodes the client's upload frame to exactly its chunk. */
  lemma HandleWrite(s: Session, cs: nat, ack: nat, chunk: seq<byte>, stored: nat)
    requires Valid(s) && cs < TWO_32 && ack < TWO_32 && |chunk| <= CHUNK_MAX
    ensures var f := WriteFrame(cs, ack, chunk);
            WellFormed(f) &&
            Handle(s, f, stored) == (s.(core := Written(s.core, |chunk| + 8, chunk, stored)), WriteRsp())
  {
    var body := Le32(cs) + Le32(ack) + chunk;
    FrameFields(CMD_WRITE, |chunk| + 8, body);
    var f := WriteFrame(cs, ack, chunk);
    assert f[20..20 + |chunk|] == f[12..12 + |body|][8..] == chunk;
  }

  /** The server decodes the client's read frame to exactly its request number. */
  lemma HandleRead(s: Session, cs: nat, ack: nat, stored: nat)
    requires Valid(s) && cs < TWO_32 && ack < TWO_32
    ensures WellFormed(ReadFrame(cs, ack)) && Handle(s, ReadFrame(cs, ack), stored) == StepRead(s, ack)
  {
    var body := Le32(cs) + Le32(ack);
    FrameFields(CMD_READ, 8, body);
    var f := ReadFrame(cs, ack);
    assert f[16..20] == f[12..12 + |body|][4..8] == Le32(ack);
    WordOfLe32(ack);
  }

  // ----- whole conversations -----

  ghost predicate AllWellFormed(frames: seq<seq<byte>>)
  {
    forall i :: 0 <= i < |frames| ==> WellFormed(frames[i])
  }

  /** The server handles a sequence of frames; the client concatenates the data of the answers. */
  ghost function Serve(s: Session, frames: seq<seq<byte>>, stored: nat): (r: (Session, seq<byte>))
    requires Valid(s) && AllWellFormed(frames) && stored < TWO_32
    ensures Valid(r.0)
    decreases |frames|
  {
    if frames == [] then (s, [])
    else
      HandleValid(s, frames[0], stored);
      var (t, rsp) := Handle(s, frames[0], stored);
      var (u, data) := Serve(t, frames[1..], stored);
      (u, Payload(rsp) + data)
  }

  /** The client's upload: one frame per chunk, numbered from first on. */
  ghost predicate IsUpload(frames: seq<seq<byte>>, cs: nat, first: nat, chunks: seq<seq<byte>>)
  {
    cs < TWO_32 && first + |frames| <= TWO_32 && |frames| == |chunks| && Chunks(chunks) &&
    forall i :: 0 <= i < |frames| ==> frames[i] == WriteFrame(cs, first + i, chunks[i])
  }

  /** The client's requests numbered from first on. */
  ghost predicate IsDownload(frames: seq<seq<byte>>, cs: nat, first: nat)
  {
    cs < TWO_32 && first + |frames| <= TWO_32 &&
    forall i :: 0 <= i < |frames| ==> frames[i] == ReadFrame(cs, first + i)
  }

  lemma UploadWellFormed(s: Session, frames: seq<seq<byte>>, cs: nat, first: nat, chunks: seq<seq<byte>>)
    requires Valid(s) && IsUpload(frames, cs, first, chunks)
    ensures AllWellFormed(frames)
  {
  }

  lemma DownloadWellFormed(s: Session, frames: seq<seq<byte>>, cs: nat, first: nat)
    requires Valid(s) && IsDownload(frames, cs, first)
    ensures AllWellFormed(frames)
  {
  }

  lemma ServeWrite(s: Session, frames: seq<seq<byte>>, cs: nat, first: nat, chunks: seq<seq<byte>>, stored: nat)
    returns (t: Session)
    requires Valid(s) && AllWellFormed(frames) && stored < TWO_32 && frames != []
    requires IsUpload(frames, cs, first, chunks)
    ensures Valid(t) && t == s.(core := Written(s.core, |chunks[0]| + 8, chunks[0], 0))
    ensures Serve(s, frames, stored).0 == Serve(t, frames[1..], stored).0
  {
    HandleWrite(s, cs, first, chunks[0], stored);
    HandleValid(s, frames[0], stored);
    t := Handle(s, frames[0], stored).0;
  }

  lemma {:induction false} ServeIsUploaded(s: Session, frames: seq<seq<byte>>, cs: nat, first: nat,
                                           chunks: seq<seq<byte>>, stored: nat)
    requires Valid(s) && AllWellFormed(frames) && stored < TWO_32 && IsUpload(frames, cs, first, chunks)
    ensures Serve(s, frames, stored).0 == s.(core := Uploaded(s.core, chunks))
    decreases |chunks|
  {
    if chunks != [] {
      var t := ServeWrite(s, frames, cs, first, chunks, stored);
      ServeIsUploaded(t, frames[1..], cs, first + 1, chunks[1..], stored);
    }
  }

  /** One exchange of a download, with the frames already decoded. */
  lemma ServeRead(s: Session, frames: seq<seq<byte>>, cs: nat, first: nat, stored: nat)
    returns (t: Session, d: seq<byte>)
    requires Valid(s) && AllWellFormed(frames) && stored < TWO_32 && frames != [] && IsDownload(frames, cs, first)
    requires TakesData(Started(s.core), first)
    ensures Valid(t) && t.core == Advanced(Started(s.core), first) && d == Piece(Started(s.core))
    ensures Serve(s, frames, stored) ==
            (Serve(t, frames[1..], stored).0, d + Serve(t, frames[1..], stored).1)
  {
    HandleRead(s, cs, first, stored);
    HandleValid(s, frames[0], stored);
    StepReadData(s, first);
    t, d := StepRead(s, first).0, Payload(StepRead(s, first).1);
  }

  ghost predicate Agree(served: (Session, seq<byte>), core: (Core, seq<byte>))
  {
    served.0.core == core.0 && served.1 == core.1
  }

  lemma DownloadTail(frames: seq<seq<byte>>, cs: nat, first: nat)
    requires AllWellFormed(frames) && IsDownload(frames, cs, first) && frames != []
    ensures AllWellFormed(frames[1..]) && IsDownload(frames[1..], cs, first + 1)
  {
  }

  /** The frames carry the download: same sessions, same data. */
  lemma {:induction false} ServeIsDownload(s: Session, frames: seq<seq<byte>>, cs: nat, first: nat, stored: nat)
    requires Valid(s) && AllWellFormed(frames) && stored < TWO_32 && IsDownload(frames, cs, first)
    requires Flowing(s.core, first, |frames|)
    ensures Agree(Serve(s, frames, stored), Download(s.core, first, |frames|))
    decreases |frames|
  {
    if frames != [] {
      var rest := frames[1..];
      var u, piece := FlowingOnce(s.core, first, |frames|);
      var t, d := ServeRead(s, frames, cs, first, stored);
      DownloadTail(frames, cs, first);
      ServeIsDownload(t, rest, cs, first + 1, stored);
      assert Agree(Serve(t, rest, stored), Download(u, first + 1, |rest|));
    }
  }

  /** The upload half: the terminator leaves the session at rest with the file in the array. */
  lemma UploadLeaves(s: Session, frames: seq<seq<byte>>, cs: nat, chunks: seq<seq<byte>>) returns (kept: Session)
    requires Valid(s) && IsUpload(frames, cs, 0, chunks) && AtRest(s.core) && |Joined(chunks)| <= SIZE
    ensures Valid(kept)
    ensures kept.core == s.core.(mem := FlatProgram(s.core.mem, 0, Joined(chunks)), count := |Joined(chunks)|)
    ensures AllWellFormed(frames) && WellFormed(WriteFrame(cs, 0, []))
    ensures var sent := Serve(s, frames, 0).0;
            sent.core.writeAddr == |Joined(chunks)| && Handle(sent, WriteFrame(cs, 0, []), |Joined(chunks)|).0 == kept
  {
    UploadWellFormed(s, frames, cs, 0, chunks);
    ServeIsUploaded(s, frames, cs, 0, chunks, 0);
    UploadWritesFlat(s.core, chunks);
    var sent := Serve(s, frames, 0).0;
    HandleWrite(sent, cs, 0, [], |Joined(chunks)|);
    HandleValid(sent, WriteFrame(cs, 0, []), |Joined(chunks)|);
    kept := Handle(sent, WriteFrame(cs, 0, []), |Joined(chunks)|).0;
  }

  /** The download half: the announced number of read frames yields the stored bytes and ends the session. */
  lemma DownloadReturns(s: Session, frames: seq<seq<byte>>, cs: nat)
    requires Valid(s) && AtRest(s.core) && Finishable(s.core.count)
    requires IsDownload(frames, cs, 1) && |frames| == Responses(s.core.count)
    ensures AllWellFormed(frames)
    ensures var (last, data) := Serve(s, frames, 0);
            data == ReadBack(s.core.mem, 0, s.core.count) && last.core == s.core
  {
    DownloadWellFormed(s, frames, cs, 1);
    AnnouncedCount(s.core);
    DownloadRest(Started(s.core), 1);
    SameStart(s.core, 1, |frames|);
    ServeIsDownload(s, frames, cs, 1, 0);
  }

  lemma ErasedThenRead(mem: seq<byte>, file: seq<byte>)
    requires |mem| == SIZE && |file| <= SIZE && forall i :: 0 <= i < |file| ==> mem[i] == 255
    ensures ReadBack(FlatProgram(mem, 0, file), 0, |file|) == file
  {
    forall i | 0 <= i < |file|
      ensures ReadBack(mem, 0, |file|)[i] == 255
    {
      assert (0 + i) % SIZE == i;
    }
    ReadWhatWasWritten(mem, 0, file);
  }

  /** Uploading a file in any chunks onto an erased chip and downloading it again yields the file, for every
      length that is zero or not a multiple of 896, and the session ends where it began. */
  lemma UploadThenDownload(s: Session, up: seq<seq<byte>>, down: seq<seq<byte>>, cs: nat, chunks: seq<seq<byte>>)
    requires Valid(s) && AtRest(s.core) && IsUpload(up, cs, 0, chunks) && IsDownload(down, cs, 1)
    requires |Joined(chunks)| <= SIZE && Finishable(|Joined(chunks)|) && |down| == Responses(|Joined(chunks)|)
    requires forall i :: 0 <= i < |Joined(chunks)| ==> s.core.mem[i] == 255
    ensures AllWellFormed(up) && AllWellFormed(down) && WellFormed(WriteFrame(cs, 0, []))
    ensures var file, sent := Joined(chunks), Serve(s, up, 0).0;
            var kept := Handle(sent, WriteFrame(cs, 0, []), sent.core.writeAddr).0;
            Valid(kept) && var (last, data) := Serve(kept, down, 0);
            data == file && AtRest(last.core) &&
            last.core == s.core.(mem := FlatProgram(s.core.mem, 0, file), count := |file|)
  {
    var kept := UploadLeaves(s, up, cs, chunks);
    DownloadReturns(kept, down, cs);
    ErasedThenRead(s.core.mem, Joined(chunks));
  }
}

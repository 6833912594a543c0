/** The command handler as it runs (Project/src/tcpserver.c, XVC_Interface): it decodes the receive buffer, drives
    the flash chip and the on-chip store, and builds its answers in place in the send buffer. */
module XvcServer {
  import opened Bits
  import opened NorDevice
  import opened SpiFlash
  import opened XvcSession
  import ChipFlash

  class Server {
    const board: Board
    const store: ChipFlash.Store
    const sendbuf: array<byte>
    var flashWriteAddr: nat
    var flashReadAddr: nat
    var readTotal: nat
    var ackCnt: nat
    var setAddrFlag: bool

    ghost predicate Usable()
      reads this, board, store, sendbuf
    {
      board.Idle() && store.Valid() && sendbuf.Length == SEND_SIZE && Word(sendbuf[8..12]) <= DAT_MAX &&
      flashWriteAddr < TWO_32
    }

    ghost function State(): Session
      requires Usable()
      reads this, board, store, sendbuf
    {
      Session(Core(board.chip.mem, ChipFlash.CntValue(store.pages[ChipFlash.CntPage]), flashWriteAddr, flashReadAddr,
                   readTotal, ackCnt, setAddrFlag), sendbuf[..])
    }

    constructor (b: Board, s: ChipFlash.Store)
      requires b.Idle() && s.Valid()
      ensures Usable() && board == b && store == s && fresh(sendbuf)
      ensures AtRest(State().core) && State().core.mem == b.chip.mem
    {
      board, store := b, s;
      sendbuf := new byte[SEND_SIZE](_ => 0);
      flashWriteAddr, flashReadAddr, readTotal, ackCnt, setAddrFlag := 0, 0, 0, 0, false;
      new;
      assert sendbuf[8..12] == [0, 0, 0, 0];
    }

    /** check_sum over a buffer. */
    static method CheckSum(buf: array<byte>, len: nat) returns (sum: nat)
      requires len <= buf.Length
      ensures sum == Sum(buf[..len])
    {
      sum := 0;
      for i := 0 to len
        invariant sum == Sum(buf[..i])
      {
        assert buf[..i + 1][..i] == buf[..i];
        sum := sum + buf[i];
      }
    }

    /** A 32-bit field stored into the send buffer. */
    method PutWord(at: nat, v: nat)
      requires at + 4 <= sendbuf.Length && v < TWO_32
      modifies sendbuf
      ensures sendbuf[..] == Put(old(sendbuf[..]), at, Le32(v))
    {
      var w := Le32(v);
      sendbuf[at], sendbuf[at + 1], sendbuf[at + 2], sendbuf[at + 3] := w[0], w[1], w[2], w[3];
    }

    /** n flash bytes read straight into the data field of the response. */
    method LoadData(addr: nat, n: nat)
      requires board.Idle() && board.chip.busy == 0 && sendbuf.Length == SEND_SIZE && n <= DAT_MAX
      modifies board, sendbuf
      ensures board.Idle() && board.chip == old(board.chip)
      ensures sendbuf[..] == Loaded(old(sendbuf[..]), ReadBack(board.chip.mem, addr, n))
    {
      board.FlashReadSomeByte(sendbuf, 12, addr, n);
      assert sendbuf[..] == sendbuf[..12] + sendbuf[12..12 + n] + sendbuf[12 + n..];
      assert sendbuf[..] == Put(old(sendbuf[..]), 12, ReadBack(board.chip.mem, addr, n));
      PutWord(8, n);
    }

    /** ICD_CMD_WRITE. */
    method HandleWriteCmd(size: nat, dat: seq<byte>, env: ChipFlash.WriteEnv) returns (rsp: seq<byte>)
      requires Usable() && board.chip.busy == 0 && ChipFlash.Hardware(env) && size == |dat| + 8 <= 2048
      modifies this, board, store
      ensures Usable() && board.chip.busy == 0 && rsp == WriteRsp() && sendbuf[..] == old(sendbuf[..])
      ensures State().core == Written(old(State()).core, size, dat, State().core.count)
      ensures size != 8 ==> State().core.count == old(State()).core.count
      ensures size == 8 && ChipFlash.Calm(env) && old(store.power) >= 3 ==>
        State().core.count == old(flashWriteAddr)
    {
      hide Closed, Header, FlatProgram, Pages, Txns;
      var result := 0;
      if !setAddrFlag {
        setAddrFlag := true;
      }
      if size != 8 {
        var ok := board.FlashWriteNoCheck(dat, flashWriteAddr);
        result := if ok then 1 else 0;
        flashWriteAddr := (flashWriteAddr + |dat|) % TWO_32;
      } else {
        var r := store.WriteCntInfo(flashWriteAddr, env);
        result := 1;
        flashWriteAddr := 0;
        setAddrFlag := false;
      }
      rsp := Closed(Header(CMD_WRITE, 4) + Le32(result));
    }

    /** The start of a read session: the stored length decides how many responses are announced. */
    method StartRead()
      requires Usable()
      modifies this
      ensures Usable() && State() == old(State()).(core := Started(old(State()).core))
    {
      if !setAddrFlag {
        setAddrFlag := true;
        readTotal := store.ReadCntInfo();
        if readTotal % DAT_MAX != 0 {
          ackCnt := readTotal / DAT_MAX + 2;
        } else {
          ackCnt := readTotal / DAT_MAX + 1;
        }
      }
    }

    /** The data branches of ICD_CMD_READ. */
    method FillResponse(ack: nat)
      requires Usable() && board.chip.busy == 0
      modifies this, board, sendbuf
      ensures Usable() && board.chip == old(board.chip)
      ensures var c := old(State()).core;
              State() == Session(Advanced(c, ack),
                                 if TakesData(c, ack) then Loaded(old(State()).send, Piece(c)) else old(State()).send)
    {
      LoadedSize(sendbuf[..], Piece(State().core));
      if readTotal > DAT_MAX {
        LoadData(flashReadAddr, DAT_MAX);
        flashReadAddr := (flashReadAddr + DAT_MAX) % TWO_32;
        readTotal := readTotal - DAT_MAX;
      } else if ackCnt >= ack && readTotal < DAT_MAX {
        LoadData(flashReadAddr, readTotal);
        if readTotal == 0 {
          setAddrFlag := false;
          flashReadAddr := 0;
          ackCnt := 0;
        }
        readTotal := 0;
      }
    }

    /** Tail word and checksum behind the data. */
    method CloseResponse() returns (rsp: seq<byte>)
      requires sendbuf.Length == SEND_SIZE && Word(sendbuf[8..12]) <= DAT_MAX
      modifies sendbuf
      ensures sendbuf[..] == Tailed(old(sendbuf[..]))
      ensures rsp == sendbuf[..Word(old(sendbuf[8..12])) + 20]
    {
      var size := Word(sendbuf[8..12]);
      ghost var was := sendbuf[..];
      assert was[8..12] == sendbuf[8..12];
      PutWord(12 + size, FRAME_TAIL);
      var sum := CheckSum(sendbuf, size + 16);
      SumBound(sendbuf[..size + 16]);
      assert sendbuf[..size + 16] == sendbuf[..][..size + 16];
      PutWord(16 + size, sum);
      rsp := sendbuf[..size + 20];
    }

    /** Head and command words of the response. */
    method TitleResponse()
      requires Usable()
      modifies sendbuf
      ensures Usable() && State() == old(State()).(send := Titled(old(State()).send))
    {
      TitledSize(sendbuf[..]);
      PutWord(0, FRAME_HEAD);
      PutWord(4, CMD_READ);
      assert sendbuf[8..12] == sendbuf[..][8..12];
    }

    /** ICD_CMD_READ. */
    method HandleReadCmd(ack: nat) returns (rsp: seq<byte>)
      requires Usable() && board.chip.busy == 0
      modifies this, board, sendbuf
      ensures Usable() && board.chip.busy == 0
      ensures XvcSession.Valid(old(State())) && (State(), rsp) == StepRead(old(State()), ack)
    {
      hide Tailed, Loaded, Titled, Piece, Advanced, Started, TakesData;
      ghost var s0 := State();
      assert sendbuf[8..12] == sendbuf[..][8..12];
      StartRead();
      TitleResponse();
      ghost var c := Started(s0.core);
      FilledSize(c, s0.send, ack);
      FillResponse(ack);
      ghost var b := Filled(c, s0.send, ack);
      assert State() == Session(Advanced(c, ack), b);
      assert sendbuf[8..12] == b[8..12];
      TailedKeeps(b, 8, 12);
      rsp := CloseResponse();
      assert sendbuf[8..12] == sendbuf[..][8..12];
    }

    /** One call on the receive buffer, whatever its length.  What is rejected, by its head or its checksum, changes
        nothing and gets no answer; the terminator of an upload stores the length when the on-chip flash does its work.
        before are the four bytes in front of the buffer. */
    method XvcInterface(before: seq<byte>, recv: array<byte>, length: nat, env: ChipFlash.WriteEnv)
      returns (rsp: seq<byte>)
      requires Usable() && board.chip.busy == 0 && ChipFlash.Hardware(env)
      requires recv != sendbuf && Contained(before, recv[..], length)
      modifies this, board, store, sendbuf
      ensures Usable() && XvcSession.Valid(old(State()))
      ensures (State(), rsp) == HandleAt(old(State()), before, recv[..], length, State().core.count)
      ensures !AcceptedAt(before, recv[..], length) ==> rsp == [] && State() == old(State())
      ensures AcceptedAt(before, recv[..], length) && Word(recv[4..8]) == 1 ==>
        rsp == [] && forall i :: 0 <= i < SIZE ==> board.chip.mem[i] == 255
      ensures AcceptedAt(before, recv[..], length) && Word(recv[4..8]) == CMD_WRITE && Word(recv[8..12]) == 8 &&
              ChipFlash.Calm(env) && old(store.power) >= 3 ==>
        State().core.count == old(flashWriteAddr)
    {
      hide StepRead, Written, Word, Sum, WriteRsp;
      rsp := [];
      ghost var f := recv[..];
      assert recv[0..4] == f[0..4] && recv[4..8] == f[4..8] && recv[8..12] == f[8..12] && recv[16..20] == f[16..20];
      var check := ReadCheck(before, recv, length);
      if Word(recv[0..4]) == FRAME_HEAD {
        var summed := if length < 4 then 0 else length - 4;
        assert recv[..summed] == f[..summed];
        var sum := CheckSum(recv, summed);
        if sum == check {
          var cmd, size := Word(recv[4..8]), Word(recv[8..12]);
          if cmd == CMD_ERASE {
            board.FlashEraseChip();
          } else if cmd == CMD_WRITE {
            assert recv[20..size + 12] == f[20..size + 12];
            rsp := HandleWriteCmd(size, recv[20..size + 12], env);
          } else if cmd == CMD_READ {
            rsp := HandleReadCmd(Word(recv[16..20]));
          }
        }
      }
    }

    /** The four bytes up to the end of the frame. */
    static method ReadCheck(before: seq<byte>, recv: array<byte>, length: nat) returns (check: nat)
      requires |before| == 4 && length <= recv.Length
      ensures check == CheckWord(before, recv[..], length)
    {
      if length >= 4 {
        check := Word(recv[length - 4..length]);
        assert recv[length - 4..length] == (before + recv[..])[length..length + 4];
      } else {
        check := Word(before[length..] + recv[..length]);
        assert before[length..] + recv[..length] == (before + recv[..])[length..length + 4];
      }
    }
  }
}

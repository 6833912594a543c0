/** The bit-banged SPI port (Project/src/stm32f107.c) and the flash driver above it
    (Project/src/drvflash.c), down to single pin edges. */
module SpiFlash {
  import opened Bits
  import opened NorDevice

  /** Left shift of an 8-bit register. */
  function Shl(x: byte): byte
  {
    if x < 128 then 2 * x else 2 * x - 256
  }

  /** d after k left shifts in an 8-bit register. */
  function Shifted(d: byte, k: nat): byte
  {
    if k == 0 then d else Shl(Shifted(d, k - 1))
  }

  /** Bit k of d, most significant first. */
  function BitOf(d: byte, k: nat): nat
  {
    if Shifted(d, k) < 128 then 0 else 1
  }

  /** The number whose binary digits are the first k bits of d. */
  function Prefix(d: byte, k: nat): nat
  {
    if k == 0 then 0 else 2 * Prefix(d, k - 1) + BitOf(d, k - 1)
  }

  lemma {:induction false} PrefixAndRest(d: byte, k: nat)
    ensures Doubled(d, k) == 256 * Prefix(d, k) + Shifted(d, k)
  {
    if k != 0 {
      PrefixAndRest(d, k - 1);
    }
  }

  /** Eight bits, most significant first, are the byte; fewer stay below the matching power of two. */
  lemma BitsMakeByte(d: byte)
    ensures Prefix(d, 8) == d
    ensures Prefix(d, 7) < 128
  {
    PrefixAndRest(d, 8);
    PrefixAndRest(d, 7);
    assert Doubled(d, 1) == 2 * d;
    assert Doubled(d, 2) == 4 * d;
    assert Doubled(d, 4) == 16 * d;
    assert Doubled(d, 6) == 64 * d;
    assert Doubled(d, 7) == 128 * d;
    assert Doubled(d, 8) == 256 * d;
  }

  /** The prefix leaves room for the bits still to come. */
  lemma {:induction false} PrefixBelow(d: byte, k: nat)
    requires k < 8
    ensures Prefix(d, k) < 128
    decreases 8 - k
  {
    if k < 7 {
      PrefixBelow(d, k + 1);
    } else {
      BitsMakeByte(d);
    }
  }

  /** An 8-bit shift register takes in one bit. */
  function ShiftedIn(r: byte, bit: bool): byte
  {
    Shl(r) + (if bit then 1 else 0)
  }

  /** Shifting in the next bit of d extends the prefix without loss. */
  lemma PrefixStep(d: byte, k: nat)
    requires k < 8
    ensures Prefix(d, k) < 128 && BitOf(d, k) < 2 && Prefix(d, k + 1) < 256
    ensures Prefix(d, k + 1) == ShiftedIn(Prefix(d, k), BitOf(d, k) == 1)
  {
    PrefixBelow(d, k);
  }

  /** One page program as the driver issues it. */
  datatype Program = Program(addr: nat, data: seq<byte>)

  /** What the chip sees of one page program: write enable, then opcode, 24-bit address and data. */
  function PageTxns(p: Program): seq<Txn>
  {
    [Txn([0x06], true), Txn([0x02] + AddressBytes(p.addr) + p.data, p.data != [])]
  }

  function Txns(ps: seq<Program>): seq<Txn>
  {
    if ps == [] then [] else Txns(ps[..|ps| - 1]) + PageTxns(ps[|ps| - 1])
  }

  lemma TxnsShort(p: Program)
    ensures Txns([]) == [] && Txns([p]) == PageTxns(p)
  {
  }

  lemma {:induction false} TxnsAppend(a: seq<Program>, b: seq<Program>)
    ensures Txns(a + b) == Txns(a) + Txns(b)
  {
    hide PageTxns;
    if b == [] {
      assert a + b == a;
    } else {
      var n := |b| - 1;
      TxnsAppend(a, b[..n]);
      assert (a + b)[..|a| + n] == a + b[..n];
    }
  }

  /** How many of n bytes still fit in the page of addr. */
  function PageRoom(addr: nat, n: nat): (k: nat)
    ensures k <= n && addr % PAGE + k <= PAGE && (n > 0 ==> k > 0)
    ensures k < n ==> (addr + k) % PAGE == 0
  {
    var r := PAGE - addr % PAGE;
    if n <= r then n else r
  }

  /** Whole pages from a page boundary on, and what is left over. */
  function FullPages(addr: nat, data: seq<byte>): seq<Program>
    decreases |data|
  {
    if |data| <= PAGE then [Program(addr, data)]
    else [Program(addr, data[..PAGE])] + FullPages(addr + PAGE, data[PAGE..])
  }

  /** A write of any alignment: up to the first boundary, then whole pages. */
  function Pages(addr: nat, data: seq<byte>): seq<Program>
  {
    var k := PageRoom(addr, |data|);
    if k == |data| then [Program(addr, data)]
    else [Program(addr, data[..k])] + FullPages(addr + k, data[k..])
  }

  lemma {:induction false} FullPagesInside(addr: nat, data: seq<byte>)
    requires addr % PAGE == 0
    ensures forall p :: p in FullPages(addr, data) ==> p.addr % PAGE + |p.data| <= PAGE
    decreases |data|
  {
    if |data| > PAGE {
      FullPagesInside(addr + PAGE, data[PAGE..]);
    }
  }

  /** No page program of a split write crosses a 256-byte boundary. */
  lemma NeverCrossesPage(addr: nat, data: seq<byte>)
    ensures forall p :: p in Pages(addr, data) ==> p.addr % PAGE + |p.data| <= PAGE
  {
    var k := PageRoom(addr, |data|);
    if k < |data| {
      FullPagesInside(addr + k, data[k..]);
    }
  }

  lemma {:induction false} FullPagesSplit(addr: nat, a: seq<byte>, b: seq<byte>)
    requires a != [] && b != [] && |a| % PAGE == 0
    ensures FullPages(addr, a + b) == FullPages(addr, a) + FullPages(addr + |a|, b)
    decreases |a|
  {
    if |a| == PAGE {
      assert (a + b)[..PAGE] == a && (a + b)[PAGE..] == b;
    } else {
      assert (a + b)[..PAGE] == a[..PAGE] && (a + b)[PAGE..] == a[PAGE..] + b;
      FullPagesSplit(addr + PAGE, a[PAGE..], b);
    }
  }

  lemma Aligned(addr: nat, data: seq<byte>)
    requires addr % PAGE == 0
    ensures Pages(addr, data) == FullPages(addr, data)
  {
  }

  /** Cutting first at a page boundary changes nothing. */
  lemma PagesSplit(addr: nat, a: seq<byte>, b: seq<byte>)
    requires a != [] && b != [] && (addr + |a|) % PAGE == 0
    ensures Pages(addr, a + b) == Pages(addr, a) + Pages(addr + |a|, b)
  {
    hide FullPages, PageRoom;
    var k := PageRoom(addr, |a + b|);
    RoomAtBoundary(addr, |a|, |a + b|);
    Aligned(addr + |a|, b);
    if k == |a| {
      assert (a + b)[..k] == a && (a + b)[k..] == b;
    } else {
      assert (a + b)[..k] == a[..k] && (a + b)[k..] == a[k..] + b;
      FullPagesSplit(addr + k, a[k..], b);
    }
  }

  lemma RoomAtBoundary(addr: nat, n: nat, total: nat)
    requires 0 < n < total && (addr + n) % PAGE == 0
    ensures PageRoom(addr, total) <= n && PageRoom(addr, n) == PageRoom(addr, total) < total
    ensures (n - PageRoom(addr, total)) % PAGE == 0
  {
  }

  /** The first page of a longer write, and the rest. */
  lemma FirstPage(addr: nat, data: seq<byte>)
    ensures var k := PageRoom(addr, |data|);
            Pages(addr, data) ==
              if k == |data| then [Program(addr, data)]
              else [Program(addr, data[..k])] + Pages(addr + k, data[k..])
  {
  }

  /** The data of a list of programs, one after the other. */
  function DataOf(ps: seq<Program>): seq<byte>
  {
    if ps == [] then [] else ps[0].data + DataOf(ps[1..])
  }

  /** The list starts at addr, each program goes on where the one before has ended, and that is always the end of a
      256-byte page; none is larger, and none but a single one is empty. */
  ghost predicate PageByPage(ps: seq<Program>, addr: nat)
  {
    ps != [] && ps[0].addr == addr &&
    (forall i :: 0 <= i < |ps| ==> |ps[i].data| <= 256 && (|ps| > 1 ==> ps[i].data != [])) &&
    forall i {:trigger ps[i].addr} :: 0 < i < |ps| ==>
      ps[i].addr == ps[i - 1].addr + |ps[i - 1].data| && ps[i].addr % 256 == 0
  }

  lemma OnePageMore(first: Program, rest: seq<Program>)
    requires first.data != [] && |first.data| <= 256 && (first.addr + |first.data|) % 256 == 0
    requires PageByPage(rest, first.addr + |first.data|) && DataOf(rest) != []
    ensures PageByPage([first] + rest, first.addr) && DataOf([first] + rest) == first.data + DataOf(rest)
  {
    var ps := [first] + rest;
    assert ps[1..] == rest;
    if |rest| == 1 {
      assert rest[1..] == [] && rest[0].data != [];
    }
    forall i {:trigger ps[i].addr} | 0 < i < |ps|
      ensures ps[i].addr == ps[i - 1].addr + |ps[i - 1].data| && ps[i].addr % 256 == 0
    {
      assert ps[i] == rest[i - 1];
      if i > 1 {
        assert ps[i - 1] == rest[i - 2];
      }
    }
  }

  /** However a write is aligned, its page programs are exactly its data, page by page. */
  lemma {:induction false} PagesAreTheData(addr: nat, data: seq<byte>)
    ensures PageByPage(Pages(addr, data), addr) && DataOf(Pages(addr, data)) == data
    decreases |data|
  {
    hide Pages, PageByPage;
    FirstPage(addr, data);
    var k := PageRoom(addr, |data|);
    if k < |data| {
      PagesAreTheData(addr + k, data[k..]);
      OnePageMore(Program(addr, data[..k]), Pages(addr + k, data[k..]));
      assert data[..k] + data[k..] == data;
    } else {
      OnlyPage(Program(addr, data));
    }
  }

  lemma OnlyPage(p: Program)
    requires |p.data| <= 256
    ensures PageByPage([p], p.addr) && DataOf([p]) == p.data
  {
    assert [p][1..] == [];
  }

  lemma PageOfAddress(addr: nat)
    ensures addr % SIZE % PAGE == addr % PAGE
  {
  }

  /** The GPIO port, the wires and the flash chip's own shift register. */
  class Board {
    var nss: bool
    var sck: bool
    var mosi: bool
    var miso: bool
    var shift: byte
    var count: nat
    var chip: Nor

    ghost predicate Idle()
      reads this
    {
      nss && sck && Valid(chip) && chip.rx == []
    }

    ghost predicate Selected()
      reads this
    {
      !nss && sck && count == 0 && shift == 0 && Valid(chip)
    }

    constructor (device: Nor)
      requires Valid(device) && device.rx == []
      ensures Idle() && !mosi && chip == device
    {
      nss, sck, mosi, miso, shift, count, chip := true, true, false, false, 0, 0, device;
    }

    method SetMosi(level: bool)
      modifies this`mosi
      ensures mosi == level
    {
      mosi := level;
    }

    /** Falling clock: the chip presents its next output bit. */
    method SckLow()
      requires Valid(chip) && count < 8
      modifies this`sck, this`miso
      ensures !sck
      ensures !nss && old(sck) ==> miso == (BitOf(Output(chip), count) == 1)
    {
      if !nss && sck {
        miso := BitOf(Output(chip), count) == 1;
      }
      sck := false;
    }

    /** Rising clock: the chip samples MOSI; the eighth edge completes a byte. */
    method SckHigh()
      requires count < 8
      modifies this`sck, this`shift, this`count, this`chip
      ensures sck
      ensures !nss && !old(sck) && old(count) < 7 ==>
        count == old(count) + 1 && shift == ShiftedIn(old(shift), mosi) && chip == old(chip)
      ensures !nss && !old(sck) && old(count) == 7 ==>
        count == 0 && shift == 0 && chip == Receive(old(chip), ShiftedIn(old(shift), mosi))
      ensures nss || old(sck) ==> count == old(count) && shift == old(shift) && chip == old(chip)
    {
      if !nss && !sck {
        shift := ShiftedIn(shift, mosi);
        count := count + 1;
        if count == 8 {
          chip, shift, count := Receive(chip, shift), 0, 0;
        }
      }
      sck := true;
    }

    method NssLow()
      requires Idle()
      modifies this`nss, this`shift, this`count
      ensures Selected()
    {
      nss, shift, count := false, 0, 0;
    }

    method NssHigh()
      requires Selected()
      modifies this`nss, this`chip
      ensures Idle() && chip == Deselect(old(chip))
    {
      chip := Deselect(chip);
      nss := true;
    }

    method SpiSoftInit()
      requires nss && Valid(chip) && chip.rx == []
      modifies this`nss, this`sck, this`mosi
      ensures Idle() && !mosi && chip == old(chip)
    {
      nss, sck, mosi := true, true, false;
    }

    /** Eight clocks hand exactly the byte d to the chip. */
    method SpiWriteByte(d: byte)
      requires Selected()
      modifies this
      ensures Selected() && chip == Receive(old(chip), d)
    {
      var w: byte := d;
      BitsMakeByte(d);
      var i := 0;
      while i < 8
        invariant 0 <= i <= 8 && !nss && sck && Valid(chip) && w == Shifted(d, i)
        invariant i < 8 ==> count == i && shift == Prefix(d, i) && chip == old(chip)
        invariant i == 8 ==> count == 0 && shift == 0 && chip == Receive(old(chip), d)
      {
        PrefixStep(d, i);
        SetMosi(w >= 128);
        SckLow();
        w := Shl(w);
        SckHigh();
        i := i + 1;
      }
    }

    /** Eight clocks return exactly the byte the chip presents; the chip takes in one byte of held MOSI level. */
    method SpiReadByte() returns (r: byte, ghost junk: byte)
      requires Selected()
      modifies this
      ensures Selected() && r == Output(old(chip))
      ensures chip == Receive(old(chip), junk)
    {
      r, junk := 0, 0;
      ghost var out := Output(chip);
      var i := 0;
      while i < 8
        invariant 0 <= i <= 8 && !nss && sck && Valid(chip)
        invariant r == Prefix(out, i)
        invariant i < 8 ==> count == i && chip == old(chip)
        invariant i == 8 ==> count == 0 && shift == 0 && chip == Receive(old(chip), junk)
      {
        PrefixStep(out, i);
        SckLow();
        r := Shl(r);
        if miso {
          r := r + 1;
        }
        junk := ShiftedIn(shift, mosi);
        SckHigh();
        i := i + 1;
      }
      BitsMakeByte(out);
    }

    method FlashWriteEnable()
      requires Idle()
      modifies this
      ensures Idle() && chip == Deselect(old(chip).(rx := [WRITE_ENABLE]))
    {
      NssLow();
      SpiWriteByte(WRITE_ENABLE);
      assert chip == old(chip).(rx := [WRITE_ENABLE]);
      NssHigh();
    }

    /** One status poll; WIP is the low bit of the answer. */
    method FlashReadSR() returns (status: byte)
      requires Idle()
      modifies this
      ensures Idle() && chip == old(chip).(busy := if old(chip.busy) > 0 then old(chip.busy) - 1 else 0)
      ensures status % 2 == (if old(chip.busy) > 0 then 1 else 0)
    {
      NssLow();
      SpiWriteByte(READ_SR);
      var answer, _ := SpiReadByte();
      status := answer;
      NssHigh();
    }

    method FlashWaitBusy()
      requires Idle()
      modifies this
      ensures Idle() && chip == old(chip).(busy := 0)
    {
      var status := FlashReadSR();
      while status % 2 == 1
        invariant Idle() && chip == old(chip).(busy := chip.busy)
        invariant status % 2 == 0 ==> chip.busy == 0
        decreases chip.busy + status % 2
      {
        status := FlashReadSR();
      }
    }

    method SendCommand(op: byte, addr: nat)
      requires Selected() && chip.rx == [] && op != READ_SR
      modifies this
      ensures Selected() && chip == old(chip).(rx := [op] + AddressBytes(addr))
    {
      SpiWriteByte(op);
      assert chip.rx == [op];
      SpiWriteByte(addr / 256 / 256 % 256);
      SpiWriteByte(addr / 256 % 256);
      SpiWriteByte(addr % 256);
      assert chip.rx == [op] + AddressBytes(addr);
    }

    /** Reads n bytes into buf at offset at: byte i is mem[(addr + i) mod 2^24]. */
    method FlashReadSomeByte(buf: array<byte>, at: nat, addr: nat, n: nat)
      requires Idle() && chip.busy == 0 && at + n <= buf.Length
      modifies this, buf
      ensures Idle() && chip == old(chip)
      ensures buf[at..at + n] == ReadBack(chip.mem, addr, n)
      ensures buf[..at] == old(buf[..at]) && buf[at + n..] == old(buf[at + n..])
    {
      NssLow();
      SendCommand(READ_DATA, addr);
      ghost var base, junks := chip, [];
      ghost var all := ReadBack(base.mem, addr, n);
      var i := 0;
      while i < n
        invariant 0 <= i <= n == |all| && Selected() && |junks| == i
        invariant chip == base.(rx := base.rx + junks)
        invariant buf[at..at + i] == all[..i]
        invariant buf[..at] == old(buf[..at]) && buf[at + n..] == old(buf[at + n..])
      {
        ReadPhase(base, addr, junks);
        var b, junk := SpiReadByte();
        assert base.rx + junks + [junk] == base.rx + (junks + [junk]);
        junks := junks + [junk];
        buf[at + i] := b;
        assert buf[at..at + (i + 1)] == buf[at..at + i] + [b];
        i := i + 1;
      }
      assert chip.rx[0] == READ_DATA;
      NssHigh();
    }

    /** During a read the k-th byte shifted out is the k-th byte behind the address. */
    static lemma ReadPhase(base: Nor, addr: nat, junks: seq<byte>)
      requires Valid(base) && base.busy == 0 && base.rx == [READ_DATA] + AddressBytes(addr)
      ensures Output(base.(rx := base.rx + junks)) == base.mem[(addr + |junks|) % SIZE]
    {
      AddressRoundTrip(READ_DATA, addr);
      ReadModulo(addr, |junks|);
      var rx := base.rx + junks;
      assert rx[0] == base.rx[0] && rx[1] == base.rx[1] && rx[2] == base.rx[2] && rx[3] == base.rx[3];
    }

    /** Write enable, one page program, and the wait for its end. */
    method FlashWritePage(data: seq<byte>, addr: nat)
      requires Idle() && chip.busy == 0
      modifies this
      ensures Idle() && chip.busy == 0
      ensures chip.trace == old(chip.trace) + PageTxns(Program(addr, data))
      ensures addr % PAGE + |data| <= PAGE ==> chip.mem == FlatProgram(old(chip.mem), addr, data)
    {
      FlashWriteEnable();
      assert chip == old(chip).(wel := true, trace := old(chip.trace) + [Txn([WRITE_ENABLE], true)]);
      ghost var enabled := chip;
      NssLow();
      SendCommand(WRITE_PAGE, addr);
      var i := 0;
      while i < |data|
        invariant 0 <= i <= |data| && Selected()
        invariant chip == enabled.(rx := [WRITE_PAGE] + AddressBytes(addr) + data[..i])
      {
        SpiWriteByte(data[i]);
        assert data[..i + 1] == data[..i] + [data[i]];
        i := i + 1;
      }
      assert data[..i] == data;
      PageExecuted(enabled, addr, data);
      NssHigh();
      FlashWaitBusy();
      assert [Txn([WRITE_ENABLE], true)] + [Txn([WRITE_PAGE] + AddressBytes(addr) + data, data != [])]
          == PageTxns(Program(addr, data));
    }

    /** What the chip makes of a page program that reaches it write-enabled and idle. */
    static lemma PageExecuted(d: Nor, addr: nat, data: seq<byte>)
      requires Valid(d) && d.wel && d.busy == 0 && d.rx == []
      ensures var c := Deselect(d.(rx := [WRITE_PAGE] + AddressBytes(addr) + data));
              c.trace == d.trace + [Txn([WRITE_PAGE] + AddressBytes(addr) + data, data != [])] &&
              (addr % PAGE + |data| <= PAGE ==> c.mem == FlatProgram(d.mem, addr, data))
    {
      var rx := [WRITE_PAGE] + AddressBytes(addr) + data;
      AddressRoundTrip(WRITE_PAGE, addr);
      assert rx[..4] == [WRITE_PAGE] + AddressBytes(addr);
      assert Address(rx) == Address(rx[..4]) == addr % SIZE;
      assert rx[4..] == data;
      if addr % PAGE + |data| <= PAGE {
        PageOfAddress(addr);
        PageIsFlat(d.mem, addr % SIZE, data);
        FlatModulo(d.mem, addr, data);
        if data == [] {
          assert FlatProgram(d.mem, addr, data) == d.mem;
        }
      }
    }

    /** Writes without erasing, page by page. */
    method FlashWriteNoCheck(data: seq<byte>, addr: nat) returns (ok: bool)
      requires Idle() && chip.busy == 0 && |data| <= SIZE
      modifies this
      ensures ok && Idle() && chip.busy == 0
      ensures chip.mem == FlatProgram(old(chip.mem), addr, data)
      ensures chip.trace == old(chip.trace) + Txns(Pages(addr, data))
    {
      hide Pages, FlatProgram, Txns, PageTxns;
      TxnsShort(Program(addr, data));
      var buffer, writeAddr: nat, left: nat := data, addr, |data|;
      var pageRemain: nat := PAGE - writeAddr % PAGE;
      if left <= pageRemain {
        pageRemain := left;
      }
      ghost var goal, done, todo := FlatProgram(chip.mem, addr, data), [], Pages(addr, data);
      while true
        invariant Idle() && chip.busy == 0 && left == |buffer| <= SIZE
        invariant pageRemain == PageRoom(writeAddr, left)
        invariant FlatProgram(chip.mem, writeAddr, buffer) == goal
        invariant todo == Pages(writeAddr, buffer) && done + todo == Pages(addr, data)
        invariant chip.trace == old(chip.trace) + Txns(done)
        decreases left
      {
        ghost var before := chip;
        var now, later := buffer[..pageRemain], buffer[pageRemain..];
        FlashWritePage(now, writeAddr);
        FirstPage(writeAddr, buffer);
        ghost var page := [Program(writeAddr, now)];
        TxnsAppend(done, page);
        TxnsShort(page[0]);
        if left == pageRemain {
          assert now == buffer;
          return true;
        }
        ghost var next := Pages(writeAddr + pageRemain, later);
        assert done + page + next == done + todo;
        done, todo := done + page, next;
        WriteRest(before.mem, chip.mem, writeAddr, buffer, pageRemain);
        NextPageWhole(writeAddr, left);
        buffer := later;
        writeAddr := writeAddr + pageRemain;
        left := left - pageRemain;
        pageRemain := if left > 256 then 256 else left;
      }
    }

    /** What is still to be written after the first n bytes reaches the same memory. */
    static lemma WriteRest(mem: seq<byte>, next: seq<byte>, addr: nat, data: seq<byte>, n: nat)
      requires |mem| == SIZE && n <= |data| <= SIZE && next == FlatProgram(mem, addr, data[..n])
      ensures FlatProgram(next, addr + n, data[n..]) == FlatProgram(mem, addr, data)
    {
    }

    static lemma NextPageWhole(addr: nat, n: nat)
      requires PageRoom(addr, n) < n
      ensures var k := PageRoom(addr, n);
              PageRoom(addr + k, n - k) == if n - k > 256 then 256 else n - k
    {
    }

    /** The sector-wise writer issues exactly the transactions of the page-wise one. */
    method FlashWrite(data: seq<byte>, addr: nat) returns (ok: bool)
      requires Idle() && chip.busy == 0 && |data| <= SIZE
      modifies this
      ensures ok && Idle() && chip.busy == 0
      ensures chip.mem == FlatProgram(old(chip.mem), addr, data)
      ensures chip.trace == old(chip.trace) + Txns(Pages(addr, data))
    {
      hide Pages, FlatProgram, Txns, PageTxns;
      TxnsShort(Program(addr, data));
      var buffer, writeAddr: nat, left: nat := data, addr, |data|;
      var secRemain: nat := 4096 - writeAddr % 4096;
      if left <= secRemain {
        secRemain := left;
      }
      ghost var goal, done, todo := FlatProgram(chip.mem, addr, data), [], Pages(addr, data);
      while true
        invariant Idle() && chip.busy == 0 && left == |buffer| <= SIZE
        invariant secRemain == SectorRoom(writeAddr, left)
        invariant FlatProgram(chip.mem, writeAddr, buffer) == goal
        invariant todo == Pages(writeAddr, buffer) && done + todo == Pages(addr, data)
        invariant chip.trace == old(chip.trace) + Txns(done)
        decreases left
      {
        ghost var before := chip;
        var now, later := buffer[..secRemain], buffer[secRemain..];
        var _ := FlashWriteNoCheck(now, writeAddr);
        SectorStep(writeAddr, buffer);
        ghost var sector := Pages(writeAddr, now);
        TxnsAppend(done, sector);
        if left == secRemain {
          assert now == buffer;
          return true;
        }
        ghost var next := Pages(writeAddr + secRemain, later);
        assert done + sector + next == done + todo;
        done, todo := done + sector, next;
        SectorBoundary(writeAddr, left);
        WriteRest(before.mem, chip.mem, writeAddr, buffer, secRemain);
        buffer := later;
        writeAddr := writeAddr + secRemain;
        left := left - secRemain;
        secRemain := if left > 4096 then 4096 else left;
      }
    }

    /** How many of n bytes still fit in the 4096-byte sector of addr. */
    static function SectorRoom(addr: nat, n: nat): (k: nat)
      ensures k <= n && (n > 0 ==> k > 0)
    {
      var r := 4096 - addr % 4096;
      if n <= r then n else r
    }

    /** A cut at a sector boundary is a cut at a page boundary, and the next sector is taken whole. */
    static lemma SectorBoundary(addr: nat, n: nat)
      requires SectorRoom(addr, n) < n
      ensures var k := SectorRoom(addr, n);
              (addr + k) % PAGE == 0 && SectorRoom(addr + k, n - k) == if n - k > 4096 then 4096 else n - k
    {
    }

    static lemma SectorStep(addr: nat, data: seq<byte>)
      ensures var k := SectorRoom(addr, |data|);
              k < |data| ==> Pages(addr, data) == Pages(addr, data[..k]) + Pages(addr + k, data[k..])
    {
      var k := SectorRoom(addr, |data|);
      if k < |data| {
        SectorBoundary(addr, |data|);
        PagesSplit(addr, data[..k], data[k..]);
        assert data[..k] + data[k..] == data;
      }
    }

    /** Starts a chip erase; the end is seen later by polling the status register. */
    method FlashEraseChip()
      requires Idle() && chip.busy == 0
      modifies this
      ensures Idle() && chip.mem == Erased()
      ensures chip.trace == old(chip.trace) + [Txn([0x06], true), Txn([0xC7], true)]
    {
      FlashWriteEnable();
      FlashWaitBusy();
      NssLow();
      SpiWriteByte(ERASE_CHIP);
      assert chip.rx == [ERASE_CHIP];
      NssHigh();
    }
  }
}

/** The SPI NOR flash behind the bit-banged bus, seen byte by byte. */
module NorDevice {
  import opened Bits

  const SIZE: nat := 0x100_0000     // three address bytes
  const PAGE: nat := 256

  const WRITE_ENABLE: byte := 0x06
  const READ_SR: byte := 0x05
  const READ_DATA: byte := 0x03
  const WRITE_PAGE: byte := 0x02
  const ERASE_CHIP: byte := 0xC7

  /** One transaction between NSS low and NSS high that is neither a status poll nor a read;
      accepted says whether the device carried it out. */
  datatype Txn = Txn(bytes: seq<byte>, accepted: bool)

  /** mem is the array; rx the bytes clocked in since NSS fell; busy the number of status polls
      for which WIP still reads as set; latency the busy times of the operations to come. */
  datatype Nor = Nor(mem: seq<byte>, wel: bool, busy: nat, rx: seq<byte>, latency: seq<nat>, trace: seq<Txn>)

  ghost predicate Valid(d: Nor)
  {
    |d.mem| == SIZE
  }

  function Address(rx: seq<byte>): nat
    requires |rx| >= 4
  {
    65536 * (rx[1] as int) + 256 * (rx[2] as int) + rx[3] as int
  }

  function AddressBytes(addr: nat): seq<byte>
  {
    [addr / 256 / 256 % 256, addr / 256 % 256, addr % 256]
  }

  lemma AddressRoundTrip(op: byte, addr: nat)
    ensures Address([op] + AddressBytes(addr)) == addr % SIZE
  {
  }

  /** The byte shifted out during the next eight clocks. */
  function Output(d: Nor): byte
    requires Valid(d)
  {
    if |d.rx| >= 1 && d.rx[0] == READ_SR then
      (if d.busy > 0 then 1 else 0) + (if d.wel then 2 else 0)
    else if |d.rx| >= 4 && d.rx[0] == READ_DATA && d.busy == 0 then
      d.mem[(Address(d.rx) + (|d.rx| - 4)) % SIZE]
    else 255
  }

  /** Eight clocks have brought in byte b; each status byte read is one poll of WIP. */
  function Receive(d: Nor, b: byte): Nor
  {
    d.(rx := d.rx + [b],
       busy := if |d.rx| >= 1 && d.rx[0] == READ_SR && d.busy > 0 then d.busy - 1 else d.busy)
  }

  /** Of the n bytes sent, the last one that lands in the latch column at distance off. */
  function LatchIndex(off: nat, n: nat): (k: nat)
    requires off < n
    ensures off <= k < n && (n <= PAGE ==> k == off)
  {
    off + PAGE * ((n - 1 - off) / PAGE)
  }

  /** Page program: the column wraps inside the 256-byte page, later bytes overwrite earlier ones in
      the page latch, and programming can only clear bits. */
  function PageProgram(mem: seq<byte>, addr: nat, data: seq<byte>): (r: seq<byte>)
    requires |mem| == SIZE && addr < SIZE
    ensures |r| == SIZE
  {
    seq(SIZE, j requires 0 <= j < SIZE =>
      var off := (j - addr) % PAGE;
      if j / PAGE == addr / PAGE && off < |data|
      then AndByte(mem[j], data[LatchIndex(off, |data|)])
      else mem[j])
  }

  function Latency(d: Nor): nat
  {
    if d.latency == [] then 0 else d.latency[0]
  }

  function NextLatencies(d: Nor): seq<nat>
  {
    if d.latency == [] then [] else d.latency[1..]
  }

  /** NSS rises: the collected bytes are executed as one command.  While WIP is set everything but a
      status poll is ignored; program and erase need WEL and clear it. */
  function Deselect(d: Nor): (r: Nor)
    requires Valid(d)
    ensures Valid(r) && r.rx == []
  {
    var c := d.(rx := []);
    if d.rx == [] || d.rx[0] == READ_SR || d.rx[0] == READ_DATA then c
    else if d.busy > 0 then c.(trace := c.trace + [Txn(d.rx, false)])
    else if d.rx == [WRITE_ENABLE] then c.(wel := true, trace := c.trace + [Txn(d.rx, true)])
    else if |d.rx| >= 5 && d.rx[0] == WRITE_PAGE && d.wel then
      c.(mem := PageProgram(d.mem, Address(d.rx), d.rx[4..]), wel := false,
         busy := Latency(d), latency := NextLatencies(d), trace := c.trace + [Txn(d.rx, true)])
    else if d.rx == [ERASE_CHIP] && d.wel then
      c.(mem := Erased(), wel := false,
         busy := Latency(d), latency := NextLatencies(d), trace := c.trace + [Txn(d.rx, true)])
    else c.(trace := c.trace + [Txn(d.rx, false)])
  }

  function Erased(): (r: seq<byte>)
    ensures |r| == SIZE
  {
    seq(SIZE, _ => 255)
  }

  /** Every cell of an erased array holds 255. */
  lemma ErasedCells(i: nat)
    requires i < SIZE
    ensures Erased()[i] == 255
  {
  }

  /** A cell at distance off from the start of the write. */
  function FlatCell(was: byte, off: nat, data: seq<byte>): byte
  {
    if off < |data| then AndByte(was, data[off]) else was
  }

  /** Flat memory: data lands at addr, addr+1, ... modulo the array size. */
  function FlatProgram(mem: seq<byte>, addr: nat, data: seq<byte>): (r: seq<byte>)
    requires |mem| == SIZE
    ensures |r| == SIZE
  {
    seq(SIZE, j requires 0 <= j < SIZE => FlatCell(mem[j], (j - addr) % SIZE, data))
  }

  /** n bytes read from addr on, wrapping at the end of the array. */
  function ReadBack(mem: seq<byte>, addr: nat, n: nat): (r: seq<byte>)
    requires |mem| == SIZE
    ensures |r| == n
  {
    seq(n, i requires 0 <= i < n => mem[(addr + i) % SIZE])
  }

  /** A program that stays inside its page writes flat memory. */
  lemma PageIsFlat(mem: seq<byte>, addr: nat, data: seq<byte>)
    requires |mem| == SIZE && addr < SIZE
    requires addr % PAGE + |data| <= PAGE
    ensures PageProgram(mem, addr, data) == FlatProgram(mem, addr, data)
  {
  }

  /** The address is only seen modulo the array size. */
  lemma FlatModulo(mem: seq<byte>, addr: nat, data: seq<byte>)
    requires |mem| == SIZE
    ensures FlatProgram(mem, addr % SIZE, data) == FlatProgram(mem, addr, data)
  {
  }

  lemma ReadModulo(addr: nat, i: nat)
    ensures (addr % SIZE + i) % SIZE == (addr + i) % SIZE
  {
  }

  /** Writing two adjacent pieces is writing their concatenation. */
  lemma FlatSplit(mem: seq<byte>, addr: nat, a: seq<byte>, b: seq<byte>)
    requires |mem| == SIZE && |a| + |b| <= SIZE
    ensures FlatProgram(FlatProgram(mem, addr, a), addr + |a|, b) == FlatProgram(mem, addr, a + b)
  {
  }

  /** Inside the range every cell becomes old AND data; a cell the range does not reach keeps its value. */
  lemma FlatCells(mem: seq<byte>, addr: nat, data: seq<byte>, i: nat)
    requires |mem| == SIZE && |data| <= SIZE && i < SIZE
    ensures var j := (addr + i) % SIZE;
            FlatProgram(mem, addr, data)[j] == if i < |data| then AndByte(mem[j], data[i]) else mem[j]
  {
  }

  /** What is written to erased cells is what is read back. */
  lemma ReadWhatWasWritten(mem: seq<byte>, addr: nat, data: seq<byte>)
    requires |mem| == SIZE && |data| <= SIZE
    requires forall i :: 0 <= i < |data| ==> ReadBack(mem, addr, |data|)[i] == 255
    ensures ReadBack(FlatProgram(mem, addr, data), addr, |data|) == data
  {
    forall i | 0 <= i < |data|
      ensures ReadBack(FlatProgram(mem, addr, data), addr, |data|)[i] == data[i]
    {
      FlatCells(mem, addr, data, i);
      assert ReadBack(mem, addr, |data|)[i] == mem[(addr + i) % SIZE];
      ErasedTakesData(data[i]);
    }
  }
}

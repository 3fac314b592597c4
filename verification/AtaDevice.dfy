/**
 The device side of an ATA bus: two-deep address registers, the commands that read and write sectors
 by programmed I/O, and the two drives' contents. After the 48-bit Address feature set of ATA/ATAPI-6.
 */
module AtaDevice {
  import opened Bytes

  const SECTOR_SIZE := 512
  const LBA_28_LIMIT := 0x1000_0000
  const LBA_48_LIMIT := 0x1_0000_0000_0000

  const READ_PIO: byte := 0x20
  const READ_PIO_EXT: byte := 0x24
  const WRITE_PIO: byte := 0x30
  const WRITE_PIO_EXT: byte := 0x34
  const CACHE_FLUSH: byte := 0xE7
  const CACHE_FLUSH_EXT: byte := 0xEA

  type Sector = s: seq<byte> | |s| == 512 witness seq(512, _ => 0)

  /** A sector of one of the two drives. */
  datatype Address = Address(slave: bool, lba: nat)

  function Next(a: Address): Address { a.(lba := a.lba + 1) }

  type Disks = map<Address, Sector>

  /** A sector's contents; sectors never written are blank. */
  function At(disks: Disks, a: Address): Sector {
    if a in disks then disks[a] else seq(512, _ => 0)
  }

  // ---------------------------------------------------------------- registers

  /** A register that keeps the byte written before the current one. */
  datatype Register = Register(current: byte, previous: byte)

  function Shift(r: Register, b: byte): Register { Register(b, r.current) }

  datatype Registers = Registers(select: byte, count: Register, low: Register, mid: Register, high: Register)

  /** What a command is about: where it starts and how many sectors. */
  datatype Request = Request(start: Address, count: nat)

  predicate LbaMode(r: Registers) { r.select / 0x40 % 2 == 1 }

  predicate SlaveSelected(r: Registers) { r.select / 0x10 % 2 == 1 }

  /** The 28-bit reading of the registers; a count of zero means 256. */
  function Decode28(r: Registers): Request {
    Request(Address(SlaveSelected(r),
                    r.low.current + 0x100 * r.mid.current + 0x1_0000 * r.high.current + 0x100_0000 * (r.select % 0x10)),
            if r.count.current == 0 then 0x100 else r.count.current)
  }

  /** The 48-bit reading of the registers; a count of zero means 65536. */
  function Decode48(r: Registers): Request {
    Request(Address(SlaveSelected(r),
                    r.low.current + 0x100 * r.mid.current + 0x1_0000 * r.high.current +
                    0x100_0000 * (r.low.previous + 0x100 * r.mid.previous + 0x1_0000 * r.high.previous)),
            if r.count == Register(0, 0) then 0x1_0000 else r.count.current + 0x100 * r.count.previous)
  }

  // ---------------------------------------------------------------- the data phase

  datatype Transfer =
    | Idle
    | Reading(next: Address, left: nat, position: nat)
    | Writing(next: Address, left: nat, received: seq<byte>)

  /** What went over the bus: the commands, how often the status was polled, and how often it told of an error. */
  datatype Traffic = Traffic(commands: seq<byte>, polls: nat, errors: nat)

  class Device {
    ghost var traffic: Traffic
    var registers: Registers
    var transfer: Transfer
    var disks: Disks

    constructor ()
      ensures disks == map[] && transfer == Idle && traffic == Traffic([], 0, 0)
    {
      traffic := Traffic([], 0, 0);
      registers := Registers(0, Register(0, 0), Register(0, 0), Register(0, 0), Register(0, 0));
      transfer, disks := Idle, map[];
    }

    method WriteSelect(b: byte)
      modifies this`registers
      ensures registers == old(registers).(select := b)
    {
      registers := registers.(select := b);
    }

    method WriteCount(b: byte)
      modifies this`registers
      ensures registers == old(registers).(count := Shift(old(registers).count, b))
    {
      registers := registers.(count := Shift(registers.count, b));
    }

    method WriteLow(b: byte)
      modifies this`registers
      ensures registers == old(registers).(low := Shift(old(registers).low, b))
    {
      registers := registers.(low := Shift(registers.low, b));
    }

    method WriteMid(b: byte)
      modifies this`registers
      ensures registers == old(registers).(mid := Shift(old(registers).mid, b))
    {
      registers := registers.(mid := Shift(registers.mid, b));
    }

    method WriteHigh(b: byte)
      modifies this`registers
      ensures registers == old(registers).(high := Shift(old(registers).high, b))
    {
      registers := registers.(high := Shift(registers.high, b));
    }

    /** A command ends whatever transfer was going on. Other commands, and requests not in LBA mode, move no data. */
    method WriteCommand(command: byte)
      modifies this`transfer, this`traffic
      ensures transfer == Started(command, registers)
      ensures traffic == old(traffic).(commands := old(traffic).commands + [command])
    {
      transfer := Started(command, registers);
      traffic := traffic.(commands := traffic.commands + [command]);
    }

    /** The data port, read side: two bytes, the first in the low half. */
    method ReadData() returns (word: nat)
      requires transfer.Reading? && transfer.position + 1 < SECTOR_SIZE
      modifies this`transfer
      ensures var Reading(a, left, p) := old(transfer);
              && word == Word(At(disks, a)[p], At(disks, a)[p + 1])
              && transfer == if p + 2 < SECTOR_SIZE then Reading(a, left, p + 2) else AfterRead(a, left)
    {
      var Reading(a, left, p) := transfer;
      var s := At(disks, a);
      word := Word(s[p], s[p + 1]);
      transfer := if p + 2 < SECTOR_SIZE then Reading(a, left, p + 2) else AfterRead(a, left);
    }

    /** The data port, write side: a sector is stored when its last word arrives. */
    method WriteData(word: nat)
      requires transfer.Writing? && |transfer.received| + 2 <= SECTOR_SIZE && word < 0x1_0000
      modifies this`transfer, this`disks
      ensures var Writing(a, left, got) := old(transfer);
              var got' := got + [word % 0x100, word / 0x100];
              if |got'| < SECTOR_SIZE then transfer == Writing(a, left, got') && disks == old(disks)
              else transfer == AfterWrite(a, left) && disks == old(disks)[a := got']
    {
      var Writing(a, left, got) := transfer;
      var got' := got + [word % 0x100, word / 0x100];
      if |got'| < SECTOR_SIZE {
        transfer := Writing(a, left, got');
      } else {
        disks := disks[a := got'];
        transfer := AfterWrite(a, left);
      }
    }

    /** Polling the status port: the device may report an error at any time. */
    method Wait() returns (ok: bool)
      modifies this`traffic
      ensures traffic == Polled(old(traffic), ok)
    {
      ok := *;
      traffic := Polled(traffic, ok);
    }
  }

  function Word(low: byte, high: byte): (w: nat)
    ensures w < 0x1_0000 && w % 0x100 == low && w / 0x100 == high
  {
    low + 0x100 * high
  }

  function Started(command: byte, r: Registers): Transfer {
    if !LbaMode(r) then Idle
    else if command == READ_PIO then Reading(Decode28(r).start, Decode28(r).count, 0)
    else if command == READ_PIO_EXT then Reading(Decode48(r).start, Decode48(r).count, 0)
    else if command == WRITE_PIO then Writing(Decode28(r).start, Decode28(r).count, [])
    else if command == WRITE_PIO_EXT then Writing(Decode48(r).start, Decode48(r).count, [])
    else Idle
  }

  function Polled(t: Traffic, ok: bool): Traffic {
    t.(polls := t.polls + 1, errors := t.errors + if ok then 0 else 1)
  }

  /** The transfer after a whole sector. */
  function AfterRead(a: Address, left: nat): Transfer {
    if left <= 1 then Idle else Reading(Next(a), left - 1, 0)
  }

  function AfterWrite(a: Address, left: nat): Transfer {
    if left <= 1 then Idle else Writing(Next(a), left - 1, [])
  }

  // ---------------------------------------------------------------- many sectors

  function Plus(a: Address, k: nat): Address { a.(lba := a.lba + k) }

  /** The disks after the first `n` sectors of `data` were stored from `a` on. */
  function Stored(disks: Disks, a: Address, data: seq<byte>, n: nat): Disks
    requires 512 * n <= |data|
  {
    if n == 0 then disks else Stored(disks, a, data, n - 1)[Plus(a, n - 1) := data[512 * (n - 1)..512 * n]]
  }

  /** The bytes of `n` sectors from `a` on. */
  function Image(disks: Disks, a: Address, n: nat): (r: seq<byte>)
    ensures |r| == 512 * n
  {
    if n == 0 then [] else Image(disks, a, n - 1) + At(disks, Plus(a, n - 1))
  }

  /** Storing changes just the sectors stored, on the drive addressed. */
  lemma {:induction false} StoredAt(disks: Disks, a: Address, data: seq<byte>, n: nat, b: Address)
    requires 512 * n <= |data|
    ensures At(Stored(disks, a, data, n), b) ==
            if b.slave == a.slave && a.lba <= b.lba < a.lba + n
            then data[512 * (b.lba - a.lba)..512 * (b.lba - a.lba) + 512] else At(disks, b)
  {
    if n > 0 { StoredAt(disks, a, data, n - 1, b); }
  }

  /** What was stored is what is there. */
  lemma {:induction false} ImageOfStored(disks: Disks, a: Address, data: seq<byte>, n: nat, m: nat)
    requires 512 * n <= |data| && m <= n
    ensures Image(Stored(disks, a, data, n), a, m) == data[..512 * m]
  {
    if m > 0 {
      ImageOfStored(disks, a, data, n, m - 1);
      StoredAt(disks, a, data, n, Plus(a, m - 1));
      assert data[..512 * m] == data[..512 * (m - 1)] + data[512 * (m - 1)..512 * m];
    }
  }
}

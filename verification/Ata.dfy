/** The ATA driver's programmed I/O: register sequences, data loops and the checks before them. */
module Ata {
  import opened Bytes
  import opened Arithmetic
  import opened AtaDevice

  const MAX_LBA_28_VALUE := 0xFFF_FFFF

  /** Which failures the driver reports. */
  datatype Failure =
    | OutOfBounds | NotWholeSectors | TooManySectors          // refused before anything is sent
    | BeforeCommand | DuringData | AfterData | AfterFlush     // reported by the device

  datatype Outcome = Done(sectors: nat) | Failed(failure: Failure)

  /** A failure found by the checks, before anything is sent. */
  predicate Refused(f: Failure) { f == OutOfBounds || f == NotWholeSectors || f == TooManySectors }

  function DriveBits(slave: bool): nat { if slave then 0x10 else 0 }

  // ---------------------------------------------------------------- addressing

  /** The low byte of a number shifted right. */
  function ByteAt(n: nat, unit: nat): byte
    requires unit > 0
  {
    n / unit % 0x100
  }

  /** The registers after the 28-bit sequence. Its or-ed bits do not overlap, so they are added. */
  function Sequence28(r: Registers, slave: bool, lba: nat, count: nat): Registers {
    Registers(0xE0 + DriveBits(slave) + lba / 0x100_0000 % 0x10,
              Shift(r.count, ByteAt(count, 1)),
              Shift(r.low, ByteAt(lba, 1)), Shift(r.mid, ByteAt(lba, 0x100)), Shift(r.high, ByteAt(lba, 0x1_0000)))
  }

  /** The registers after the 48-bit sequence: high bytes first. */
  function Sequence48(r: Registers, slave: bool, lba: nat, count: nat): Registers {
    Registers(0x40 + DriveBits(slave),
              Register(ByteAt(count, 1), ByteAt(count, 0x100)),
              Register(ByteAt(lba, 1), ByteAt(lba, 0x100_0000)),
              Register(ByteAt(lba, 0x100), ByteAt(lba, 0x1_0000_0000)),
              Register(ByteAt(lba, 0x1_0000), ByteAt(lba, 0x100_0000_0000)))
  }

  lemma ThreeBytes(n: nat)
    ensures ByteAt(n, 1) + 0x100 * ByteAt(n, 0x100) + 0x1_0000 * ByteAt(n, 0x1_0000) == n % 0x100_0000
  {
    DivModTwice(n, 0x100, 0x100, 0x1_0000);
    DivModTwice(n, 0x1_0000, 0x100, 0x100_0000);
  }

  lemma SixBytes(n: nat)
    ensures ByteAt(n, 1) + 0x100 * ByteAt(n, 0x100) + 0x1_0000 * ByteAt(n, 0x1_0000) +
            0x100_0000 * (ByteAt(n, 0x100_0000) + 0x100 * ByteAt(n, 0x1_0000_0000) +
                          0x1_0000 * ByteAt(n, 0x100_0000_0000))
            == n % LBA_48_LIMIT
  {
    ThreeBytes(n);
    ThreeBytes(n / 0x100_0000);
    DivModTwice(n, 0x100_0000, 0x100, 0x1_0000_0000);
    DivModTwice(n, 0x100_0000, 0x1_0000, 0x100_0000_0000);
    DivModTwice(n, 0x100_0000, 0x100_0000, LBA_48_LIMIT);
  }

  lemma WrapsToItself(n: nat, m: nat)
    requires m > 0
    ensures n % m == n <==> n < m
    ensures (if n % m == 0 then m else n % m) == n <==> 1 <= n <= m
  {
    if n == m { DivModUnique(n, m, 1, 0); }
  }

  lemma SelectBits(slave: bool, nibble: nat, r: Registers)
    requires nibble < 0x10 && r.select in {0xE0 + DriveBits(slave) + nibble, 0x40 + DriveBits(slave)}
    ensures LbaMode(r) && SlaveSelected(r) == slave
    ensures r.select == 0xE0 + DriveBits(slave) + nibble ==> r.select % 0x10 == nibble
  {
  }

  /** Where the device takes the 28-bit sequence to start. */
  lemma Start28(r: Registers, slave: bool, lba: nat, count: nat)
    ensures LbaMode(Sequence28(r, slave, lba, count))
    ensures Decode28(Sequence28(r, slave, lba, count)).start == Address(slave, lba % LBA_28_LIMIT)
  {
    ThreeBytes(lba);
    DivModTwice(lba, 0x100_0000, 0x10, LBA_28_LIMIT);
    SelectBits(slave, lba / 0x100_0000 % 0x10, Sequence28(r, slave, lba, count));
  }

  /** The device reads back drive, address and count from the 28-bit sequence just up to 28 bits and 256 sectors. */
  lemma Decodes28(r: Registers, slave: bool, lba: nat, count: nat)
    ensures LbaMode(Sequence28(r, slave, lba, count))
    ensures Decode28(Sequence28(r, slave, lba, count)) == Request(Address(slave, lba), count)
            <==> lba < 0x1000_0000 && 1 <= count <= 0x100
  {
    Start28(r, slave, lba, count);
    WrapsToItself(lba, LBA_28_LIMIT);
    WrapsToItself(count, 0x100);
    assert Decode28(Sequence28(r, slave, lba, count)).count == if count % 0x100 == 0 then 0x100 else count % 0x100;
  }

  lemma Start48(r: Registers, slave: bool, lba: nat, count: nat)
    ensures LbaMode(Sequence48(r, slave, lba, count))
    ensures Decode48(Sequence48(r, slave, lba, count)).start == Address(slave, lba % LBA_48_LIMIT)
  {
    SixBytes(lba);
    SelectBits(slave, 0, Sequence48(r, slave, lba, count));
  }

  lemma Count48(r: Registers, slave: bool, lba: nat, count: nat)
    ensures Decode48(Sequence48(r, slave, lba, count)).count ==
            if count % 0x1_0000 == 0 then 0x1_0000 else count % 0x1_0000
  {
    DivModTwice(count, 0x100, 0x100, 0x1_0000);
  }

  /** The same for the 48-bit sequence, up to 48 bits and 65536 sectors. */
  lemma Decodes48(r: Registers, slave: bool, lba: nat, count: nat)
    ensures LbaMode(Sequence48(r, slave, lba, count))
    ensures Decode48(Sequence48(r, slave, lba, count)) == Request(Address(slave, lba), count)
            <==> lba < 0x1_0000_0000_0000 && 1 <= count <= 0x1_0000
  {
    Start48(r, slave, lba, count);
    Count48(r, slave, lba, count);
    WrapsToItself(lba, LBA_48_LIMIT);
    WrapsToItself(count, 0x1_0000);
  }

  /** The bytes of the 28-bit sequence. */
  lemma Bytes28(r: Registers, slave: bool, lba: nat, count: nat)
    requires lba < 0x1000_0000 && count < 0x100
    ensures var s := Sequence28(r, slave, lba, count);
            && s.select == 0xE0 + (if slave then 0x10 else 0) + lba / 0x100_0000 && s.count.current == count
            && s.low.current == lba % 0x100 && s.mid.current == lba / 0x100 % 0x100
            && s.high.current == lba / 0x1_0000 % 0x100
  {
  }

  /** The bytes of the 48-bit sequence: the second byte written to a register, and the first. */
  lemma Bytes48(r: Registers, slave: bool, lba: nat, count: nat)
    requires count < 0x100
    ensures Sequence48(r, slave, lba, count) ==
            Registers(0x40 + (if slave then 0x10 else 0), Register(count, 0),
                      Register(lba % 0x100, lba / 0x100_0000 % 0x100),
                      Register(lba / 0x100 % 0x100, lba / 0x1_0000_0000 % 0x100),
                      Register(lba / 0x1_0000 % 0x100, lba / 0x100_0000_0000 % 0x100))
  {
  }

  method Issue28(d: Device, slave: bool, lba: nat, count: nat, command: byte)
    requires lba < 0x1000_0000 && 1 <= count < 0x100
    modifies d`registers, d`transfer, d`traffic
    ensures d.registers == Sequence28(old(d.registers), slave, lba, count)
    ensures d.transfer == Started(command, d.registers)
    ensures d.traffic == old(d.traffic).(commands := old(d.traffic).commands + [command])
  {
    d.WriteSelect(0xE0 + DriveBits(slave) + lba / 0x100_0000 % 0x10);
    d.WriteCount(ByteAt(count, 1));
    d.WriteHigh(ByteAt(lba, 0x1_0000));
    d.WriteMid(ByteAt(lba, 0x100));
    d.WriteLow(ByteAt(lba, 1));
    d.WriteCommand(command);
  }

  method Issue48(d: Device, slave: bool, lba: nat, count: nat, command: byte)
    requires lba < 0x1_0000_0000_0000 && 1 <= count < 0x100
    modifies d`registers, d`transfer, d`traffic
    ensures d.registers == Sequence48(old(d.registers), slave, lba, count)
    ensures d.transfer == Started(command, d.registers)
    ensures d.traffic == old(d.traffic).(commands := old(d.traffic).commands + [command])
  {
    d.WriteSelect(0x40 + DriveBits(slave));
    d.WriteCount(ByteAt(count, 0x100));
    d.WriteHigh(ByteAt(lba, 0x100_0000_0000));
    d.WriteMid(ByteAt(lba, 0x1_0000_0000));
    d.WriteLow(ByteAt(lba, 0x100_0000));
    d.WriteCount(ByteAt(count, 1));
    d.WriteHigh(ByteAt(lba, 0x1_0000));
    d.WriteMid(ByteAt(lba, 0x100));
    d.WriteLow(ByteAt(lba, 1));
    d.WriteCommand(command);
  }

  /** Sets up the registers and issues one of the two forms of a command. */
  method Issue(d: Device, slave: bool, lba: nat, count: nat, command28: byte, command48: byte)
    requires lba < LBA_48_LIMIT && 1 <= count < 0x100
    modifies d`registers, d`transfer, d`traffic
    ensures var command := if lba <= 0xFFF_FFFF then command28 else command48;
            && LbaMode(d.registers) && d.transfer == Started(command, d.registers)
            && d.traffic == old(d.traffic).(commands := old(d.traffic).commands + [command])
    ensures (if lba <= 0xFFF_FFFF then Decode28(d.registers) else Decode48(d.registers))
            == Request(Address(slave, lba), count)
    ensures d.registers == if lba <= 0xFFF_FFFF then Sequence28(old(d.registers), slave, lba, count)
                           else Sequence48(old(d.registers), slave, lba, count)
  {
    if lba <= MAX_LBA_28_VALUE {
      Decodes28(d.registers, slave, lba, count);
      Issue28(d, slave, lba, count, command28);
    } else {
      Decodes48(d.registers, slave, lba, count);
      Issue48(d, slave, lba, count, command48);
    }
  }

  // ---------------------------------------------------------------- reading

  /** One sector, word by word. */
  method ReadSector(d: Device, buffer: array<byte>, offset: nat, ghost a: Address, ghost left: nat)
    requires offset + 512 <= buffer.Length && d.transfer == Reading(a, left, 0)
    modifies d`transfer, buffer
    ensures d.transfer == AfterRead(a, left)
    ensures buffer[..] == old(buffer[..offset]) + At(d.disks, a) + old(buffer[offset + 512..])
  {
    ghost var s := At(d.disks, a);
    var i := 0;
    while i < 512
      invariant 0 <= i <= 512 && i % 2 == 0
      invariant d.transfer == if i < 512 then Reading(a, left, i) else AfterRead(a, left)
      invariant forall k | 0 <= k < buffer.Length ::
                  buffer[k] == if offset <= k < offset + i then s[k - offset] else old(buffer[k])
    {
      var word := d.ReadData();
      buffer[offset + i] := word % 0x100;
      buffer[offset + i + 1] := word / 0x100;
      i := i + 2;
    }
  }

  /** A buffer into which the first `k` sectors from `a` on have been read. */
  ghost function Delivered(disks: Disks, a: Address, k: nat, was: seq<byte>): seq<byte>
    requires 512 * k <= |was|
  {
    Image(disks, a, k) + was[512 * k..]
  }

  lemma OneMoreSector(disks: Disks, a: Address, k: nat, was: seq<byte>, offset: nat)
    requires offset == 512 * k && offset + 512 <= |was|
    ensures var now := Delivered(disks, a, k, was);
            && |now| == |was|
            && now[..offset] + At(disks, Plus(a, k)) + now[offset + 512..] == Delivered(disks, a, k + 1, was)
  {
    var now := Delivered(disks, a, k, was);
    assert now[..offset] == Image(disks, a, k) && now[offset + 512..] == was[offset + 512..];
  }

  /** The traffic once the status was polled for `n` sectors, and again in vain unless `ok`. */
  function Waited(t: Traffic, n: nat, ok: bool): Traffic {
    if ok then t.(polls := t.polls + n) else t.(polls := t.polls + n + 1, errors := t.errors + 1)
  }

  /** `k` of `count` sectors have been read, and the device is about to deliver the next. */
  ghost predicate ReadTo(t: Transfer, disks: Disks, now: seq<byte>, a: Address, k: nat, count: nat, was: seq<byte>) {
    && k <= count && 512 * count <= |was| && now == Delivered(disks, a, k, was)
    && (k < count ==> t == Reading(Plus(a, k), count - k, 0))
  }

  /** The same, kept folded. */
  ghost predicate ReadSoFar(t: Transfer, disks: Disks, now: seq<byte>, a: Address, k: nat, count: nat, was: seq<byte>) {
    forall j: nat | j == k :: ReadTo(t, disks, now, a, j, count, was)
  }

  lemma NothingRead(t: Transfer, disks: Disks, a: Address, count: nat, was: seq<byte>)
    requires 512 * count <= |was| && t == Reading(a, count, 0)
    ensures ReadSoFar(t, disks, was, a, 0, count, was)
  {
    assert was[0..] == was;
  }

  lemma ReadNow(t: Transfer, disks: Disks, now: seq<byte>, a: Address, k: nat, count: nat, was: seq<byte>)
    requires ReadSoFar(t, disks, now, a, k, count, was)
    ensures ReadTo(t, disks, now, a, k, count, was)
  {
  }

  method ReadOne(d: Device, buffer: array<byte>, offset: nat, ghost a: Address, ghost k: nat, ghost count: nat,
                 ghost was: seq<byte>)
    requires offset == 512 * k && k < count && 512 * count <= buffer.Length == |was|
    requires ReadSoFar(d.transfer, d.disks, buffer[..], a, k, count, was)
    modifies d`transfer, buffer
    ensures ReadSoFar(d.transfer, d.disks, buffer[..], a, k + 1, count, was)
  {
    ReadNow(d.transfer, d.disks, buffer[..], a, k, count, was);
    OneMoreSector(d.disks, a, k, was, offset);
    ReadSector(d, buffer, offset, Plus(a, k), count - k);
  }

  /** The data loop: as many sectors as the device delivers without an error. */
  method ReadSectors(d: Device, buffer: array<byte>, ghost a: Address, count: nat) returns (ok: bool, ghost done: nat)
    requires 512 * count <= buffer.Length && count > 0 && d.transfer == Reading(a, count, 0)
    modifies d`transfer, d`traffic, buffer
    ensures if ok then done == count else done < count
    ensures d.traffic == Waited(old(d.traffic), done, ok)
    ensures buffer[..] == Delivered(d.disks, a, done, old(buffer[..]))
  {
    ghost var was := buffer[..];
    NothingRead(d.transfer, d.disks, a, count, was);
    done := 0;
    var offset, k := 0, 0;
    ok := true;
    while k < count
      invariant k == done <= count && offset == 512 * k && ok
      invariant ReadSoFar(d.transfer, d.disks, buffer[..], a, k, count, was)
      invariant d.traffic == Waited(old(d.traffic), k, true)
    {
      ok := d.Wait();
      if !ok { break; }
      ReadOne(d, buffer, offset, a, k, count, was);
      offset := offset + SECTOR_SIZE;
      k := k + 1;
      done := k;
    }
    ReadNow(d.transfer, d.disks, buffer[..], a, k, count, was);
  }

  /** Reads sectors; the buffer holds those delivered before any error, and the rest of it is as before. */
  method BusReadPio(d: Device, buffer: array<byte>, slave: bool, lba: nat, count: nat)
    returns (r: Outcome, ghost done: nat)
    requires lba < LBA_48_LIMIT && count < 0x100 && 512 * count <= buffer.Length
    modifies d`registers, d`transfer, d`traffic, buffer
    ensures done <= count && buffer[..] == Image(d.disks, Address(slave, lba), done) + old(buffer[512 * done..])
    ensures r.Done? ==> r.sectors == count == done
    ensures r.Failed? ==> r.failure in {BeforeCommand, DuringData, AfterData}
    ensures r == Failed(BeforeCommand) ==> done == 0
    ensures r == Failed(DuringData) ==> done < count
    ensures r == Failed(AfterData) ==> done == count
    ensures d.traffic.errors == old(d.traffic.errors) + if r.Done? then 0 else 1
    ensures d.traffic.polls == old(d.traffic.polls) +
              match r
              case Done(_) => if count == 0 then 0 else count + 2
              case Failed(f) => if f == BeforeCommand then 1 else done + 2
    ensures d.traffic.commands == old(d.traffic.commands) +
              if count == 0 || r == Failed(BeforeCommand) then [] else if lba <= 0xFFF_FFFF then [0x20] else [0x24]
  {
    done := 0;
    if count == 0 { return Done(0), 0; }
    var ok := d.Wait();
    if !ok { return Failed(BeforeCommand), 0; }
    Issue(d, slave, lba, count, READ_PIO, READ_PIO_EXT);
    ok, done := ReadSectors(d, buffer, Address(slave, lba), count);
    if !ok { return Failed(DuringData), done; }
    ok := d.Wait();
    if !ok { return Failed(AfterData), done; }
    return Done(count), done;
  }

  // ---------------------------------------------------------------- writing

  /** One sector, word by word. */
  method WriteSector(d: Device, buffer: seq<byte>, offset: nat, ghost a: Address, ghost left: nat)
    requires offset + 512 <= |buffer| && d.transfer == Writing(a, left, [])
    modifies d`transfer, d`disks
    ensures d.transfer == AfterWrite(a, left)
    ensures d.disks == old(d.disks)[a := buffer[offset..offset + 512]]
  {
    var i := 0;
    while i < 512
      invariant 0 <= i <= 512 && i % 2 == 0
      invariant i < 512 ==> d.transfer == Writing(a, left, buffer[offset..offset + i]) && d.disks == old(d.disks)
      invariant i == 512 ==> d.transfer == AfterWrite(a, left)
                             && d.disks == old(d.disks)[a := buffer[offset..offset + 512]]
    {
      var low, high := buffer[offset + i], buffer[offset + i + 1];
      assert buffer[offset..offset + i] + [low, high] == buffer[offset..offset + (i + 2)];
      d.WriteData(Word(low, high));
      i := i + 2;
    }
  }

  /** The data loop: as many sectors as the device takes without an error. */
  method WriteSectors(d: Device, buffer: seq<byte>, ghost a: Address, count: nat) returns (ok: bool, ghost done: nat)
    requires 512 * count <= |buffer| && count > 0 && d.transfer == Writing(a, count, [])
    modifies d`transfer, d`disks, d`traffic
    ensures if ok then done == count else done < count
    ensures d.traffic == Waited(old(d.traffic), done, ok)
    ensures d.disks == Stored(old(d.disks), a, buffer, done)
  {
    done := 0;
    var offset := 0;
    for k := 0 to count
      invariant done == k && offset == 512 * k
      invariant k < count ==> d.transfer == Writing(Plus(a, k), count - k, [])
      invariant d.disks == Stored(old(d.disks), a, buffer, k) && d.traffic == Waited(old(d.traffic), k, true)
    {
      ok := d.Wait();
      if !ok { return; }
      WriteSector(d, buffer, offset, Plus(a, k), count - k);
      offset := offset + SECTOR_SIZE;
      done := k + 1;
    }
    ok := true;
  }

  /** Writes sectors, then flushes the drive's cache; on an error just the sectors sent before it are stored. */
  method BusWritePio(d: Device, buffer: seq<byte>, slave: bool, lba: nat, count: nat)
    returns (r: Outcome, ghost done: nat)
    requires lba < LBA_48_LIMIT && count < 0x100 && 512 * count <= |buffer|
    modifies d`registers, d`transfer, d`disks, d`traffic
    ensures done <= count && d.disks == Stored(old(d.disks), Address(slave, lba), buffer, done)
    ensures r.Done? ==> r.sectors == count == done
    ensures r.Failed? ==> r.failure in {BeforeCommand, DuringData, AfterData, AfterFlush}
    ensures r == Failed(BeforeCommand) ==> done == 0
    ensures r == Failed(DuringData) ==> done < count
    ensures r == Failed(AfterData) || r == Failed(AfterFlush) ==> done == count
    ensures d.traffic.errors == old(d.traffic.errors) + if r.Done? then 0 else 1
    ensures d.traffic.polls == old(d.traffic.polls) +
              match r
              case Done(_) => if count == 0 then 0 else count + 3
              case Failed(f) => if f == BeforeCommand then 1 else if f == AfterFlush then done + 3 else done + 2
    ensures d.traffic.commands == old(d.traffic.commands) +
              (if count == 0 || r == Failed(BeforeCommand) then [] else if lba <= 0xFFF_FFFF then [0x30] else [0x34]) +
              (if count == 0 || r in {Failed(BeforeCommand), Failed(DuringData), Failed(AfterData)} then []
               else if lba <= 0xFFF_FFFF then [0xE7] else [0xEA])
  {
    done := 0;
    if count == 0 { return Done(0), 0; }
    var ok := d.Wait();
    if !ok { return Failed(BeforeCommand), 0; }
    Issue(d, slave, lba, count, WRITE_PIO, WRITE_PIO_EXT);
    ok, done := WriteSectors(d, buffer, Address(slave, lba), count);
    if !ok { return Failed(DuringData), done; }
    ok := d.Wait();
    if !ok { return Failed(AfterData), done; }
    d.WriteCommand(if lba <= MAX_LBA_28_VALUE then CACHE_FLUSH else CACHE_FLUSH_EXT);
    ok := d.Wait();
    if !ok { return Failed(AfterFlush), done; }
    return Done(count), done;
  }

  // ---------------------------------------------------------------- drives

  /** A drive on a bus, with what it reported about itself. */
  class AtaDrive {
    const bus: Device
    const slave: bool
    const sizeInBlocks: nat
    const maxBlocksPerTransfer: byte

    /** The reported size is a 48-bit number. */
    ghost predicate Valid() { sizeInBlocks < LBA_48_LIMIT }

    constructor (bus: Device, slave: bool, sizeInBlocks: nat, maxBlocksPerTransfer: byte)
      requires sizeInBlocks < LBA_48_LIMIT
      ensures Valid() && this.bus == bus && this.slave == slave
      ensures this.sizeInBlocks == sizeInBlocks && this.maxBlocksPerTransfer == maxBlocksPerTransfer
    {
      this.bus, this.slave := bus, slave;
      this.sizeInBlocks, this.maxBlocksPerTransfer := sizeInBlocks, maxBlocksPerTransfer;
    }

    /** The checks before a transfer. An offset equal to the size passes, and the end is not checked. */
    function Refusal(length: nat, offset: nat): Option<Failure> {
      if offset > sizeInBlocks then Some(OutOfBounds)
      else if length % SECTOR_SIZE != 0 then Some(NotWholeSectors)
      else if length / SECTOR_SIZE > maxBlocksPerTransfer then Some(TooManySectors)
      else None
    }

    /** A request that is not empty and ends beyond the drive. */
    predicate PastTheEnd(length: nat, offset: nat) { length > 0 && offset + length / SECTOR_SIZE > sizeInBlocks }

    /** The sectors a request of this length is about. */
    predicate Reaches(length: nat, offset: nat, lba: nat) { offset <= lba < offset + length / SECTOR_SIZE }

    /** An accepted request that is not empty stays on the drive exactly when its end does. */
    lemma AcceptedStaysInside(length: nat, offset: nat)
      requires Refusal(length, offset).None? && length > 0
      ensures (forall lba: nat | Reaches(length, offset, lba) :: lba < sizeInBlocks) <==>
              offset + length / SECTOR_SIZE <= sizeInBlocks
    {
      assert Reaches(length, offset, offset + length / SECTOR_SIZE - 1);
    }

    /** One sector at the offset just past the end is accepted, and stored there. */
    lemma AcceptsPastTheEnd(disks: Disks, data: Sector)
      requires maxBlocksPerTransfer >= 1
      ensures Refusal(SECTOR_SIZE, sizeInBlocks).None? && Reaches(SECTOR_SIZE, sizeInBlocks, sizeInBlocks)
      ensures At(Stored(disks, Address(slave, sizeInBlocks), data, 1), Address(slave, sizeInBlocks)) == data
    {
      StoredAt(disks, Address(slave, sizeInBlocks), data, 1, Address(slave, sizeInBlocks));
    }

    method ReadPio(buffer: array<byte>, offset: nat) returns (r: Outcome, ghost done: nat)
      requires Valid()
      modifies bus`registers, bus`transfer, bus`traffic, buffer
      ensures r == Failed(OutOfBounds) <==> offset > sizeInBlocks
      ensures r == Failed(NotWholeSectors) <==> offset <= sizeInBlocks && buffer.Length % 512 != 0
      ensures r == Failed(TooManySectors) <==>
              offset <= sizeInBlocks && buffer.Length % 512 == 0 && buffer.Length / 512 > maxBlocksPerTransfer
      ensures r.Failed? && Refused(r.failure) ==> done == 0 && bus.traffic == old(bus.traffic)
      ensures bus.traffic.errors == old(bus.traffic.errors) + if r.Done? || Refused(r.failure) then 0 else 1
      ensures r.Failed? ==> Refused(r.failure) || r.failure in {BeforeCommand, DuringData, AfterData}
      ensures r == Failed(BeforeCommand) ==> done == 0
      ensures r == Failed(DuringData) ==> 512 * done < buffer.Length
      ensures r == Failed(AfterData) ==> 512 * done == buffer.Length
      ensures 512 * done <= buffer.Length
      ensures buffer[..] == Image(bus.disks, Address(slave, offset), done) + old(buffer[512 * done..])
      ensures r.Done? ==> 512 * done == buffer.Length && r.sectors == done
    {
      var refusal := Refusal(buffer.Length, offset);
      if refusal.Some? { return Failed(refusal.value), 0; }
      var lbaEnd := offset + buffer.Length / SECTOR_SIZE;
      r, done := BusReadPio(bus, buffer, slave, offset, lbaEnd - offset);
    }

    /** What a write leaves on the drives: the sectors sent, and everything else as before. */
    lemma WrittenSectors(was: Disks, buffer: seq<byte>, offset: nat, done: nat, now: Disks)
      requires 512 * done <= |buffer| && now == Stored(was, Address(slave, offset), buffer, done)
      ensures Image(now, Address(slave, offset), done) == buffer[..512 * done]
      ensures forall b: Address | !(b.slave == slave && offset <= b.lba < offset + done) :: At(now, b) == At(was, b)
      ensures 0 < 512 * done == |buffer| ==> At(now, Address(slave, offset + done - 1)) == buffer[|buffer| - 512..]
    {
      var a := Address(slave, offset);
      forall b: Address | !(b.slave == slave && offset <= b.lba < offset + done) ensures At(now, b) == At(was, b) {
        StoredAt(was, a, buffer, done, b);
      }
      ImageOfStored(was, a, buffer, done, done);
      if 0 < 512 * done == |buffer| { StoredAt(was, a, buffer, done, Address(slave, offset + done - 1)); }
    }

    method WritePio(buffer: seq<byte>, offset: nat) returns (r: Outcome, ghost done: nat)
      requires Valid()
      modifies bus`registers, bus`transfer, bus`disks, bus`traffic
      ensures r == Failed(OutOfBounds) <==> offset > sizeInBlocks
      ensures r == Failed(NotWholeSectors) <==> offset <= sizeInBlocks && |buffer| % 512 != 0
      ensures r == Failed(TooManySectors) <==>
              offset <= sizeInBlocks && |buffer| % 512 == 0 && |buffer| / 512 > maxBlocksPerTransfer
      ensures r.Failed? && Refused(r.failure) ==> done == 0 && bus.traffic == old(bus.traffic)
      ensures bus.traffic.errors == old(bus.traffic.errors) + if r.Done? || Refused(r.failure) then 0 else 1
      ensures r == Failed(BeforeCommand) ==> done == 0
      ensures r == Failed(DuringData) ==> 512 * done < |buffer|
      ensures r == Failed(AfterData) || r == Failed(AfterFlush) ==> 512 * done == |buffer|
      ensures 512 * done <= |buffer| && Image(bus.disks, Address(slave, offset), done) == buffer[..512 * done]
      ensures r.Done? ==> 512 * done == |buffer| && r.sectors == done
      ensures forall b: Address | !(b.slave == slave && offset <= b.lba < offset + done) ::
                At(bus.disks, b) == At(old(bus.disks), b)
      ensures !PastTheEnd(|buffer|, offset) ==> forall b: Address | b.slave == slave && b.lba >= sizeInBlocks ::
                At(bus.disks, b) == At(old(bus.disks), b)
      ensures PastTheEnd(|buffer|, offset) && r.Done? ==>
                var last := offset + |buffer| / SECTOR_SIZE - 1;
                last >= sizeInBlocks && At(bus.disks, Address(slave, last)) == buffer[|buffer| - 512..]
    {
      var refusal := Refusal(|buffer|, offset);
      if refusal.Some? { return Failed(refusal.value), 0; }
      var lbaEnd := offset + |buffer| / SECTOR_SIZE;
      r, done := BusWritePio(bus, buffer, slave, offset, lbaEnd - offset);
      WrittenSectors(old(bus.disks), buffer, offset, done, bus.disks);
    }

    /** A write followed by a read of as many bytes at the same offset returns the bytes written. */
    method WriteThenRead(data: seq<byte>, offset: nat) returns (wrote: Outcome, got: Outcome, back: array<byte>)
      requires Valid()
      modifies bus`registers, bus`transfer, bus`disks, bus`traffic
      ensures wrote.Done? && got.Done? ==> back[..] == data
      ensures forall b: Address | !(b.slave == slave && offset <= b.lba < offset + |data| / 512) ::
                At(bus.disks, b) == At(old(bus.disks), b)
    {
      ghost var done;
      wrote, done := WritePio(data, offset);
      back := new byte[|data|](_ => 0);
      got, done := ReadPio(back, offset);
    }
  }
}

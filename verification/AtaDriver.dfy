/** The PIO driver of ide.c. */
module AtaDriver {
  import opened Machine
  import opened AtaBus

  /** The fields of IDE_DEVICE that the driver uses; lba is bit 9 of features, drive is 0 for the master. */
  datatype Device = Device(present: bool, drive: int, lba: bool, size: u32)

  datatype Mode = CHS | LBA28 | LBA48

  function ModeOf(dev: Device, lba: u32): Mode {
    if lba >= 0x1000_0000 then LBA48 else if dev.lba then LBA28 else CHS
  }

  /** The values of lba_io and head. */
  datatype Address = Address(io: seq<u8>, head: u8)

  function AddressFor(mode: Mode, lba: u32): (a: Address)
    ensures |a.io| == 6 && a.head < 0x10
  {
    match mode
    case LBA48 =>
      Address([lba % 0x100, lba / 0x100 % 0x100, lba / 0x1_0000 % 0x100, lba / 0x100_0000 % 0x100, 0, 0], 0)
    case LBA28 =>
      Address([lba % 0x100, lba / 0x100 % 0x100, lba / 0x1_0000 % 0x100, 0, 0, 0], lba / 0x100_0000 % 0x10)
    case CHS =>
      var sect := lba % 63 + 1;
      var cyl := (lba + 1 - sect) / (16 * 63) % 0x1_0000;
      Address([sect, cyl % 0x100, cyl / 0x100 % 0x100, 0, 0, 0], (lba + 1 - sect) % (16 * 63) / 63)
  }

  /** The drive and head register: the fields of the or-ed values do not overlap. */
  function SelectFor(mode: Mode, drive: int, head: u8): u8
    requires 0 <= drive < 2 && head < 0x10
  {
    (if mode == CHS then 0xA0 else 0xE0) + 0x10 * drive + head as int
  }

  /** The parameter registers after the writes of ide_ata_access, in their order. */
  function Programmed(t: TaskFile, mode: Mode, drive: int, a: Address, count: u8): TaskFile
    requires 0 <= drive < 2 && |a.io| == 6 && a.head < 0x10
  {
    var t0 := Poked(t, 6, SelectFor(mode, drive, a.head));
    var t1 := if mode == LBA48 then Poked(Poked(Poked(Poked(t0, 2, 0), 3, a.io[3]), 4, a.io[4]), 5, a.io[5]) else t0;
    Poked(Poked(Poked(Poked(t1, 2, count), 3, a.io[0]), 4, a.io[1]), 5, a.io[2])
  }

  /** Where the three modes stop. */
  function ModeLimit(mode: Mode): int {
    match mode
    case CHS => LIMIT_CHS
    case LBA28 => LIMIT28
    case LBA48 => LIMIT48
  }

  /** The number of sectors that a device understands. */
  function Understood(mode: Mode, count: u8): int {
    if count != 0 then count as int else if mode == LBA48 then 0x1_0000 else 0x100
  }

  lemma Digits(x: int)
    requires 0 <= x
    ensures x ==
      x % 0x100 + 0x100 * (x / 0x100 % 0x100) + 0x1_0000 * (x / 0x1_0000 % 0x100) + 0x100_0000 * (x / 0x100_0000)
  {
    var q := x / 0x100;
    var r := q / 0x100;
    assert r == x / 0x1_0000;
    assert r / 0x100 == x / 0x100_0000;
  }

  /** The fields of the drive and head register. */
  lemma SelectBits(mode: Mode, drive: int, head: u8)
    requires 0 <= drive < 2 && head < 0x10
    ensures var s: int := SelectFor(mode, drive, head);
      s / 0x40 % 2 == (if mode == CHS then 0 else 1) && s / 0x10 % 2 == drive && s % 0x10 == head
  {
  }

  /** The registers hold the last write, those written twice also the one before. */
  lemma ProgrammedFields(t: TaskFile, mode: Mode, drive: int, a: Address, count: u8)
    requires 0 <= drive < 2 && |a.io| == 6 && a.head < 0x10
    ensures var p := Programmed(t, mode, drive, a, count);
      && p.device == SelectFor(mode, drive, a.head)
      && p.count.current == count && p.low.current == a.io[0] && p.mid.current == a.io[1] && p.high.current == a.io[2]
      && (mode == LBA48 ==>
            p.count.previous == 0 && p.low.previous == a.io[3] && p.mid.previous == a.io[4]
              && p.high.previous == a.io[5])
  {
  }

  lemma DecodesLong(t: TaskFile, drive: int, lba: u32, count: u8)
    requires 0 <= drive < 2
    ensures OrderOf(Programmed(t, LBA48, drive, AddressFor(LBA48, lba), count), true)
         == Order(drive, lba, Understood(LBA48, count), LIMIT48)
  {
    hide Programmed, SelectFor;
    var a := AddressFor(LBA48, lba);
    ProgrammedFields(t, LBA48, drive, a, count);
    SelectBits(LBA48, drive, a.head);
    Digits(lba);
  }

  lemma DecodesShort(t: TaskFile, drive: int, lba: u32, count: u8)
    requires 0 <= drive < 2 && lba < LIMIT28
    ensures OrderOf(Programmed(t, LBA28, drive, AddressFor(LBA28, lba), count), false)
         == Order(drive, lba, Understood(LBA28, count), LIMIT28)
  {
    hide Programmed, SelectFor, AddressFor;
    var a := AddressFor(LBA28, lba);
    ProgrammedFields(t, LBA28, drive, a, count);
    SelectBits(LBA28, drive, a.head);
    ShortAddress(lba);
  }

  lemma ShortAddress(lba: u32)
    requires lba < LIMIT28
    ensures var a := AddressFor(LBA28, lba); var low: int, mid: int, high: int, head: int := a.io[0], a.io[1], a.io[2],
      a.head;
      low + 0x100 * mid + 0x1_0000 * high + 0x100_0000 * head == lba
  {
    Digits(lba);
  }

  /** Whatever the registers held, the device reads back the address, the drive and the count that were meant. */
  lemma DecodesLinear(t: TaskFile, mode: Mode, drive: int, lba: u32, count: u8)
    requires 0 <= drive < 2 && mode != CHS && (mode == LBA28 ==> lba < LIMIT28)
    ensures OrderOf(Programmed(t, mode, drive, AddressFor(mode, lba), count), mode == LBA48)
         == Order(drive, lba, Understood(mode, count), ModeLimit(mode))
  {
    if mode == LBA48 {
      DecodesLong(t, drive, lba, count);
    } else {
      DecodesShort(t, drive, lba, count);
    }
  }

  /** The address that cylinder, head and sector registers express: cylinders beyond 16 bits are cut off. */
  lemma CylinderHeadSector(lba: int)
    requires 0 <= lba
    ensures var sect := lba % 63 + 1; var cyl := (lba + 1 - sect) / 1008 % 0x1_0000;
      (cyl * 16 + (lba + 1 - sect) % 1008 / 63) * 63 + sect - 1 == lba % LIMIT_CHS
  {
    var q := lba / 63;
    var c, h := q / 16, q % 16;
    assert lba - lba % 63 == 63 * q == 1008 * c + 63 * h;
    assert (1008 * c + 63 * h) / 1008 == c && (1008 * c + 63 * h) % 1008 == 63 * h;
    var cyl := c % 0x1_0000;
    Remainder(lba, c / 0x1_0000, 1008 * cyl + 63 * h + lba % 63);
  }

  lemma Remainder(x: int, k: int, r: int)
    requires x == LIMIT_CHS * k + r && 0 <= r < LIMIT_CHS
    ensures x % LIMIT_CHS == r
  {
  }

  lemma DecodesCHS(t: TaskFile, drive: int, lba: u32, count: u8)
    requires 0 <= drive < 2
    ensures OrderOf(Programmed(t, CHS, drive, AddressFor(CHS, lba), count), false)
         == Order(drive, lba % LIMIT_CHS, Understood(CHS, count), LIMIT_CHS)
  {
    hide Programmed, SelectFor;
    var a := AddressFor(CHS, lba);
    ProgrammedFields(t, CHS, drive, a, count);
    SelectBits(CHS, drive, a.head);
    CylinderHeadSector(lba);
  }

  /** The order that a device gets for a request, whatever the registers held. */
  function OrderFor(dev: Device, lba: u32, count: u8): Order {
    var mode := ModeOf(dev, lba);
    Order(dev.drive, if mode == CHS then lba % LIMIT_CHS else lba, Understood(mode, count), ModeLimit(mode))
  }

  /** The device register selects the drive, and addresses by LBA exactly from 2^28 on or for drives that have it. */
  lemma DeviceRegister(t: TaskFile, dev: Device, lba: u32, count: u8)
    requires 0 <= dev.drive < 2
    ensures var mode := ModeOf(dev, lba);
      var d := Programmed(t, mode, dev.drive, AddressFor(mode, lba), count).device;
      (d / 0x40 % 2 == 1 <==> lba >= 0x1000_0000 || dev.lba) && d / 0x10 % 2 == dev.drive
  {
    hide Programmed, SelectFor, AddressFor;
    var mode := ModeOf(dev, lba);
    var a := AddressFor(mode, lba);
    ProgrammedFields(t, mode, dev.drive, a, count);
    SelectBits(mode, dev.drive, a.head);
  }

  /** The order in numbers: which address, how many sectors, and where the addresses of the mode end. */
  lemma OrderInNumbers(dev: Device, lba: u32, count: u8)
    ensures var o := OrderFor(dev, lba, count); var long := lba >= 0x1000_0000;
      && o.drive == dev.drive
      && o.lba == (if long || dev.lba then lba as int else lba % (65536 * 1008))
      && o.count == (if count != 0 then count as int else if long then 65536 else 256)
      && o.limit == if long then 0x1_0000_0000_0000 else if dev.lba then 0x1000_0000 else 65536 * 1008
  {
  }

  lemma OrderBounds(dev: Device, lba: u32, count: u8, disks: seq<Disk>)
    ensures var o := OrderFor(dev, lba, count);
      && count as int <= o.count && 0 < o.count && (count != 0 ==> o.count == count as int)
      && (InRange(o, disks) ==> 0 <= o.drive < |disks| && 0 <= o.lba && o.lba + o.count <= |disks[o.drive]|)
  {
  }

  /** It is the one that was meant exactly for a count other than 0 and, without LBA, an address below the limit. */
  lemma OrderExact(dev: Device, lba: u32, count: u8)
    ensures OrderFor(dev, lba, count).lba == lba && OrderFor(dev, lba, count).count == count
            <==> count != 0 && (ModeOf(dev, lba) == CHS ==> lba < LIMIT_CHS)
  {
  }

  /** The device carries out what was meant exactly for a count other than 0 and sectors below the end of the disk
      and below the limit of the mode. */
  lemma MeantExactly(dev: Device, lba: u32, count: u8, disks: seq<Disk>)
    requires 0 <= dev.drive < |disks|
    ensures var o := OrderFor(dev, lba, count); var end := lba + count as int;
      InRange(o, disks) && o.lba == lba && o.count == count as int
      <==> count != 0 && end <= |disks[dev.drive]| && end <= ModeLimit(ModeOf(dev, lba))
  {
    OrderExact(dev, lba, count);
  }

  lemma Decodes(t: TaskFile, dev: Device, lba: u32, count: u8)
    requires 0 <= dev.drive < 2
    ensures var mode := ModeOf(dev, lba);
      OrderOf(Programmed(t, mode, dev.drive, AddressFor(mode, lba), count), mode == LBA48) == OrderFor(dev, lba, count)
  {
    hide Programmed, AddressFor, OrderOf;
    if ModeOf(dev, lba) == CHS {
      DecodesCHS(t, dev.drive, lba, count);
    } else {
      DecodesLinear(t, ModeOf(dev, lba), dev.drive, lba, count);
    }
  }

  // ---------------------------------------------------------------- sectors as an array

  /** The bytes of n sectors from lba on. */
  ghost function Read(d: Disk, lba: nat, n: nat): (r: seq<u8>)
    requires lba + n <= |d| && DiskValid(d)
    ensures |r| == SECTOR * n
  {
    if n == 0 then [] else Read(d, lba, n - 1) + d[lba + n - 1]
  }

  /** The buffer after n sectors have been received. */
  ghost predicate Received(d: Disk, lba: nat, n: nat, before: seq<u8>, now: seq<u8>)
    requires SECTOR * n <= |before|
  {
    lba + n <= |d| && DiskValid(d) && now == Read(d, lba, n) + before[SECTOR * n..]
  }

  lemma NoneReceived(d: Disk, lba: nat, before: seq<u8>)
    requires lba <= |d| && DiskValid(d)
    ensures Received(d, lba, 0, before, before)
  {
  }

  /** One more sector in the buffer. */
  lemma OneReceived(d: Disk, lba: nat, n: nat, before: seq<u8>, was: seq<u8>, now: seq<u8>)
    requires lba + n < |d| && SECTOR * (n + 1) <= |before| == |was| && |d[lba + n]| == SECTOR
    requires Received(d, lba, n, before, was)
    requires now == was[..SECTOR * n] + d[lba + n] + was[SECTOR * n + SECTOR..]
    ensures Received(d, lba, n + 1, before, now)
  {
    var r := Read(d, lba, n);
    assert was[..SECTOR * n] == r;
    assert was[SECTOR * n + SECTOR..] == before[SECTOR * (n + 1)..];
  }

  /** The disk with n sectors from lba on replaced by the data. */
  ghost function Written(d: Disk, lba: nat, data: seq<u8>, n: nat): (r: Disk)
    requires lba + n <= |d| && DiskValid(d) && SECTOR * n <= |data|
    ensures |r| == |d| && DiskValid(r)
  {
    if n == 0 then d else Written(d, lba, data, n - 1)[lba + n - 1 := data[SECTOR * (n - 1)..SECTOR * n]]
  }

  lemma {:induction false} WrittenSectors(d: Disk, lba: nat, data: seq<u8>, n: nat, i: nat)
    requires lba + n <= |d| && DiskValid(d) && SECTOR * n <= |data| && i < |d|
    ensures Written(d, lba, data, n)[i]
         == if lba <= i < lba + n then data[SECTOR * (i - lba)..SECTOR * (i - lba + 1)] else d[i]
  {
    if n > 0 {
      WrittenSectors(d, lba, data, n - 1, i);
    }
  }

  /** Reading what was written returns the data. */
  lemma {:induction false} WriteThenRead(d: Disk, lba: nat, data: seq<u8>, n: nat)
    requires lba + n <= |d| && DiskValid(d) && SECTOR * n <= |data|
    ensures Read(Written(d, lba, data, n), lba, n) == data[..SECTOR * n]
  {
    ReadPrefix(Written(d, lba, data, n), lba, data, n, n, d);
  }

  lemma {:induction false} ReadPrefix(w: Disk, lba: nat, data: seq<u8>, k: nat, n: nat, d: Disk)
    requires k <= n && lba + n <= |d| && DiskValid(d) && SECTOR * n <= |data| && w == Written(d, lba, data, n)
    ensures Read(w, lba, k) == data[..SECTOR * k]
  {
    hide Written;
    if k > 0 {
      ReadPrefix(w, lba, data, k - 1, n, d);
      WrittenSectors(d, lba, data, n, lba + k - 1);
      assert data[..SECTOR * k] == data[..SECTOR * (k - 1)] + data[SECTOR * (k - 1)..SECTOR * k];
    }
  }

  ghost predicate Carried(o: Order, n: int, disks: seq<Disk>) {
    0 < n <= o.count && InRange(o, disks) && forall d :: 0 <= d < |disks| ==> DiskValid(disks[d])
  }

  /**
   * What reading n sectors does for the order that the device gets: the ordered sectors arrive, or the refusal is
   * reported.
   */
  ghost predicate ReadDone(o: Order, n: nat, disks: seq<Disk>, before: seq<u8>, after: seq<u8>, phase: Phase, err: int)
    requires SECTOR * n <= |before|
  {
    if Carried(o, n, disks) then
      err == 0 && phase == Ready && after == Read(disks[o.drive], o.lba, n) + before[SECTOR * n..]
    else
      && after == before && err == (if n == 0 then 0 else 2)
      && (n == 0 && InRange(o, disks) ==> phase == Sending(o.drive, o.lba, o.count, 0))
  }

  lemma AllReceived(o: Order, n: nat, disks: seq<Disk>, before: seq<u8>, now: seq<u8>, phase: Phase)
    requires SECTOR * n <= |before| && n <= o.count && (forall d :: 0 <= d < |disks| ==> DiskValid(disks[d]))
    requires n == 0 ==> now == before
    requires n > 0 ==> InRange(o, disks) && phase == Ready && Received(disks[o.drive], o.lba, n, before, now)
    requires n == 0 && InRange(o, disks) ==> phase == Sending(o.drive, o.lba, o.count, 0)
    ensures ReadDone(o, n, disks, before, now, phase, 0)
  {
  }

  lemma NoneDone(o: Order, n: nat, disks: seq<Disk>, before: seq<u8>, phase: Phase)
    requires 0 < n && SECTOR * n <= |before| && !InRange(o, disks)
    ensures ReadDone(o, n, disks, before, before, phase, 2)
  {
  }

  /** The disks after n sectors of an order have been sent. */
  ghost predicate Sent(disks: seq<Disk>, disks': seq<Disk>, o: Order, data: seq<u8>, n: nat) {
    && 0 <= o.drive < |disks| && DiskValid(disks[o.drive]) && 0 <= o.lba && o.lba + n <= |disks[o.drive]|
    && SECTOR * n <= |data| && disks' == disks[o.drive := Written(disks[o.drive], o.lba, data, n)]
  }

  lemma NoneSent(disks: seq<Disk>, o: Order, data: seq<u8>)
    requires forall d :: 0 <= d < |disks| ==> DiskValid(disks[d])
    ensures InRange(o, disks) && o.count >= 0 ==> Sent(disks, disks, o, data, 0)
  {
  }

  lemma SentLength(disks: seq<Disk>, disks': seq<Disk>, o: Order, data: seq<u8>, n: nat)
    requires Sent(disks, disks', o, data, n)
    ensures 0 <= o.drive < |disks| == |disks'| && |disks'[o.drive]| == |disks[o.drive]|
  {
  }

  lemma OneSent(disks: seq<Disk>, was: seq<Disk>, now: seq<Disk>, o: Order, data: seq<u8>, n: nat)
    requires Sent(disks, was, o, data, n) && SECTOR * (n + 1) <= |data| && o.lba + n < |disks[o.drive]|
    requires now == was[o.drive := was[o.drive][o.lba + n := data[SECTOR * n..SECTOR * n + SECTOR]]]
    ensures Sent(disks, now, o, data, n + 1)
  {
    assert data[SECTOR * n..SECTOR * (n + 1)] == data[SECTOR * n..SECTOR * n + SECTOR];
  }

  lemma AllSent(o: Order, n: nat, disks: seq<Disk>, disks': seq<Disk>, data: seq<u8>)
    requires SECTOR * n <= |data| && n <= o.count && (forall d :: 0 <= d < |disks| ==> DiskValid(disks[d]))
    requires if InRange(o, disks) then Sent(disks, disks', o, data, n) else disks' == disks
    ensures WriteDone(o, n, disks, disks', data, Ready, 0)
  {
    if n == 0 && InRange(o, disks) {
      assert Written(disks[o.drive], o.lba, data, 0) == disks[o.drive];
    }
  }

  /** What writing does: the ordered sectors change and no others, or none do; either way no error is reported. */
  ghost predicate WriteDone(o: Order, n: nat, disks: seq<Disk>, disks': seq<Disk>,
                            data: seq<u8>, phase: Phase, err: int)
    requires SECTOR * n <= |data|
  {
    && err == 0 && phase == Ready
    && disks' == if Carried(o, n, disks) then disks[o.drive := Written(disks[o.drive], o.lba, data, n)] else disks
  }

  // ---------------------------------------------------------------- the driver

  const ATA_REG_SECCOUNT0: int := 0x02
  const ATA_REG_LBA0: int := 0x03
  const ATA_REG_LBA1: int := 0x04
  const ATA_REG_LBA2: int := 0x05
  const ATA_REG_HDDEVSEL: int := 0x06
  const ATA_REG_COMMAND: int := 0x07
  const ATA_REG_SECCOUNT1: int := 0x08
  const ATA_REG_LBA3: int := 0x09
  const ATA_REG_LBA4: int := 0x0A
  const ATA_REG_LBA5: int := 0x0B
  const ATA_REG_CONTROL: int := 0x0C
  const READ_PIO: int := 0x20
  const READ_PIO_EXT: int := 0x24
  const WRITE_PIO: int := 0x30
  const WRITE_PIO_EXT: int := 0x34
  const CACHE_FLUSH: int := 0xE7
  const CACHE_FLUSH_EXT: int := 0xEA

  /** A second write to the port of register k, between two to the control port with and without bit 7. */
  function SecondWrite(base: int, control: int, noIntr: u8, k: int, data: u8): seq<(int, int)> {
    [(control + 2, 0x80 + noIntr as int), (base + k, data as int), (control + 2, noIntr as int)]
  }

  /** The port writes for the parameters of an order. */
  function ParameterWrites(base: int, control: int, noIntr: u8, mode: Mode, drive: int, a: Address,
    count: u8): seq<(int,
    int)>
    requires 0 <= drive < 2 && |a.io| == 6 && a.head < 0x10
  {
    [(base + 6, SelectFor(mode, drive, a.head) as int)]
    + (if mode == LBA48 then
         SecondWrite(base, control, noIntr, 2, 0) + SecondWrite(base, control, noIntr, 3, a.io[3])
         + SecondWrite(base, control, noIntr, 4, a.io[4]) + SecondWrite(base, control, noIntr, 5, a.io[5])
       else [])
    + [(base + 2, count as int), (base + 3, a.io[0] as int), (base + 4, a.io[1] as int), (base + 5, a.io[2] as int)]
  }

  /** All port writes of ide_ata_access up to the command. */
  function OrderWrites(base: int, control: int, write: bool, dev: Device, lba: u32, count: u8): seq<(int, int)>
    requires 0 <= dev.drive < 2
  {
    var mode := ModeOf(dev, lba);
    [(control + 2, 2)] + ParameterWrites(base, control, 2, mode, dev.drive, AddressFor(mode, lba), count)
    + [(base + 7, if mode == LBA48 then (if write then WRITE_PIO_EXT else READ_PIO_EXT)
                  else (if write then WRITE_PIO else READ_PIO))]
  }

  /** The same in numbers, mode by mode. */
  lemma WritesInNumbers(base: int, control: int, write: bool, dev: Device, lba: u32, count: u8)
    requires 0 <= dev.drive < 2
    ensures var w := OrderWrites(base, control, write, dev, lba, count); var n := count as int; var c := control + 2;
      if lba >= 0x1000_0000 then
        w == [(c, 2), (base + 6, 0xE0 + 0x10 * dev.drive),
              (c, 0x82), (base + 2, 0), (c, 2), (c, 0x82), (base + 3, lba / 0x100_0000 % 0x100), (c, 2),
              (c, 0x82), (base + 4, 0), (c, 2), (c, 0x82), (base + 5, 0), (c, 2),
              (base + 2, n), (base + 3, lba % 0x100), (base + 4, lba / 0x100 % 0x100),
                (base + 5, lba / 0x1_0000 % 0x100),
              (base + 7, if write then 0x34 else 0x24)]
      else if dev.lba then
        w == [(c, 2), (base + 6, 0xE0 + 0x10 * dev.drive + lba / 0x100_0000),
              (base + 2, n), (base + 3, lba % 0x100), (base + 4, lba / 0x100 % 0x100),
                (base + 5, lba / 0x1_0000 % 0x100),
              (base + 7, if write then 0x30 else 0x20)]
      else
        var track, cylinder := lba / 63, lba / 1008 % 0x1_0000;
        w == [(c, 2), (base + 6, 0xA0 + 0x10 * dev.drive + track % 16),
              (base + 2, n), (base + 3, lba % 63 + 1), (base + 4, cylinder % 0x100), (base + 5, cylinder / 0x100),
              (base + 7, if write then 0x30 else 0x20)]
  {
    hide ParameterWrites, AddressFor, SelectFor;
    if lba >= 0x1000_0000 {
      LongParameters(base, control, dev.drive, lba, count);
    } else if dev.lba {
      ShortParameters(base, control, dev.drive, lba, count);
    } else {
      TrackParameters(base, control, dev.drive, lba, count);
    }
  }

  lemma LongParameters(base: int, control: int, drive: int, lba: u32, count: u8)
    requires 0 <= drive < 2
    ensures var c := control + 2;
      ParameterWrites(base, control, 2, LBA48, drive, AddressFor(LBA48, lba), count) ==
      [(base + 6, 0xE0 + 0x10 * drive),
       (c, 0x82), (base + 2, 0), (c, 2), (c, 0x82), (base + 3, lba / 0x100_0000 % 0x100), (c, 2),
       (c, 0x82), (base + 4, 0), (c, 2), (c, 0x82), (base + 5, 0), (c, 2),
       (base + 2, count as int), (base + 3, lba % 0x100), (base + 4, lba / 0x100 % 0x100),
         (base + 5, lba / 0x1_0000 % 0x100)]
  {
  }

  lemma ShortParameters(base: int, control: int, drive: int, lba: u32, count: u8)
    requires 0 <= drive < 2 && lba < 0x1000_0000
    ensures ParameterWrites(base, control, 2, LBA28, drive, AddressFor(LBA28, lba), count) ==
      [(base + 6, 0xE0 + 0x10 * drive + lba / 0x100_0000),
       (base + 2, count as int), (base + 3, lba % 0x100), (base + 4, lba / 0x100 % 0x100),
         (base + 5, lba / 0x1_0000 % 0x100)]
  {
  }

  lemma TrackParameters(base: int, control: int, drive: int, lba: u32, count: u8)
    requires 0 <= drive < 2
    ensures var track, cylinder := lba / 63, lba / 1008 % 0x1_0000;
      ParameterWrites(base, control, 2, CHS, drive, AddressFor(CHS, lba), count) ==
      [(base + 6, 0xA0 + 0x10 * drive + track % 16),
       (base + 2, count as int), (base + 3, lba % 63 + 1), (base + 4, cylinder % 0x100), (base + 5, cylinder / 0x100)]
  {
    TrackAndHead(lba as int);
  }

  lemma TrackAndHead(lba: int)
    requires 0 <= lba
    ensures var first := lba + 1 - (lba % 63 + 1);
      first / (16 * 63) == lba / 1008 && first % (16 * 63) / 63 == lba / 63 % 16
  {
    var q := lba / 63;
    SplitAddress(lba, q / 16, q % 16, lba % 63);
    SplitAddress(lba - lba % 63, q / 16, q % 16, 0);
  }

  lemma SplitAddress(n: int, cylinder: int, head: int, sector: int)
    requires n == 1008 * cylinder + 63 * head + sector && 0 <= head < 16 && 0 <= sector < 63
    ensures n / 1008 == cylinder && n % 1008 / 63 == head
  {
    assert n % 1008 == 63 * head + sector;
  }

  /** One entry of g_ide_channels with the channel behind it. */
  class Channel {
    const bus: Bus
    const control: int
    var noIntr: u8

    ghost predicate Valid()
      reads this, bus
    {
      bus.Valid() && !(bus.base + 1 <= control + 2 <= bus.base + 7) && noIntr < 0x80
    }

    constructor (bus: Bus, control: int)
      requires bus.Valid() && !(bus.base + 1 <= control + 2 <= bus.base + 7)
      ensures Valid() && this.bus == bus && this.control == control
    {
      this.bus, this.control, noIntr := bus, control, 0;
    }

    /** ide_write_register: the registers 8 to 11 are second writes to the ports of 2 to 5. */
    method WriteRegister(reg: int, data: u8)
      requires Valid() && 0 < reg <= ATA_REG_CONTROL
      modifies bus`task, bus`phase, bus`log
      ensures Valid()
      ensures reg <= 6 ==> bus.task == Poked(old(bus.task), reg, data) && bus.phase == old(bus.phase)
      ensures reg == 7 ==> bus.task == old(bus.task) && bus.phase == Started(bus.task, data, bus.disks)
      ensures 8 <= reg < 0x0C ==> bus.task == Poked(old(bus.task), reg - 6, data) && bus.phase == old(bus.phase)
      ensures reg == ATA_REG_CONTROL ==> bus.task == old(bus.task) && bus.phase == old(bus.phase)
      ensures bus.log == old(bus.log) +
        if reg < 8 then [(bus.base + reg, data as int)]
        else if reg < 12 then SecondWrite(bus.base, control, noIntr, reg - 6, data)
        else [(control + 2, data as int)]
      decreases if reg == ATA_REG_CONTROL then 0 else 1
    {
      if 0x07 < reg < 0x0C {
        WriteRegister(ATA_REG_CONTROL, 0x80 + noIntr as int);
      }
      if reg < 0x08 {
        bus.Out8(bus.base + reg, data);
      } else if reg < 0x0C {
        bus.Out8(bus.base + reg - 0x06, data);
      } else {
        bus.Out8(control + reg - 0x0A, data);
      }
      if 0x07 < reg < 0x0C {
        WriteRegister(ATA_REG_CONTROL, noIntr);
      }
    }

    /** The second writes for a 48-bit address, with a count whose upper byte is 0. */
    method SecondWrites(a: Address)
      requires Valid() && |a.io| == 6
      modifies bus`task, bus`phase, bus`log
      ensures Valid()
      ensures bus.task ==
        Poked(Poked(Poked(Poked(old(bus.task), 2, 0), 3, a.io[3]), 4, a.io[4]), 5, a.io[5])
      ensures bus.log == old(bus.log) +
        (SecondWrite(bus.base, control, noIntr, 2, 0) + SecondWrite(bus.base, control, noIntr, 3, a.io[3])
         + SecondWrite(bus.base, control, noIntr, 4, a.io[4]) + SecondWrite(bus.base, control, noIntr, 5, a.io[5]))
    {
      hide Poked, SecondWrite;
      WriteRegister(ATA_REG_SECCOUNT1, 0);
      WriteRegister(ATA_REG_LBA3, a.io[3]);
      WriteRegister(ATA_REG_LBA4, a.io[4]);
      WriteRegister(ATA_REG_LBA5, a.io[5]);
    }

    /** The parameter writes of ide_ata_access. */
    method Programme(mode: Mode, drive: int, a: Address, count: u8)
      requires Valid() && 0 <= drive < 2 && |a.io| == 6 && a.head < 0x10
      modifies bus`task, bus`phase, bus`log
      ensures Valid() && bus.task == Programmed(old(bus.task), mode, drive, a, count)
      ensures bus.log == old(bus.log) + ParameterWrites(bus.base, control, noIntr, mode, drive, a, count)
    {
      hide Poked, SelectFor, SecondWrite;
      WriteRegister(ATA_REG_HDDEVSEL, SelectFor(mode, drive, a.head));
      if mode == LBA48 {
        SecondWrites(a);
      }
      LastWrites(a, count);
    }

    /** The writes that every mode ends with. */
    method LastWrites(a: Address, count: u8)
      requires Valid() && |a.io| == 6
      modifies bus`task, bus`phase, bus`log
      ensures Valid()
      ensures bus.task == Poked(Poked(Poked(Poked(old(bus.task), 2, count), 3, a.io[0]), 4, a.io[1]), 5, a.io[2])
      ensures bus.log == old(bus.log) +
        [(bus.base + 2, count as int), (bus.base + 3, a.io[0] as int),
         (bus.base + 4, a.io[1] as int), (bus.base + 5, a.io[2] as int)]
    {
      hide Poked;
      WriteRegister(ATA_REG_SECCOUNT0, count);
      WriteRegister(ATA_REG_LBA0, a.io[0]);
      WriteRegister(ATA_REG_LBA1, a.io[1]);
      WriteRegister(ATA_REG_LBA2, a.io[2]);
    }

    /** ide_polling: the device is never busy here. */
    method Polling(advancedCheck: bool) returns (err: u8)
      requires Valid()
      ensures !advancedCheck ==> err == 0
      ensures advancedCheck ==> err == if bus.phase.Aborted? then 2 else if bus.phase.Ready? then 3 else 0
    {
      if advancedCheck && bus.phase.Aborted? {
        return 2;
      }
      if advancedCheck && bus.phase.Ready? {
        return 3;
      }
      return 0;
    }

    /** rep insw for one sector. */
    method ReceiveSector(buffer: array<u8>, at: nat)
      requires Valid() && bus.phase.Sending? && bus.phase.word == 0 && at + SECTOR <= buffer.Length
      modifies bus`phase, buffer
      ensures Valid()
      ensures var Sending(d, lba, left, _) := old(bus.phase);
        && buffer[..] == old(buffer[..])[..at] + bus.disks[d][lba] + old(buffer[..])[at + SECTOR..]
        && bus.phase == if left > 1 then Sending(d, lba + 1, left - 1, 0) else Ready
    {
      ghost var Sending(d, lba, left, _) := bus.phase;
      ghost var s := bus.disks[d][lba];
      var w := 0;
      while w < WORDS
        invariant 0 <= w <= WORDS && Valid()
        invariant bus.phase ==
          if w < WORDS then Sending(d, lba, left, w)
          else if left > 1 then Sending(d, lba + 1, left - 1, 0) else Ready
        invariant forall i :: 0 <= i < 2 * w ==> buffer[at + i] == s[i]
        invariant forall i :: 0 <= i < buffer.Length && !(at <= i < at + SECTOR) ==> buffer[i] == old(buffer[i])
      {
        var word := bus.In16();
        buffer[at + 2 * w], buffer[at + 2 * w + 1] := word % 0x100, word / 0x100;
        w := w + 1;
      }
      assert buffer[..] == buffer[..at] + buffer[at..at + SECTOR] + buffer[at + SECTOR..];
      assert buffer[at..at + SECTOR] == s;
      assert buffer[..at] == old(buffer[..])[..at] && buffer[at + SECTOR..] == old(buffer[..])[at + SECTOR..];
    }

    /** rep outsw for one sector. */
    method SendSector(buffer: array<u8>, at: nat)
      requires Valid() && at + SECTOR <= buffer.Length && (bus.phase.Receiving? ==> bus.phase.got == [])
      modifies bus`phase, bus`disks
      ensures Valid()
      ensures !old(bus.phase).Receiving? ==> bus.phase == old(bus.phase) && bus.disks == old(bus.disks)
      ensures old(bus.phase).Receiving? ==>
        var Receiving(d, lba, left, _) := old(bus.phase);
        && bus.disks == old(bus.disks)[d := old(bus.disks)[d][lba := buffer[at..at + SECTOR]]]
        && bus.phase == if left > 1 then Receiving(d, lba + 1, left - 1, []) else Ready
    {
      ghost var phase, disks := bus.phase, bus.disks;
      var w := 0;
      while w < WORDS
        invariant 0 <= w <= WORDS && Valid()
        invariant !phase.Receiving? ==> bus.phase == phase && bus.disks == disks
        invariant phase.Receiving? && w < WORDS ==>
          bus.disks == disks && bus.phase == phase.(got := buffer[at..at + 2 * w])
        invariant phase.Receiving? && w == WORDS ==>
          && bus.disks == disks[phase.drive := disks[phase.drive][phase.lba := buffer[at..at + SECTOR]]]
          && bus.phase == if phase.left > 1 then Receiving(phase.drive, phase.lba + 1, phase.left - 1, []) else Ready
      {
        var b0: int, b1: int := buffer[at + 2 * w], buffer[at + 2 * w + 1];
        assert buffer[at..at + 2 * (w + 1)] == buffer[at..at + 2 * w] + [buffer[at + 2 * w], buffer[at + 2 * w + 1]];
        bus.Out16(b0 + 0x100 * b1);
        w := w + 1;
      }
    }

    /** The part of ide_ata_access up to the command, which leaves the device in the phase for the order. */
    method Command(write: bool, dev: Device, lba: u32, count: u8)
      requires Valid() && 0 <= dev.drive < 2
      modifies this`noIntr, bus`task, bus`phase, bus`log
      ensures Valid()
      ensures var o := OrderFor(dev, lba, count);
        bus.phase == if !InRange(o, bus.disks) then Aborted
                     else if write then Receiving(o.drive, o.lba, o.count, []) else Sending(o.drive, o.lba, o.count, 0)
      ensures bus.task.device / 0x40 % 2 == 1 <==> lba >= 0x1000_0000 || dev.lba
      ensures bus.task.device / 0x10 % 2 == dev.drive
      ensures noIntr == 2 && bus.log == old(bus.log) + OrderWrites(bus.base, control, write, dev, lba, count)
    {
      hide Programmed, AddressFor, OrderOf, OrderFor, ParameterWrites, SelectFor, InRange;
      noIntr := 0x02;
      WriteRegister(ATA_REG_CONTROL, noIntr);
      var mode := ModeOf(dev, lba);
      Decodes(bus.task, dev, lba, count);
      DeviceRegister(bus.task, dev, lba, count);
      Programme(mode, dev.drive, AddressFor(mode, lba), count);
      var cmd := if mode == LBA48 then (if write then WRITE_PIO_EXT else READ_PIO_EXT)
                 else (if write then WRITE_PIO else READ_PIO);
      WriteRegister(ATA_REG_COMMAND, cmd);
    }

    /** The data of the next sector, in the transfer loop. */
    method ReceiveNext(buffer: array<u8>, i: nat, ghost o: Order, ghost before: seq<u8>)
      requires Valid() && i < o.count && 0 <= o.drive < 2 && 0 <= o.lba && o.lba + o.count <= |bus.disks[o.drive]|
      requires SECTOR * (i + 1) <= |before| == buffer.Length
      requires bus.phase == Sending(o.drive, o.lba + i, o.count - i, 0)
      requires Received(bus.disks[o.drive], o.lba, i, before, buffer[..])
      modifies bus`phase, buffer
      ensures Valid()
      ensures bus.phase == if i + 1 < o.count then Sending(o.drive, o.lba + (i + 1), o.count - (i + 1), 0) else Ready
      ensures Received(bus.disks[o.drive], o.lba, i + 1, before, buffer[..])
    {
      hide Received;
      ghost var d, was := bus.disks[o.drive], buffer[..];
      ReceiveSector(buffer, SECTOR * i);
      OneReceived(d, o.lba, i, before, was, buffer[..]);
    }

    /** ide_ata_access for reading: the transfer loop receives the sectors in order. */
    method AccessRead(dev: Device, lba: u32, count: u8, buffer: array<u8>) returns (err: u8)
      requires Valid() && 0 <= dev.drive < 2 && SECTOR * count as int <= buffer.Length
      modifies this`noIntr, bus`task, bus`phase, bus`log, buffer
      ensures Valid()
      ensures ReadDone(OrderFor(dev, lba, count), count as int, bus.disks, old(buffer[..]), buffer[..], bus.phase, err)
      ensures bus.log == old(bus.log) + OrderWrites(bus.base, control, false, dev, lba, count)
    {
      hide OrderFor, InRange, Received, ReadDone, OrderWrites;
      ghost var before := buffer[..];
      Command(false, dev, lba, count);
      ghost var sent := bus.log;
      ghost var o := OrderFor(dev, lba, count);
      ghost var accepted := InRange(o, bus.disks);
      OrderBounds(dev, lba, count, bus.disks);
      if accepted {
        NoneReceived(bus.disks[o.drive], o.lba, before);
      }
      var i := 0;
      while i < count
        invariant 0 <= i <= count as int && Valid() && bus.log == sent
        invariant !accepted ==> i == 0 && bus.phase == Aborted
        invariant i == 0 ==> buffer[..] == before
        invariant accepted ==> bus.phase == if i < o.count then Sending(o.drive, o.lba + i, o.count - i, 0) else Ready
        invariant accepted ==> Received(bus.disks[o.drive], o.lba, i, before, buffer[..])
      {
        var e := Polling(true);
        if e != 0 {
          NoneDone(o, count as int, bus.disks, before, bus.phase);
          return e;
        }
        ReceiveNext(buffer, i, o, before);
        i := i + 1;
      }
      AllReceived(o, i, bus.disks, before, buffer[..], bus.phase);
      return 0;
    }

    /** The data of the next sector, in the transfer loop; a device that has refused the order takes nothing. */
    method SendNext(buffer: array<u8>, i: nat, ghost o: Order, ghost disks: seq<Disk>, ghost accepted: bool)
      requires Valid() && SECTOR * (i + 1) <= buffer.Length
      requires !accepted ==> bus.phase == Aborted
      requires accepted ==> i < o.count && bus.phase == Receiving(o.drive, o.lba + i, o.count - i, [])
      requires accepted ==> Sent(disks, bus.disks, o, buffer[..], i)
      modifies bus`phase, bus`disks
      ensures Valid()
      ensures !accepted ==> bus.phase == Aborted && bus.disks == old(bus.disks)
      ensures accepted ==>
        bus.phase == if i + 1 < o.count then Receiving(o.drive, o.lba + (i + 1), o.count - (i + 1), []) else Ready
      ensures accepted ==> Sent(disks, bus.disks, o, buffer[..], i + 1)
    {
      hide Sent;
      ghost var was := bus.disks;
      if accepted {
        SentLength(disks, was, o, buffer[..], i);
      }
      SendSector(buffer, SECTOR * i);
      if accepted {
        OneSent(disks, was, bus.disks, o, buffer[..], i);
      }
    }

    /** ide_ata_access for writing: sends the sectors in order and flushes; a refused order goes unnoticed. */
    method AccessWrite(dev: Device, lba: u32, count: u8, buffer: array<u8>) returns (err: u8)
      requires Valid() && 0 <= dev.drive < 2 && SECTOR * count as int <= buffer.Length
      modifies this`noIntr, bus`task, bus`phase, bus`log, bus`disks
      ensures Valid()
      ensures WriteDone(OrderFor(dev, lba, count), count as int, old(bus.disks), bus.disks, buffer[..], bus.phase, err)
      ensures bus.log == old(bus.log) + OrderWrites(bus.base, control, true, dev, lba, count)
                       + [(bus.base + 7, if lba >= 0x1000_0000 then 0xEA else 0xE7)]
    {
      hide OrderFor, InRange, OrderWrites, Sent, WriteDone, OrderOf;
      ghost var disks := bus.disks;
      NoneSent(disks, OrderFor(dev, lba, count), buffer[..]);
      Command(true, dev, lba, count);
      ghost var sent := bus.log;
      ghost var o := OrderFor(dev, lba, count);
      ghost var accepted := InRange(o, disks);
      OrderBounds(dev, lba, count, disks);
      var i := 0;
      while i < count
        invariant 0 <= i <= count as int && Valid() && bus.log == sent
        invariant !accepted ==> bus.phase == Aborted && bus.disks == disks
        invariant accepted ==>
          bus.phase == if i < o.count then Receiving(o.drive, o.lba + i, o.count - i, []) else Ready
        invariant accepted ==> Sent(disks, bus.disks, o, buffer[..], i)
      {
        var e := Polling(false);
        SendNext(buffer, i, o, disks, accepted);
        i := i + 1;
      }
      AllSent(o, count as int, disks, bus.disks, buffer[..]);
      WriteRegister(ATA_REG_COMMAND, if ModeOf(dev, lba) == LBA48 then CACHE_FLUSH_EXT else CACHE_FLUSH);
      return 0;
    }

    /** ide_read_sectors for an ATA drive; the number of a device error is returned untranslated. */
    method ReadSectors(dev: Device, count: u8, lba: u32, buffer: array<u8>) returns (r: int)
      requires Valid() && 0 <= dev.drive < 2 && SECTOR * count as int <= buffer.Length
      requires dev.size == |bus.disks[dev.drive]|
      modifies this`noIntr, bus`task, bus`phase, bus`log, buffer
      ensures Valid()
      ensures (r == -1 <==> !dev.present) && (r == -2 <==> dev.present && Wrap(lba + count as int) > dev.size)
      ensures r == -1 || r == -2 ==>
        buffer[..] == old(buffer[..]) && bus.phase == old(bus.phase) && bus.log == old(bus.log)
      ensures r != -1 && r != -2 ==>
        ReadDone(OrderFor(dev, lba, count), count as int, bus.disks, old(buffer[..]), buffer[..], bus.phase, r)
      ensures dev.present && Reachable(dev, lba, count) ==>
        && r == 0 && bus.phase == Ready
        && buffer[..SECTOR * count as int] == Read(bus.disks[dev.drive], lba, count as int)
        && buffer[SECTOR * count as int..] == old(buffer[SECTOR * count as int..])
      ensures dev.present && (lba + count as int) % 0x1_0000_0000 <= dev.size ==>
        var first := if lba >= 0x1000_0000 || dev.lba then lba as int else lba % (65536 * 1008);
        var limit := if lba >= 0x1000_0000 then dev.size as int else if dev.lba then 0x1000_0000 else 65536 * 1008;
        if count != 0 && first + count as int <= dev.size && first + count as int <= limit then
          && r == 0
          && (forall i :: 0 <= i < 512 * count as int ==> buffer[i] == bus.disks[dev.drive][first + i / 512][i % 512])
          && (forall i :: 512 * count as int <= i < buffer.Length ==> buffer[i] == old(buffer[i]))
        else
          r == (if count == 0 then 0 else 2) && buffer[..] == old(buffer[..])
    {
      hide OrderFor, InRange, Reachable, ReadDone, Read;
      if !dev.present {
        return -1;
      }
      ReachableOrder(dev, lba, count, bus.disks);
      if Wrap(lba + count as int) > dev.size {
        return -2;
      }
      ghost var before := buffer[..];
      var err := AccessRead(dev, lba, count, buffer);
      ReadOutcome(dev, lba, count, bus.disks, before, buffer[..], bus.phase, err);
      if Reachable(dev, lba, count) {
        ReadReached(dev, lba, count, bus.disks, before, buffer[..], bus.phase, err);
      }
      return err;
    }

    /** ide_write_sectors for an ATA drive. */
    method WriteSectors(dev: Device, count: u8, lba: u32, buffer: array<u8>) returns (r: int)
      requires Valid() && 0 <= dev.drive < 2 && SECTOR * count as int <= buffer.Length
      requires dev.size == |bus.disks[dev.drive]|
      modifies this`noIntr, bus`task, bus`phase, bus`log, bus`disks
      ensures Valid()
      ensures (r == -1 <==> !dev.present) && (r == -2 <==> dev.present && Wrap(lba + count as int) > dev.size)
      ensures r == -1 || r == -2 ==>
        bus.disks == old(bus.disks) && bus.phase == old(bus.phase) && bus.log == old(bus.log)
      ensures r != -1 && r != -2 ==>
        WriteDone(OrderFor(dev, lba, count), count as int, old(bus.disks), bus.disks, buffer[..], bus.phase, r)
      ensures dev.present && Reachable(dev, lba, count) ==>
        && r == 0 && bus.phase == Ready
        && bus.disks == old(bus.disks)[dev.drive := Written(old(bus.disks)[dev.drive], lba, buffer[..], count as int)]
      ensures dev.present && (lba + count as int) % 0x1_0000_0000 <= dev.size ==>
        var first := if lba >= 0x1000_0000 || dev.lba then lba as int else lba % (65536 * 1008);
        var limit := if lba >= 0x1000_0000 then dev.size as int else if dev.lba then 0x1000_0000 else 65536 * 1008;
        && r == 0
        && if count != 0 && first + count as int <= dev.size && first + count as int <= limit then
          && bus.disks[1 - dev.drive] == old(bus.disks)[1 - dev.drive]
          && |bus.disks[dev.drive]| == dev.size as int
          && forall s :: 0 <= s < dev.size as int ==>
               bus.disks[dev.drive][s] ==
               if first <= s < first + count as int then buffer[512 * (s - first)..512 * (s - first) + 512]
               else old(bus.disks)[dev.drive][s]
        else bus.disks == old(bus.disks)
    {
      hide OrderFor, InRange, Reachable, WriteDone, Written;
      if !dev.present {
        return -1;
      }
      ReachableOrder(dev, lba, count, bus.disks);
      if Wrap(lba + count as int) > dev.size {
        return -2;
      }
      ghost var before := bus.disks;
      var err := AccessWrite(dev, lba, count, buffer);
      WriteOutcome(dev, lba, count, before, bus.disks, buffer[..], bus.phase, err);
      if Reachable(dev, lba, count) {
        WriteReached(dev, lba, count, before, bus.disks, buffer[..], bus.phase, err);
      }
      return err;
    }
  }

  /** The request is for at least one sector, all on the disk and below the limit of the mode that is chosen. */
  predicate Reachable(dev: Device, lba: u32, count: u8) {
    count != 0 && lba + count as int <= dev.size && lba + count as int <= ModeLimit(ModeOf(dev, lba))
  }

  lemma ReachableInNumbers(dev: Device, lba: u32, count: u8)
    ensures Reachable(dev, lba, count) <==>
      && count != 0 && lba + count as int <= dev.size
      && (lba >= 0x1000_0000 || lba + count as int <= (if dev.lba then 0x1000_0000 else 65536 * 1008))
  {
  }

  lemma ReadReached(dev: Device, lba: u32, count: u8, disks: seq<Disk>, before: seq<u8>, after: seq<u8>, phase: Phase,
    err: int)
    requires |disks| == 2 && DiskValid(disks[0]) && DiskValid(disks[1]) && SECTOR * count as int <= |before|
    requires 0 <= dev.drive < 2 && dev.size == |disks[dev.drive]| && Reachable(dev, lba, count)
    requires ReadDone(OrderFor(dev, lba, count), count as int, disks, before, after, phase, err)
    ensures err == 0 && phase == Ready && |after| == |before|
    ensures after[..SECTOR * count as int] == Read(disks[dev.drive], lba, count as int)
    ensures after[SECTOR * count as int..] == before[SECTOR * count as int..]
  {
    hide OrderFor, InRange, Reachable, Read;
    ReachableOrder(dev, lba, count, disks);
    ReachableInNumbers(dev, lba, count);
  }

  /** The outcome of a read in numbers: the first sector and the limit of the mode, written out. */
  lemma ReadOutcome(dev: Device, lba: u32, count: u8, disks: seq<Disk>, before: seq<u8>, after: seq<u8>, phase: Phase,
    err: int)
    requires |disks| == 2 && DiskValid(disks[0]) && DiskValid(disks[1]) && SECTOR * count as int <= |before|
    requires 0 <= dev.drive < 2 && dev.size == |disks[dev.drive]|
    requires ReadDone(OrderFor(dev, lba, count), count as int, disks, before, after, phase, err)
    ensures |after| == |before|
    ensures
      var first := if lba >= 0x1000_0000 || dev.lba then lba as int else lba % (65536 * 1008);
      var limit := if lba >= 0x1000_0000 then dev.size as int else if dev.lba then 0x1000_0000 else 65536 * 1008;
      if count != 0 && first + count as int <= dev.size && first + count as int <= limit then
        && err == 0
        && (forall i :: 0 <= i < 512 * count as int ==> after[i] == disks[dev.drive][first + i / 512][i % 512])
        && (forall i :: 512 * count as int <= i < |after| ==> after[i] == before[i])
      else
        err == (if count == 0 then 0 else 2) && after == before
  {
    hide OrderFor, Read;
    OrderInNumbers(dev, lba, count);
    var o, n := OrderFor(dev, lba, count), count as int;
    if Carried(o, n, disks) {
      var read := Read(disks[dev.drive], o.lba, n);
      forall i | 0 <= i < 512 * n ensures after[i] == disks[dev.drive][o.lba + i / 512][i % 512] {
        ReadByte(disks[dev.drive], o.lba, n, i);
        assert after[i] == read[i];
      }
    }
  }

  /** The bytes read are those of the sectors, in order. */
  lemma {:induction false} ReadByte(d: Disk, lba: nat, n: nat, i: nat)
    requires lba + n <= |d| && DiskValid(d) && i < 512 * n
    ensures Read(d, lba, n)[i] == d[lba + i / 512][i % 512]
  {
    if i < 512 * (n - 1) {
      ReadByte(d, lba, n - 1, i);
    } else {
      assert i / 512 == n - 1 && i % 512 == i - 512 * (n - 1);
    }
  }

  lemma WriteReached(dev: Device, lba: u32, count: u8, disks: seq<Disk>, disks': seq<Disk>, data: seq<u8>, phase: Phase,
    err: int)
    requires |disks| == 2 && DiskValid(disks[0]) && DiskValid(disks[1]) && SECTOR * count as int <= |data|
    requires 0 <= dev.drive < 2 && dev.size == |disks[dev.drive]| && Reachable(dev, lba, count)
    requires WriteDone(OrderFor(dev, lba, count), count as int, disks, disks', data, phase, err)
    ensures err == 0 && phase == Ready && lba + count as int <= |disks[dev.drive]|
    ensures disks' == disks[dev.drive := Written(disks[dev.drive], lba, data, count as int)]
  {
    hide OrderFor, InRange, Reachable, Written;
    ReachableOrder(dev, lba, count, disks);
    ReachableInNumbers(dev, lba, count);
  }

  lemma WriteOutcome(dev: Device, lba: u32, count: u8, disks: seq<Disk>, disks': seq<Disk>, data: seq<u8>, phase: Phase,
    err: int)
    requires |disks| == 2 && DiskValid(disks[0]) && DiskValid(disks[1]) && SECTOR * count as int <= |data|
    requires 0 <= dev.drive < 2 && dev.size == |disks[dev.drive]|
    requires WriteDone(OrderFor(dev, lba, count), count as int, disks, disks', data, phase, err)
    ensures |disks'| == 2 && err == 0
    ensures
      var first := if lba >= 0x1000_0000 || dev.lba then lba as int else lba % (65536 * 1008);
      var limit := if lba >= 0x1000_0000 then dev.size as int else if dev.lba then 0x1000_0000 else 65536 * 1008;
      if count != 0 && first + count as int <= dev.size && first + count as int <= limit then
        && disks'[1 - dev.drive] == disks[1 - dev.drive] && |disks'[dev.drive]| == dev.size as int
        && forall s :: 0 <= s < dev.size as int ==>
             disks'[dev.drive][s] ==
             if first <= s < first + count as int then data[512 * (s - first)..512 * (s - first) + 512]
             else disks[dev.drive][s]
      else disks' == disks
  {
    hide OrderFor, Written;
    OrderInNumbers(dev, lba, count);
    var o, n := OrderFor(dev, lba, count), count as int;
    if Carried(o, n, disks) {
      forall s | 0 <= s < dev.size as int
        ensures disks'[dev.drive][s] ==
          if o.lba <= s < o.lba + n then data[512 * (s - o.lba)..512 * (s - o.lba) + 512] else disks[dev.drive][s]
      {
        WrittenSectors(disks[dev.drive], o.lba, data, n, s);
      }
    }
  }

  lemma ReachableOrder(dev: Device, lba: u32, count: u8, disks: seq<Disk>)
    requires 0 <= dev.drive < |disks| && dev.size == |disks[dev.drive]|
    ensures Reachable(dev, lba, count) <==>
      InRange(OrderFor(dev, lba, count), disks) && OrderFor(dev, lba, count).lba == lba
        && OrderFor(dev, lba, count).count == count
    ensures OrderFor(dev, lba, count).drive == dev.drive
    ensures Reachable(dev, lba, count) ==> Wrap(lba + count as int) <= dev.size
    ensures count as int <= OrderFor(dev, lba, count).count
  {
    MeantExactly(dev, lba, count, disks);
    if Reachable(dev, lba, count) {
      WrapSmall(lba + count as int);
    }
  }
}

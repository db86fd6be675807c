/** Two ATA disks on one channel, as the driver sees them through the ports of the channel. */
module AtaBus {
  import opened Machine

  const SECTOR: int := 512
  const WORDS: int := 256
  const HEADS: int := 16
  const TRACK: int := 63

  type Disk = seq<seq<u8>>

  ghost predicate DiskValid(d: Disk) {
    forall i :: 0 <= i < |d| ==> |d[i]| == SECTOR
  }

  /** A register of the 48-bit Address feature set keeps the value written before (ATA/ATAPI-6, section 6.20). */
  datatype Fifo = Fifo(previous: u8, current: u8)

  /** The command block registers that carry parameters. */
  datatype TaskFile = TaskFile(count: Fifo, low: Fifo, mid: Fifo, high: Fifo, device: u8)

  function Push(f: Fifo, data: u8): Fifo {
    Fifo(f.current, data)
  }

  /** A write of data to the command block register number k. */
  function Poked(t: TaskFile, k: int, data: u8): TaskFile {
    if k == 2 then t.(count := Push(t.count, data))
    else if k == 3 then t.(low := Push(t.low, data))
    else if k == 4 then t.(mid := Push(t.mid, data))
    else if k == 5 then t.(high := Push(t.high, data))
    else if k == 6 then t.(device := data)
    else t
  }

  /** Of two writes to a register that is two deep, the second is current and the first previous. */
  lemma TwoWrites(t: TaskFile, a: u8, b: u8)
    ensures Poked(Poked(t, 2, a), 2, b).count == Fifo(a, b) && Poked(Poked(t, 3, a), 3, b).low == Fifo(a, b)
    ensures Poked(Poked(t, 4, a), 4, b).mid == Fifo(a, b) && Poked(Poked(t, 5, a), 5, b).high == Fifo(a, b)
    ensures Poked(Poked(t, 6, a), 6, b).device == b
  {
  }

  /** What a device is asked for. limit is the first address that the command cannot express. */
  datatype Order = Order(drive: int, lba: int, count: int, limit: int)

  const LIMIT28: int := 0x1000_0000
  const LIMIT48: int := 0x1_0000_0000_0000
  const LIMIT_CHS: int := 0x1_0000 * HEADS * TRACK

  /** How a device reads its registers: 48-bit address, 28-bit address, or cylinder, head and sector. */
  function OrderOf(t: TaskFile, ext: bool): Order {
    var low: int, mid: int, high: int, device: int := t.low.current, t.mid.current, t.high.current, t.device;
    var drive := device / 0x10 % 2;
    if ext then
      var low': int, mid': int, high': int := t.low.previous, t.mid.previous, t.high.previous;
      var more: int, fewer: int := t.count.previous, t.count.current;
      var count := 0x100 * more + fewer;
      Order(drive,
            low + 0x100 * mid + 0x1_0000 * high + 0x100_0000 * low' + 0x1_0000_0000 * mid' + 0x100_0000_0000 * high',
            if count == 0 then 0x1_0000 else count, LIMIT48)
    else
      var count: int := if t.count.current == 0 then 0x100 else t.count.current as int;
      if device / 0x40 % 2 == 1 then
        Order(drive, low + 0x100 * mid + 0x1_0000 * high + 0x100_0000 * (device % 0x10), count, LIMIT28)
      else
        Order(drive, ((mid + 0x100 * high) * HEADS + device % 0x10) * TRACK + low - 1, count, LIMIT_CHS)
  }

  /** Ready stands for no data request; Aborted has the error bit set besides. */
  datatype Phase =
    | Ready
    | Aborted
    | Sending(drive: int, lba: int, left: int, word: int)
    | Receiving(drive: int, lba: int, left: int, got: seq<u8>)

  predicate InRange(o: Order, disks: seq<Disk>) {
    0 <= o.drive < |disks| && 0 <= o.lba && o.lba + o.count <= |disks[o.drive]| && o.lba + o.count <= o.limit
  }

  /**
   * The phase after a command: 0x20 and 0x24 are READ SECTOR(S) and its EXT form, 0x30 and 0x34 WRITE SECTOR(S).
   * Other commands need no data.
   */
  function Started(t: TaskFile, cmd: int, disks: seq<Disk>): Phase {
    var o := OrderOf(t, cmd == 0x24 || cmd == 0x34);
    if cmd !in {0x20, 0x24, 0x30, 0x34} then Ready
    else if !InRange(o, disks) then Aborted
    else if cmd == 0x20 || cmd == 0x24 then Sending(o.drive, o.lba, o.count, 0)
    else Receiving(o.drive, o.lba, o.count, [])
  }

  class Bus {
    const base: int
    var task: TaskFile
    var disks: seq<Disk>
    var phase: Phase
    ghost var log: seq<(int, int)>     // the bytes written to ports so far, with the ports

    ghost predicate Valid()
      reads this
    {
      && |disks| == 2 && DiskValid(disks[0]) && DiskValid(disks[1])
      && match phase
         case Sending(d, lba, left, word) => 0 <= d < 2 && 0 <= lba && 1 <= left && lba + left <= |disks[d]|
           && 0 <= word < WORDS
         case Receiving(d, lba, left, got) => 0 <= d < 2 && 0 <= lba && 1 <= left && lba + left <= |disks[d]|
           && |got| < SECTOR && |got| % 2 == 0
         case _ => true
    }

    constructor (base: int, master: Disk, slave: Disk)
      requires DiskValid(master) && DiskValid(slave)
      ensures Valid() && this.base == base && disks == [master, slave] && phase == Ready
    {
      this.base := base;
      task := TaskFile(Fifo(0, 0), Fifo(0, 0), Fifo(0, 0), Fifo(0, 0), 0);
      disks := [master, slave];
      phase := Ready;
    }

    /** A byte written to a port. */
    method Out8(port: int, data: u8)
      requires Valid()
      modifies this`task, this`phase, this`log
      ensures Valid() && log == old(log) + [(port, data as int)]
      ensures base + 1 <= port <= base + 6 ==> task == Poked(old(task), port - base, data) && phase == old(phase)
      ensures port == base + 7 ==> task == old(task) && phase == Started(task, data, disks)
      ensures !(base + 1 <= port <= base + 7) ==> task == old(task) && phase == old(phase)
    {
      log := log + [(port, data as int)];
      if base + 1 <= port <= base + 6 {
        task := Poked(task, port - base, data);
      } else if port == base + 7 {
        phase := Started(task, data, disks);
      }
    }

    /** A word read from the data port. */
    method In16() returns (w: u16)
      requires Valid() && phase.Sending?
      modifies this`phase
      ensures Valid()
      ensures var Sending(d, lba, left, k) := old(phase);
        && w % 0x100 == disks[d][lba][2 * k] && w / 0x100 == disks[d][lba][2 * k + 1]
        && phase ==
           if k + 1 < WORDS then Sending(d, lba, left, k + 1)
           else if left > 1 then Sending(d, lba + 1, left - 1, 0) else Ready
    {
      var s := disks[phase.drive][phase.lba];
      var b0: int, b1: int := s[2 * phase.word], s[2 * phase.word + 1];
      w := b0 + 0x100 * b1;
      if phase.word + 1 < WORDS {
        phase := phase.(word := phase.word + 1);
      } else if phase.left > 1 {
        phase := Sending(phase.drive, phase.lba + 1, phase.left - 1, 0);
      } else {
        phase := Ready;
      }
    }

    /** A word written to the data port; without a data request it is lost. */
    method Out16(w: u16)
      requires Valid()
      modifies this`phase, this`disks
      ensures Valid()
      ensures !old(phase).Receiving? ==> phase == old(phase) && disks == old(disks)
      ensures old(phase).Receiving? ==>
        var Receiving(d, lba, left, got) := old(phase);
        var got' := got + [w % 0x100, w / 0x100];
        if |got'| < SECTOR then disks == old(disks) && phase == Receiving(d, lba, left, got')
        else disks == old(disks)[d := old(disks)[d][lba := got']]
             && phase == if left > 1 then Receiving(d, lba + 1, left - 1, []) else Ready
    {
      if phase.Receiving? {
        var got := phase.got + [w % 0x100, w / 0x100];
        if |got| < SECTOR {
          phase := phase.(got := got);
        } else {
          disks := disks[phase.drive := disks[phase.drive][phase.lba := got]];
          phase := if phase.left > 1 then Receiving(phase.drive, phase.lba + 1, phase.left - 1, []) else Ready;
        }
      }
    }
  }
}

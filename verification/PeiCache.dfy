/** The block cache of the recovery reader, in front of physical devices and of partitions
    that are read through their parent device, hence through the same cache. */
module PeiCache {
  import opened Bytes
  import opened FatTypes

  /** PEI_FAT_CACHE_SIZE. */
  const SLOTS: nat := 4

  /** PEI_FAT_BLOCK_DEVICE: `blocks` is LastBlock + 1. */
  datatype Device =
    | Physical(blockSize: nat, blocks: nat, bytes: seq<Byte>)
    | Partition(blockSize: nat, blocks: nat, parent: nat, start: nat)

  /** Partitions are found after the device they lie on, keep its block size and start on a
      block boundary; nothing says that they end inside it.  The block behind the last one
    still has a position of 64 bits. */
  ghost predicate DevicesOk(devices: seq<Device>) {
    forall d :: 0 <= d < |devices| ==> DeviceOk(devices, d)
  }

  ghost predicate DeviceOk(devices: seq<Device>, d: nat)
    requires d < |devices|
  {
    && devices[d].blockSize > 0 && Start(devices[d].blocks + 1, devices[d].blockSize) <= UINT64
    && match devices[d]
       case Physical(size, blocks, bytes) => |bytes| == Start(blocks, size)
       case Partition(size, _, parent, _) => parent < d && devices[parent].blockSize == size
  }

  // ---- the range check ----

  /** The bytes from block `lba` to the end of a device, as FatReadBlock computes them. */
  function Room(blocks: nat, lba: nat, size: nat): nat {
    Start((blocks - lba) % UINT64, size) % UINT64
  }

  /** The check refuses what runs over the end.  What starts more than one block behind the
      last one passes: the subtraction wraps. */
  lemma RoomWraps(blocks: nat, lba: nat, n: nat, size: nat)
    requires size > 0 && Start(blocks, size) < UINT64 && Start(lba, size) + Start(n, size) <= UINT64
    ensures Start(n, size) > Room(blocks, lba, size) <==> lba <= blocks < lba + n
  {
    hide Start, Room;
    if lba <= blocks {
      RoomInside(blocks, lba, size);
      StartMono(n, blocks - lba, size);
      StartMono(blocks - lba, n, size);
    } else {
      StartPlus(blocks, lba - blocks, size);
      RoomBehind(blocks, lba, size);
    }
  }

  lemma AtLeast(p: nat, size: nat)
    requires size > 0
    ensures p <= Start(p, size)
  {
    if p > 0 {
      AtLeast(p - 1, size);
    }
  }

  lemma RoomInside(blocks: nat, lba: nat, size: nat)
    requires size > 0 && lba <= blocks && Start(blocks, size) < UINT64
    ensures Room(blocks, lba, size) == Start(blocks - lba, size)
  {
    hide Start;
    AtLeast(blocks, size);
    StartMono(blocks - lba, blocks, size);
    Modulo(0, blocks - lba);
    Modulo(0, Start(blocks - lba, size));
  }

  lemma RoomBehind(blocks: nat, lba: nat, size: nat)
    requires size > 0 && blocks < lba && Start(lba - blocks, size) <= UINT64
    ensures Room(blocks, lba, size) == UINT64 - Start(lba - blocks, size)
  {
    hide Start;
    var k: nat := lba - blocks;
    AtLeast(k, size);
    Modulo(-1, UINT64 - k);
    StartPlus(UINT64 - k, k, size);
    StartIsProduct(UINT64, size);
    Modulo(size - 1, UINT64 - Start(k, size));
    assert Start(UINT64 - k, size) == UINT64 * (size - 1) + (UINT64 - Start(k, size));
  }

  lemma Modulo(q: int, r: nat)
    requires r < UINT64
    ensures (UINT64 * q + r) % UINT64 == r
  {
  }

  // ---- what a device can read ----

  /** The physical device under `d`, and the block of it that `d` starts at. */
  ghost function Disk(devices: seq<Device>, d: nat): seq<Byte>
    requires DevicesOk(devices) && d < |devices|
    decreases d
  {
    assert DeviceOk(devices, d);
    match devices[d]
    case Physical(_, _, bytes) => bytes
    case Partition(_, _, parent, _) => Disk(devices, parent)
  }

  ghost function Base(devices: seq<Device>, d: nat): nat
    requires DevicesOk(devices) && d < |devices|
    decreases d
  {
    assert DeviceOk(devices, d);
    match devices[d]
    case Physical(_, _, _) => 0
    case Partition(_, _, parent, start) => Base(devices, parent) + start
  }

  /** Block `lba` can be read: of a partition the one block behind its last cannot, and any
      other exactly if the parent can. */
  ghost predicate Readable(devices: seq<Device>, d: nat, lba: nat)
    requires DevicesOk(devices) && d < |devices|
    decreases d
  {
    assert DeviceOk(devices, d);
    match devices[d]
    case Physical(_, blocks, _) => lba < blocks
    case Partition(_, blocks, parent, start) => lba != blocks && Readable(devices, parent, start + lba)
  }

  ghost predicate AllReadable(devices: seq<Device>, d: nat, lba: nat, n: nat)
    requires DevicesOk(devices) && d < |devices|
  {
    forall b :: lba <= b < lba + n ==> Readable(devices, d, b)
  }

  /** Block `b` is the one position `at` lies in, or starts among the `n` bytes from there. */
  predicate Touched(at: nat, n: nat, size: nat, b: nat)
    requires size > 0
  {
    b == Unit(at, size) || at <= Start(b, size) < at + n
  }

  /** Every block touched by an access can be read. */
  ghost predicate Serves(devices: seq<Device>, d: nat, at: nat, n: nat)
    requires DevicesOk(devices) && d < |devices|
  {
    assert DeviceOk(devices, d);
    forall b :: Touched(at, n, devices[d].blockSize, b) ==> Readable(devices, d, b)
  }

  /** The blocks below `end`, counted on the disk, have positions that fit into 64 bits. */
  ghost predicate In64(devices: seq<Device>, d: nat, end: nat)
    requires DevicesOk(devices) && d < |devices|
  {
    Start(Base(devices, d) + end, devices[d].blockSize) <= UINT64
  }

  /** The block after the last one an access touches. */
  function EndBlock(at: nat, n: nat, size: nat): nat
    requires size > 0
  {
    if n == 0 then Unit(at, size) + 1 else Unit(at + n - 1, size) + 1
  }

  ghost predicate OnDisk(devices: seq<Device>, d: nat, at: nat, n: nat)
    requires DevicesOk(devices) && d < |devices|
  {
    Start(Base(devices, d), devices[d].blockSize) + at + n <= |Disk(devices, d)|
  }

  /** The `n` bytes at position `at` of device `d`. */
  ghost function Window(devices: seq<Device>, d: nat, at: nat, n: nat): (r: seq<Byte>)
    requires DevicesOk(devices) && d < |devices| && OnDisk(devices, d, at, n)
    ensures |r| == n
  {
    Stretch(Disk(devices, d), Start(Base(devices, d), devices[d].blockSize) + at, n)
  }

  lemma {:induction false} ReadableOnDisk(devices: seq<Device>, d: nat, lba: nat)
    requires DevicesOk(devices) && d < |devices| && Readable(devices, d, lba)
    ensures OnDisk(devices, d, Start(lba, devices[d].blockSize), devices[d].blockSize)
    decreases d
  {
    hide Start;
    assert DeviceOk(devices, d);
    match devices[d]
    case Physical(size, blocks, _) =>
      StartMono(lba, blocks, size);
      StartStep(0, size);
    case Partition(size, _, parent, start) =>
      ReadableOnDisk(devices, parent, start + lba);
      StartPlus(Base(devices, parent), start, size);
      StartPlus(start, lba, size);
  }

  /** What is served lies on the disk, though perhaps not in the partition. */
  lemma ServesOnDisk(devices: seq<Device>, d: nat, at: nat, n: nat)
    requires DevicesOk(devices) && d < |devices| && Serves(devices, d, at, n)
    ensures OnDisk(devices, d, at, n)
  {
    hide Start, Unit, Readable, Disk, Base;
    assert DeviceOk(devices, d);
    var size := devices[d].blockSize;
    var last := EndBlock(at, n, size) - 1;
    LocateUp(at, at + (if n == 0 then 0 else n - 1), size);
    StartMono(Unit(at, size), last, size);
    assert Touched(at, n, size, last);
    ReadableOnDisk(devices, d, last);
  }

  /** Block `lba` of a device. */
  ghost function Block(devices: seq<Device>, d: nat, lba: nat): (r: seq<Byte>)
    requires DevicesOk(devices) && d < |devices| && Readable(devices, d, lba)
    ensures |r| == devices[d].blockSize
  {
    ReadableOnDisk(devices, d, lba);
    Window(devices, d, Start(lba, devices[d].blockSize), devices[d].blockSize)
  }

  /** A window of a partition is a window of its parent. */
  lemma ParentWindow(devices: seq<Device>, d: nat, at: nat, n: nat)
    requires DevicesOk(devices) && d < |devices| && devices[d].Partition?
    ensures DeviceOk(devices, d)
    ensures var p, s := devices[d].parent, Start(devices[d].start, devices[d].blockSize);
      && (OnDisk(devices, d, at, n) <==> OnDisk(devices, p, s + at, n))
      && (OnDisk(devices, d, at, n) ==> Window(devices, d, at, n) == Window(devices, p, s + at, n))
  {
    assert DeviceOk(devices, d);
    StartPlus(Base(devices, devices[d].parent), devices[d].start, devices[d].blockSize);
  }

  lemma In64Mono(devices: seq<Device>, d: nat, b: nat, end: nat)
    requires DevicesOk(devices) && d < |devices| && In64(devices, d, end) && b <= end
    ensures In64(devices, d, b) && Start(b, devices[d].blockSize) <= UINT64
  {
    StartMono(Base(devices, d) + b, Base(devices, d) + end, devices[d].blockSize);
    StartMono(b, Base(devices, d) + b, devices[d].blockSize);
  }

  /** What lies on the disk has positions that fit. */
  lemma {:induction false} ReadableIn64(devices: seq<Device>, d: nat, lba: nat)
    requires DevicesOk(devices) && d < |devices| && Readable(devices, d, lba)
    ensures In64(devices, d, lba + 2)
    decreases d
  {
    hide Start;
    assert DeviceOk(devices, d);
    match devices[d]
    case Physical(size, blocks, _) => StartMono(lba + 2, blocks + 1, size);
    case Partition(_, _, parent, start) => ReadableIn64(devices, parent, start + lba);
  }

  // ---- which accesses succeed ----

  lemma TouchedOne(at: nat, n: nat, size: nat, b: nat)
    requires size > 0 && Rest(at, size) + n <= size
    ensures Touched(at, n, size, b) <==> b == Unit(at, size)
  {
    hide Start, Unit, Rest;
    StartMono(Unit(at, size) + 1, b, size);
    StartMono(b, Unit(at, size), size);
    StartStep(Unit(at, size), size);
  }

  lemma TouchedMore(at: nat, n: nat, size: nat, b: nat)
    requires size > 0 && Rest(at, size) + n > size
    ensures var first := size - Rest(at, size);
      && Start(Unit(at, size) + 1, size) == at + first
      && (Touched(at, n, size, b) <==> b == Unit(at, size) || Touched(at + first, n - first, size, b))
  {
    hide Start, Unit, Rest;
    var u := Unit(at, size);
    StartStep(u, size);
    UnitOfStart(u + 1, size);
    StartMono(u + 1, b, size);
    StartMono(b, u, size);
  }

  lemma TouchedBlocks(lba: nat, n: nat, size: nat, b: nat)
    requires size > 0 && n > 0
    ensures var c, tail := Unit(n, size), Rest(n, size);
      && Start(lba + c, size) == Start(lba, size) + Start(c, size) == Start(lba, size) + n - tail
      && (Touched(Start(lba, size), n, size, b) <==> lba <= b < lba + c || (tail > 0 && b == lba + c))
  {
    hide Start, Unit, Rest;
    var c := Unit(n, size);
    StartPlus(lba, c, size);
    UnitOfStart(lba, size);
    StartMono(lba, b, size);
    StartMono(b, lba, size);
    StartMono(b, lba + c, size);
    StartMono(lba + c, b, size);
    StartStep(0, size);
    StartMono(c, 0, size);
  }

  lemma ServesOne(devices: seq<Device>, d: nat, at: nat, n: nat)
    requires DevicesOk(devices) && d < |devices| && devices[d].blockSize > 0
    requires Rest(at, devices[d].blockSize) + n <= devices[d].blockSize
    ensures Serves(devices, d, at, n) <==> Readable(devices, d, Unit(at, devices[d].blockSize))
  {
    hide Start, Unit, Rest, Readable, Touched;
    forall b: nat
      ensures Touched(at, n, devices[d].blockSize, b) <==> b == Unit(at, devices[d].blockSize)
    {
      TouchedOne(at, n, devices[d].blockSize, b);
    }
  }

  lemma ServesMore(devices: seq<Device>, d: nat, at: nat, n: nat)
    requires DevicesOk(devices) && d < |devices| && devices[d].blockSize > 0
    requires Rest(at, devices[d].blockSize) + n > devices[d].blockSize
    ensures var size := devices[d].blockSize; var first := size - Rest(at, size);
      && Start(Unit(at, size) + 1, size) == at + first
      && (Serves(devices, d, at, n) <==>
        Readable(devices, d, Unit(at, size)) && Serves(devices, d, at + first, n - first))
  {
    hide Start, Unit, Rest, Readable, Touched;
    var size := devices[d].blockSize;
    var first := size - Rest(at, size);
    TouchedMore(at, n, size, 0);
    forall b: nat
      ensures Touched(at, n, size, b) <==> b == Unit(at, size) || Touched(at + first, n - first, size, b)
    {
      TouchedMore(at, n, size, b);
    }
    assert Touched(at, n, size, Unit(at, size));
  }

  /** From a block boundary on: whole blocks, and a rest in one more. */
  lemma ServesRest(devices: seq<Device>, d: nat, lba: nat, n: nat)
    requires DevicesOk(devices) && d < |devices| && devices[d].blockSize > 0 && n > 0
    ensures var size := devices[d].blockSize; var c, tail := Unit(n, size), Rest(n, size);
      && Start(lba + c, size) == Start(lba, size) + Start(c, size) == Start(lba, size) + n - tail
      && EndBlock(Start(lba, size), n, size) == (if tail > 0 then lba + c + 1 else lba + c) > lba
      && (Serves(devices, d, Start(lba, size), n) <==>
            AllReadable(devices, d, lba, c) && (tail > 0 ==> Readable(devices, d, lba + c)))
  {
    hide Start, Unit, Rest, Readable, Touched;
    var size := devices[d].blockSize;
    var c, tail := Unit(n, size), Rest(n, size);
    TouchedBlocks(lba, n, size, 0);
    LastBlock(lba, n, size);
    forall b: nat
      ensures Touched(Start(lba, size), n, size, b) <==> lba <= b < lba + c || (tail > 0 && b == lba + c)
    {
      TouchedBlocks(lba, n, size, b);
    }
  }

  lemma LastBlock(lba: nat, n: nat, size: nat)
    requires size > 0 && n > 0
    ensures var c, tail := Unit(n, size), Rest(n, size);
      EndBlock(Start(lba, size), n, size) == (if tail > 0 then lba + c + 1 else lba + c) > lba
  {
    hide Start, Unit, Rest;
    var c, tail := Unit(n, size), Rest(n, size);
    StartPlus(lba, c, size);
    StartStep(0, size);
    StartMono(c, 0, size);
    if tail > 0 {
      Locate(Start(lba, size) + n - 1, size, lba + c);
    } else {
      StartStep(lba + c - 1, size);
      Locate(Start(lba, size) + n - 1, size, lba + c - 1);
    }
  }

  lemma ServesBlocks(devices: seq<Device>, d: nat, lba: nat, n: nat)
    requires DevicesOk(devices) && d < |devices| && devices[d].blockSize > 0
    ensures var size := devices[d].blockSize;
      && EndBlock(Start(lba, size), Start(n, size), size) == (if n > 0 then lba + n else lba + 1)
      && (Serves(devices, d, Start(lba, size), Start(n, size)) <==>
            if n > 0 then AllReadable(devices, d, lba, n) else Readable(devices, d, lba))
  {
    hide Unit, Rest, Readable, Touched;
    var size := devices[d].blockSize;
    UnitOfStart(lba, size);
    UnitOfStart(n, size);
    if n > 0 {
      ServesRest(devices, d, lba, Start(n, size));
    } else {
      ServesOne(devices, d, Start(lba, size), 0);
    }
  }

  /** A run of blocks passes the check of a partition and lies in readable parent blocks
      exactly when all of them are readable. */
  lemma PartitionBlocks(devices: seq<Device>, d: nat, lba: nat, n: nat)
    requires DevicesOk(devices) && d < |devices| && devices[d].Partition?
    ensures DeviceOk(devices, d)
    ensures Readable(devices, d, lba) <==>
      lba != devices[d].blocks && Readable(devices, devices[d].parent, devices[d].start + lba)
    ensures AllReadable(devices, d, lba, n) <==>
      !(lba <= devices[d].blocks < lba + n) && AllReadable(devices, devices[d].parent, devices[d].start + lba, n)
  {
    assert DeviceOk(devices, d);
    var parent, start := devices[d].parent, devices[d].start;
    forall b | AllReadable(devices, d, lba, n) && start + lba <= b < start + lba + n
      ensures Readable(devices, parent, b)
    {
      assert Readable(devices, d, b - start);
    }
    if AllReadable(devices, d, lba, n) && lba <= devices[d].blocks < lba + n {
      assert !Readable(devices, d, devices[d].blocks);
    }
    forall b | AllReadable(devices, parent, start + lba, n) && lba <= b < lba + n && b != devices[d].blocks
      ensures Readable(devices, d, b)
    {
      assert Readable(devices, parent, start + b);
    }
  }

  // ---- the cache ----

  /** PEI_FAT_CACHE_BUFFER. */
  datatype Slot = Slot(valid: bool, device: nat, lba: nat, buffer: seq<Byte>)

  /** The slot holds the block it is labelled with. */
  ghost predicate Right(devices: seq<Device>, s: Slot)
    requires DevicesOk(devices)
  {
    s.device < |devices| && Readable(devices, s.device, s.lba) && s.buffer == Block(devices, s.device, s.lba)
  }

  /** Every valid slot labelled with device `d` or one found before it is right. */
  ghost predicate Trusted(devices: seq<Device>, slots: seq<Slot>, d: nat)
    requires DevicesOk(devices)
  {
    |slots| == SLOTS && forall i ::
        0 <= i < SLOTS && slots[i].valid && slots[i].device <= d ==> Right(devices, slots[i])
  }

  /** Slots that were touched are valid and right, and labelled with `d` or a device under it. */
  ghost predicate Refilled(devices: seq<Device>, slots: seq<Slot>, slots': seq<Slot>, d: nat)
    requires DevicesOk(devices)
  {
    && |slots| == SLOTS && |slots'| == SLOTS
    && forall i :: 0 <= i < SLOTS ==>
      slots'[i] == slots[i] || (slots'[i].valid && slots'[i].device <= d && Right(devices, slots'[i]))
  }

  /** ... and hold the bytes `b`. */
  ghost predicate HoldingOnly(slots: seq<Slot>, slots': seq<Slot>, b: seq<Byte>)
    requires |slots| == SLOTS && |slots'| == SLOTS
  {
    forall i :: 0 <= i < SLOTS ==> slots'[i] == slots[i] || slots'[i].buffer == b
  }

  /** The slot a fill takes: the first that is not valid, else one in turn. */
  function Victim(slots: seq<Slot>, seed: nat): (k: nat)
    requires |slots| == SLOTS
    ensures k < SLOTS && ((exists i :: 0 <= i < SLOTS && !slots[i].valid) <==> !slots[k].valid)
  {
    if !slots[0].valid then 0
    else if !slots[1].valid then 1
    else if !slots[2].valid then 2
    else if !slots[3].valid then 3
    else seed % SLOTS
  }

  function NextSeed(slots: seq<Slot>, seed: nat): nat
    requires |slots| == SLOTS
  {
    if slots[Victim(slots, seed)].valid then (seed + 1) % 0x100 else seed
  }

  /** The slots after a fill that failed: one slot each for the block and for the parent's
      blocks it was looked for in, labelled but not filled. */
  ghost function AfterFailure(devices: seq<Device>, slots: seq<Slot>, seed: nat, d: nat, lba: nat): seq<Slot>
    requires DevicesOk(devices) && d < |devices| && |slots| == SLOTS
    decreases d, 1
  {
    var k := Victim(slots, seed);
    FailedBelow(devices, slots[k := slots[k].(device := d, lba := lba)], NextSeed(slots, seed), d, lba)
  }

  ghost function FailedBelow(devices: seq<Device>, slots: seq<Slot>, seed: nat, d: nat, lba: nat): seq<Slot>
    requires DevicesOk(devices) && d < |devices| && |slots| == SLOTS
    decreases d, 0
  {
    assert DeviceOk(devices, d);
    match devices[d]
    case Physical(_, _, _) => slots
    case Partition(_, blocks, parent, start) =>
      if lba == blocks then slots else AfterFailure(devices, slots, seed, parent, start + lba)
  }

  /** PEI_FAT_PRIVATE_DATA: the devices and the cache. */
  class Reader {
    const devices: seq<Device>
    var slots: seq<Slot>
    var seed: nat

    constructor (devices: seq<Device>)
      requires DevicesOk(devices)
      ensures this.devices == devices && Valid() && seed == 0 && forall d :: Trusted(devices, slots, d)
    {
      this.devices := devices;
      slots := seq(SLOTS, _ => Slot(false, 0, 0, []));
      seed := 0;
    }

    ghost predicate Valid()
      reads this
    {
      DevicesOk(devices) && |slots| == SLOTS
    }

    /** FatReadBlock, for `n` whole blocks. */
    method ReadBlocks(d: nat, lba: nat, n: nat) returns (status: Status, out: seq<Byte>)
      requires Valid() && d < |devices| && (devices[d].Partition? ==> Trusted(devices, slots, devices[d].parent))
      requires In64(devices, d, if n > 0 then lba + n else lba + 1)
      modifies this`slots, this`seed
      ensures Valid()
      ensures n > 0 ==> (status == Success <==> AllReadable(devices, d, lba, n))
      ensures n == 0 && Readable(devices, d, lba) ==> status == Success
      ensures n == 1 && !Readable(devices, d, lba) ==> slots == FailedBelow(devices, old(slots), old(seed), d, lba)
      ensures status == Success ==>
        && DeviceOk(devices, d)
        && Piece(devices, d, Start(lba, devices[d].blockSize), Start(n, devices[d].blockSize), out)
        && match devices[d]
           case Physical(_, _, _) => slots == old(slots)
           case Partition(_, _, parent, _) =>
             Refilled(devices, old(slots), slots, parent) && (n == 1 ==> HoldingOnly(old(slots), slots, out))
      decreases d, 0
    {
      hide Start, Unit, Rest, Disk, Window, Readable, Serves, Base;
      assert DeviceOk(devices, d);
      ghost var end := if n > 0 then lba + n else lba + 1;
      var size := devices[d].blockSize;
      StartStep(0, size);
      StartStep(devices[d].blocks, size);
      In64Mono(devices, d, end, end);
      StartPlus(lba, n, size);
      StartMono(lba + n, end, size);
      RoomWraps(devices[d].blocks, lba, n, size);
      if Start(n, size) > Room(devices[d].blocks, lba, size) {
        OverEnd(devices, d, lba, n);
        return DeviceError, [];
      }
      match devices[d]
      case Physical(_, blocks, bytes) =>
        PhysicalBlocks(devices, d, lba, n);
        if lba + n > blocks {
          return DeviceError, [];
        }
        return Success, Stretch(bytes, Start(lba, size), Start(n, size));
      case Partition(_, _, parent, start) =>
        PartitionBlocks(devices, d, lba, n);
        ParentWindow(devices, d, Start(lba, size), Start(n, size));
        ParentRead(devices, d, lba, n);
        status, out := ReadDisk(parent, Start(start, size) + Start(lba, size), Start(n, size));
    }

    /** FatGetCacheBlock: the slot that now holds the block. */
    method GetCacheBlock(d: nat, lba: nat) returns (status: Status, k: nat)
      requires Valid() && d < |devices| && Trusted(devices, slots, d) && In64(devices, d, lba + 1)
      modifies this`slots, this`seed
      ensures Valid() && k < SLOTS && (status == Success <==> Readable(devices, d, lba))
      ensures status == Success ==>
        && slots[k].buffer == Block(devices, d, lba)
        && Trusted(devices, slots, d) && Refilled(devices, old(slots), slots, d)
        && HoldingOnly(old(slots), slots, Block(devices, d, lba))
      ensures status == DeviceError || status == Success
      ensures status == DeviceError ==> slots == AfterFailure(devices, old(slots), old(seed), d, lba)
      ensures (exists i :: 0 <= i < SLOTS && old(slots[i].valid && slots[i].device == d && slots[i].lba == lba))
        ==> status == Success && slots == old(slots) && seed == old(seed)
      decreases d, 1
    {
      hide Start, Unit, Rest, Disk, Window, Readable, Serves, Base, Block;
      k := 0;
      while k < SLOTS && !(slots[k].valid && slots[k].device == d && slots[k].lba == lba)
        invariant k <= SLOTS && slots == old(slots) && seed == old(seed)
        invariant forall i :: 0 <= i < k ==> !(slots[i].valid && slots[i].device == d && slots[i].lba == lba)
      {
        k := k + 1;
      }
      if k < SLOTS {
        assert Right(devices, slots[k]);
        return Success, k;
      }
      k := 0;
      while k < SLOTS && slots[k].valid
        invariant k <= SLOTS && slots == old(slots) && seed == old(seed)
        invariant forall i :: 0 <= i < k ==> slots[i].valid
      {
        k := k + 1;
      }
      if k == SLOTS {
        k := seed % SLOTS;
        seed := (seed + 1) % 0x100;
      }
      slots := slots[k := slots[k].(device := d, lba := lba)];
      assert DeviceOk(devices, d);
      var data: seq<Byte>;
      status, data := ReadBlocks(d, lba, 1);
      if status != Success {
        return DeviceError, k;
      }
      OneBlock(devices, d, lba);
      Filled(devices, old(slots), k, d, lba, slots, data);
      slots := slots[k := slots[k].(buffer := data, valid := true)];
    }

    /** The rest of FatReadDisk, from the start of block `lba`: whole blocks past the
        cache, then the last, partly wanted block through it. */
    method ReadRest(d: nat, lba: nat, n: nat) returns (status: Status, out: seq<Byte>)
      requires Valid() && d < |devices| && Trusted(devices, slots, d) && devices[d].blockSize > 0 && n > 0
      requires In64(devices, d, EndBlock(Start(lba, devices[d].blockSize), n, devices[d].blockSize))
      modifies this`slots, this`seed
      ensures Valid() && (status == Success <==> Serves(devices, d, Start(lba, devices[d].blockSize), n))
      ensures status == Success ==>
        && Piece(devices, d, Start(lba, devices[d].blockSize), n, out)
        && Trusted(devices, slots, d) && Refilled(devices, old(slots), slots, d)
      decreases d, 2
    {
      hide Start, Unit, Rest, Disk, Window, Readable, Base, Block, HoldingOnly, Refilled, Trusted, EndBlock, Serves;
      hide Right, In64;
      var size := devices[d].blockSize;
      var count, tail := Unit(n, size), Rest(n, size);
      ServesRest(devices, d, lba, n);
      In64Mono(devices, d, if count > 0 then lba + count else lba + 1, EndBlock(Start(lba, size), n, size));
      TrustedParent(devices, slots, d);
      status, out := ReadBlocks(d, lba, count);
      if status != Success {
        return DeviceError, [];
      }
      WholeTrusted(devices, old(slots), slots, d);
      if tail != 0 {
        ghost var slots1 := slots;
        var k;
        status, k := GetCacheBlock(d, lba + count);
        if status != Success {
          return DeviceError, [];
        }
        StaysTrusted(devices, old(slots), slots1, slots, d);
        UnitOfStart(lba + count, size);
        BlockPart(devices, d, Start(lba + count, size), tail);
        JoinPieces(devices, d, Start(lba, size), Start(count, size), tail, out, Stretch(slots[k].buffer, 0, tail));
        out := out + Stretch(slots[k].buffer, 0, tail);
      }
    }

    /** FatReadDisk: the first block comes through the cache. */
    method ReadDisk(d: nat, at: nat, n: nat) returns (status: Status, out: seq<Byte>)
      requires Valid() && d < |devices| && devices[d].blockSize > 0 && Trusted(devices, slots, d)
      requires In64(devices, d, EndBlock(at, n, devices[d].blockSize))
      modifies this`slots, this`seed
      ensures Valid() && (status == Success <==> Serves(devices, d, at, n))
      ensures status == Success ==>
        && Piece(devices, d, at, n, out)
        && Trusted(devices, slots, d) && Refilled(devices, old(slots), slots, d)
        && (Rest(at, devices[d].blockSize) + n <= devices[d].blockSize ==>
              && Readable(devices, d, Unit(at, devices[d].blockSize))
              && HoldingOnly(old(slots), slots, Block(devices, d, Unit(at, devices[d].blockSize))))
      ensures !Readable(devices, d, Unit(at, devices[d].blockSize)) ==>
        slots == AfterFailure(devices, old(slots), old(seed), d, Unit(at, devices[d].blockSize))
      decreases d, 3
    {
      hide Start, Unit, Rest, Disk, Window, Readable, Base, Block, HoldingOnly, Refilled, Trusted, EndBlock, Serves;
      hide AfterFailure, Right, In64;
      var size := devices[d].blockSize;
      var lba, offset := Unit(at, size), Rest(at, size);
      if offset + n <= size {
        ServesOne(devices, d, at, n);
      } else {
        ServesMore(devices, d, at, n);
      }
      FirstIn64(devices, d, at, n);
      var k: nat;
      status, k := GetCacheBlock(d, lba);
      if status != Success {
        return DeviceError, [];
      }
      var amount := if n < size - offset then n else size - offset;
      BlockPart(devices, d, at, amount);
      out := Stretch(slots[k].buffer, offset, amount);
      if n == amount {
        return;
      }
      ghost var slots1 := slots;
      var more;
      status, more := ReadRest(d, lba + 1, n - amount);
      if status != Success {
        return DeviceError, [];
      }
      StaysTrusted(devices, old(slots), slots1, slots, d);
      JoinPieces(devices, d, at, amount, n - amount, out, more);
      out := out + more;
    }
  }

  /** `out` is what lies there. */
  ghost predicate Piece(devices: seq<Device>, d: nat, at: nat, n: nat, out: seq<Byte>)
    requires DevicesOk(devices) && d < |devices|
  {
    if n == 0 then out == [] else OnDisk(devices, d, at, n) && out == Window(devices, d, at, n)
  }

  lemma JoinPieces(devices: seq<Device>, d: nat, at: nat, m: nat, n: nat, a: seq<Byte>, b: seq<Byte>)
    requires DevicesOk(devices) && d < |devices| && n > 0
    requires Piece(devices, d, at, m, a) && Piece(devices, d, at + m, n, b)
    ensures Piece(devices, d, at, m + n, a + b)
  {
    hide Disk, Base, Start;
    StretchPlus(Disk(devices, d), Start(Base(devices, d), devices[d].blockSize) + at, m, n);
    if m == 0 {
      assert a + b == b;
    }
  }

  lemma OverEnd(devices: seq<Device>, d: nat, lba: nat, n: nat)
    requires DevicesOk(devices) && d < |devices| && lba <= devices[d].blocks < lba + n
    ensures !AllReadable(devices, d, lba, n)
    ensures n == 1 ==> forall slots: seq<Slot>, seed ::
      |slots| == SLOTS ==> FailedBelow(devices, slots, seed, d, lba) == slots
  {
    assert !Readable(devices, d, devices[d].blocks);
  }

  lemma PhysicalBlocks(devices: seq<Device>, d: nat, lba: nat, n: nat)
    requires DevicesOk(devices) && d < |devices| && devices[d].Physical?
    ensures DeviceOk(devices, d) && (Readable(devices, d, lba) <==> lba < devices[d].blocks)
    ensures n > 0 ==> (AllReadable(devices, d, lba, n) <==> lba + n <= devices[d].blocks)
    ensures forall slots: seq<Slot>, seed :: |slots| == SLOTS ==> FailedBelow(devices, slots, seed, d, lba) == slots
    ensures var size := devices[d].blockSize;
      lba + n <= devices[d].blocks ==>
        && Start(lba, size) + Start(n, size) <= |devices[d].bytes|
        && Piece(devices, d, Start(lba, size), Start(n, size),
          Stretch(devices[d].bytes, Start(lba, size), Start(n, size)))
  {
    assert DeviceOk(devices, d);
    var size, blocks := devices[d].blockSize, devices[d].blocks;
    if n > 0 {
      assert Readable(devices, d, lba + n - 1) <==> lba + n <= blocks;
    }
    StartPlus(lba, n, size);
    StartMono(lba + n, blocks, size);
    assert Start(0, size) == 0;
    assert Disk(devices, d) == devices[d].bytes && Base(devices, d) == 0;
    hide Start, Readable, Disk, Base;
  }

  /** What a partition asks of its parent. */
  lemma ParentRead(devices: seq<Device>, d: nat, lba: nat, n: nat)
    requires DevicesOk(devices) && d < |devices| && devices[d].Partition?
    ensures DeviceOk(devices, d)
    ensures var size, p := devices[d].blockSize, devices[d].parent;
      var at := Start(devices[d].start, size) + Start(lba, size);
      && at == Start(devices[d].start + lba, size)
      && Unit(at, size) == devices[d].start + lba
      && Rest(at, size) == 0 && Start(1, size) == size
      && EndBlock(at, Start(n, size), size) == devices[d].start + (if n > 0 then lba + n else lba + 1)
      && (forall end: nat :: In64(devices, d, end) <==> In64(devices, p, devices[d].start + end))
      && (Serves(devices, p, at, Start(n, size)) <==>
            if n > 0 then AllReadable(devices, p, devices[d].start + lba, n)
                else Readable(devices, p, devices[d].start + lba))
  {
    hide Start, Unit, Rest, Serves, Readable, EndBlock;
    assert DeviceOk(devices, d);
    var size := devices[d].blockSize;
    StartPlus(devices[d].start, lba, size);
    UnitOfStart(devices[d].start + lba, size);
    ServesBlocks(devices, devices[d].parent, devices[d].start + lba, n);
    StartStep(0, size);
    forall end: nat
      ensures In64(devices, d, end) <==> In64(devices, devices[d].parent, devices[d].start + end)
    {
      assert Base(devices, d) + end == Base(devices, devices[d].parent) + (devices[d].start + end);
    }
  }

  lemma FirstIn64(devices: seq<Device>, d: nat, at: nat, n: nat)
    requires DevicesOk(devices) && d < |devices| && devices[d].blockSize > 0
    requires In64(devices, d, EndBlock(at, n, devices[d].blockSize))
    ensures var size := devices[d].blockSize; var first := size - Rest(at, size);
      && In64(devices, d, Unit(at, size) + 1)
      && (n > first ==> EndBlock(at, n, size) == EndBlock(at + first, n - first, size))
  {
    hide Start, Unit, Rest;
    var size := devices[d].blockSize;
    LocateUp(at, at + (if n == 0 then 0 else n - 1), size);
    In64Mono(devices, d, Unit(at, size) + 1, EndBlock(at, n, size));
  }

  lemma OneBlock(devices: seq<Device>, d: nat, lba: nat)
    requires DevicesOk(devices) && d < |devices| && Readable(devices, d, lba)
    ensures Start(1, devices[d].blockSize) == devices[d].blockSize > 0
    ensures Piece(devices, d, Start(lba, devices[d].blockSize), devices[d].blockSize, Block(devices, d, lba))
  {
    hide Disk, Base, Readable;
    assert DeviceOk(devices, d);
    StartStep(0, devices[d].blockSize);
    ReadableOnDisk(devices, d, lba);
  }

  /** A piece of the block that position `at` lies in. */
  lemma BlockPart(devices: seq<Device>, d: nat, at: nat, n: nat)
    requires DevicesOk(devices) && d < |devices| && devices[d].blockSize > 0
    requires Readable(devices, d, Unit(at, devices[d].blockSize))
      && Rest(at, devices[d].blockSize) + n <= devices[d].blockSize
    ensures Piece(devices, d, at, n,
      Stretch(Block(devices, d, Unit(at, devices[d].blockSize)), Rest(at, devices[d].blockSize), n))
  {
    hide Start, Unit, Rest, Disk, Base, Readable;
    var size := devices[d].blockSize;
    var u := Unit(at, size);
    var base := Start(Base(devices, d), size);
    ReadableOnDisk(devices, d, u);
    StretchOfStretch(Disk(devices, d), base + Start(u, size), size, base + at, n);
  }

  lemma TrustedParent(devices: seq<Device>, slots: seq<Slot>, d: nat)
    requires DevicesOk(devices) && d < |devices| && Trusted(devices, slots, d)
    ensures DeviceOk(devices, d) && (devices[d].Partition? ==> Trusted(devices, slots, devices[d].parent))
  {
    hide Right;
    assert DeviceOk(devices, d);
  }

  lemma StaysTrusted(devices: seq<Device>, slots0: seq<Slot>, slots: seq<Slot>, slots': seq<Slot>, d: nat)
    requires DevicesOk(devices) && Trusted(devices, slots, d) && Refilled(devices, slots0, slots, d)
      && Refilled(devices, slots, slots', d)
    ensures Trusted(devices, slots', d) && Refilled(devices, slots0, slots', d)
  {
    hide Right;
  }

  /** After whole blocks were read past the cache of `d`. */
  lemma WholeTrusted(devices: seq<Device>, slots: seq<Slot>, slots': seq<Slot>, d: nat)
    requires DevicesOk(devices) && d < |devices| && Trusted(devices, slots, d)
    requires match devices[d]
      case Physical(_, _, _) => slots' == slots
      case Partition(_, _, parent, _) => Refilled(devices, slots, slots', parent)
    ensures Trusted(devices, slots', d) && Refilled(devices, slots, slots', d)
  {
    hide Right;
    assert DeviceOk(devices, d);
  }

  /** Filling slot `k`.  While the block is being read the slot is labelled but wrong; a
      parent's block may have been put into it meanwhile, but that has the same bytes. */
  lemma Filled(devices: seq<Device>, slots0: seq<Slot>, k: nat, d: nat, lba: nat, slots2: seq<Slot>, data: seq<Byte>)
    requires DevicesOk(devices) && Trusted(devices, slots0, d) && k < SLOTS && d < |devices|
      && Readable(devices, d, lba)
    requires var slots1 := slots0[k := slots0[k].(device := d, lba := lba)];
      match devices[d]
      case Physical(_, _, _) => slots2 == slots1
      case Partition(_, _, parent, _) => Refilled(devices, slots1, slots2, parent) && HoldingOnly(slots1, slots2, data)
    requires data == Block(devices, d, lba)
    ensures |slots2| == SLOTS
    ensures var slots3 := slots2[k := slots2[k].(buffer := data, valid := true)];
      && Trusted(devices, slots3, d) && Refilled(devices, slots0, slots3, d) && HoldingOnly(slots0, slots3, data)
  {
    hide Block, Readable;
    assert DeviceOk(devices, d);
  }

  // ---- failed reads ----

  ghost predicate AllRight(devices: seq<Device>, slots: seq<Slot>)
    requires DevicesOk(devices)
  {
    |slots| == SLOTS && forall i :: 0 <= i < SLOTS && slots[i].valid ==> Right(devices, slots[i])
  }

  /** A slot was still unused. */
  predicate Unused(slots: seq<Slot>)
    requires |slots| == SLOTS
  {
    exists i :: 0 <= i < SLOTS && !slots[i].valid
  }

  lemma {:induction false} FailureLabels(devices: seq<Device>, slots: seq<Slot>, seed: nat, d: nat, lba: nat)
    requires DevicesOk(devices) && d < |devices| && |slots| == SLOTS && !Readable(devices, d, lba)
    ensures var slots' := AfterFailure(devices, slots, seed, d, lba);
      && |slots'| == SLOTS && (forall i :: 0 <= i < SLOTS ==> slots'[i].valid == slots[i].valid)
      && (Unused(slots) ==> forall i :: 0 <= i < SLOTS && slots[i].valid ==> slots'[i] == slots[i])
      && (!Unused(slots) ==> exists i :: 0 <= i < SLOTS && slots'[i].valid && !Right(devices, slots'[i]))
    decreases d
  {
    hide Block;
    assert DeviceOk(devices, d);
    var k := Victim(slots, seed);
    var slots1 := slots[k := slots[k].(device := d, lba := lba)];
    assert slots1[k].valid == slots[k].valid && !Right(devices, slots1[k]);
    match devices[d]
    case Physical(_, _, _) =>
    case Partition(_, blocks, parent, start) =>
      if lba != blocks {
        FailureLabels(devices, slots1, NextSeed(slots, seed), parent, start + lba);
      }
  }

  /** A fill that fails leaves slots labelled with blocks that could not be read.  All valid
      slots stay right exactly when a slot was still unused: an evicted one stays valid, so
      asking for the missing block again finds old bytes under its label. */
  lemma FailedFill(devices: seq<Device>, slots: seq<Slot>, seed: nat, d: nat, lba: nat)
    requires DevicesOk(devices) && AllRight(devices, slots) && d < |devices| && !Readable(devices, d, lba)
    ensures AllRight(devices, AfterFailure(devices, slots, seed, d, lba)) <==> Unused(slots)
  {
    hide Right, Readable, AfterFailure;
    FailureLabels(devices, slots, seed, d, lba);
  }

  /** Slots that are all right stay so over any call that succeeds. */
  lemma SuccessKeepsRight(devices: seq<Device>, slots: seq<Slot>, slots': seq<Slot>, d: nat)
    requires DevicesOk(devices) && AllRight(devices, slots) && Refilled(devices, slots, slots', d)
    ensures AllRight(devices, slots') && Trusted(devices, slots, d)
  {
    hide Right;
  }

  // ---- inside a device and behind its end ----

  /** The number of readable blocks in a row from block `lba` on. */
  ghost function Reach(devices: seq<Device>, d: nat, lba: nat): nat
    requires DevicesOk(devices) && d < |devices|
    decreases d
  {
    assert DeviceOk(devices, d);
    match devices[d]
    case Physical(_, blocks, _) => if lba < blocks then blocks - lba else 0
    case Partition(_, blocks, parent, start) =>
      var r := Reach(devices, parent, start + lba);
      if lba <= blocks && blocks - lba < r then blocks - lba else r
  }

  /** So many blocks are readable, and the next one is not. */
  lemma {:induction false} ReachIsRun(devices: seq<Device>, d: nat, lba: nat)
    requires DevicesOk(devices) && d < |devices|
    ensures AllReadable(devices, d, lba, Reach(devices, d, lba))
    ensures !Readable(devices, d, lba + Reach(devices, d, lba))
    decreases d
  {
    assert DeviceOk(devices, d);
    match devices[d]
    case Physical(_, _, _) =>
    case Partition(_, blocks, parent, start) =>
      ReachIsRun(devices, parent, start + lba);
      var r := Reach(devices, d, lba);
      forall b | lba <= b < lba + r
        ensures Readable(devices, d, b)
      {
        assert Readable(devices, parent, start + b);
      }
      assert start + lba + r == start + (lba + r);
  }

  /** The bytes of a device: of a partition, those of its blocks that its parent can read. */
  ghost function DeviceBytes(devices: seq<Device>, d: nat): (r: seq<Byte>)
    requires DevicesOk(devices) && d < |devices|
    ensures |r| == Start(Reach(devices, d, 0), devices[d].blockSize)
  {
    var n := Reach(devices, d, 0);
    if n == 0 then [] else
      ReachOnDisk(devices, d, n);
      Window(devices, d, 0, Start(n, devices[d].blockSize))
  }

  lemma ReachOnDisk(devices: seq<Device>, d: nat, n: nat)
    requires DevicesOk(devices) && d < |devices| && 0 < n == Reach(devices, d, 0)
    ensures OnDisk(devices, d, 0, Start(n, devices[d].blockSize)) && In64(devices, d, n + 1)
  {
    hide Disk, Base, Readable, Reach;
    ReachIsRun(devices, d, 0);
    assert Readable(devices, d, n - 1);
    ReadableOnDisk(devices, d, n - 1);
    ReadableIn64(devices, d, n - 1);
    StartStep(n - 1, devices[d].blockSize);
  }

  /** An access that starts no more than one block behind the readable blocks succeeds exactly
      if it starts and ends inside them, and then it finds the bytes of the device. */
  lemma ServedInside(devices: seq<Device>, d: nat, at: nat, n: nat)
    requires DevicesOk(devices) && d < |devices| && devices[d].blockSize > 0
    requires Unit(at, devices[d].blockSize) <= Reach(devices, d, 0)
    ensures var end := |DeviceBytes(devices, d)|;
      Serves(devices, d, at, n) <==> at < end && at + n <= end
    ensures Serves(devices, d, at, n) ==>
      && In64(devices, d, EndBlock(at, n, devices[d].blockSize))
      && forall out :: Piece(devices, d, at, n, out) <==> out == Stretch(DeviceBytes(devices, d), at, n)
  {
    hide Start, Unit, Disk, Base, Readable, Reach, Rest, EndBlock;
    var size, r := devices[d].blockSize, Reach(devices, d, 0);
    ReachIsRun(devices, d, 0);
    InCapacity(at, size, r);
    if at >= Start(r, size) {
      assert Touched(at, n, size, r);
    } else if at + n > Start(r, size) {
      assert Touched(at, n, size, r);
    } else {
      InsideTouches(at, n, size, r);
      ReachOnDisk(devices, d, r);
      In64Mono(devices, d, EndBlock(at, n, size), r + 1);
      StretchOfStretch(Disk(devices, d), Start(Base(devices, d), size), Start(r, size),
          Start(Base(devices, d), size) + at, n);
    }
  }

  lemma InsideTouches(at: nat, n: nat, size: nat, r: nat)
    requires size > 0 && at < Start(r, size) && at + n <= Start(r, size)
    ensures EndBlock(at, n, size) <= r
    ensures forall b: nat :: Touched(at, n, size, b) ==> b < r
  {
    hide Start, Unit;
    InCapacity(at, size, r);
    InCapacity(at + (if n == 0 then 0 else n - 1), size, r);
    forall b: nat | Touched(at, n, size, b)
      ensures b < r
    {
      StartMono(r, b, size);
    }
  }

  /** Inside the device every access succeeds. */
  lemma ServesDevice(devices: seq<Device>, d: nat, at: nat, n: nat)
    requires DevicesOk(devices) && d < |devices| && at < |DeviceBytes(devices, d)|
      && at + n <= |DeviceBytes(devices, d)|
    ensures devices[d].blockSize > 0 && Serves(devices, d, at, n)
    ensures In64(devices, d, EndBlock(at, n, devices[d].blockSize))
    ensures forall out :: Piece(devices, d, at, n, out) <==> out == Stretch(DeviceBytes(devices, d), at, n)
  {
    hide DeviceBytes, Serves, Piece, EndBlock;
    assert DeviceOk(devices, d);
    InCapacity(at, devices[d].blockSize, Reach(devices, d, 0));
    ServedInside(devices, d, at, n);
  }

  lemma TouchedShift(at: nat, n: nat, size: nat, start: nat, b: nat)
    requires size > 0
    ensures Touched(Start(start, size) + at, n, size, b) <==> start <= b && Touched(at, n, size, b - start)
  {
    hide Start, Unit;
    StartPlus(start, Unit(at, size), size);
    Locate(Start(start, size) + at, size, start + Unit(at, size));
    if start <= b {
      StartPlus(start, b - start, size);
    } else {
      StartMono(b, start, size);
    }
  }

  lemma EndTouched(at: nat, n: nat, size: nat, blocks: nat)
    requires size > 0
    ensures var end := Start(blocks, size);
      Touched(at, n, size, blocks) <==> at < end + size && (at >= end || at + n > end)
  {
    hide Start, Unit;
    Locate(at, size, blocks);
  }

  /** A partition serves an access when the parent does and it touches no byte of the block
      behind the last one.  Starting behind that block it serves the parent's bytes there. */
  lemma ServedByParent(devices: seq<Device>, d: nat, at: nat, n: nat)
    requires DevicesOk(devices) && d < |devices| && devices[d].Partition?
    ensures DeviceOk(devices, d)
    ensures var size := devices[d].blockSize;
      var p, s, end := devices[d].parent, Start(devices[d].start, size), Start(devices[d].blocks, size);
      && (Serves(devices, d, at, n) <==>
            Serves(devices, p, s + at, n) && if at < end + size then at < end && at + n <= end else true)
      && (Serves(devices, d, at, n) ==> forall out ::
        Piece(devices, d, at, n, out) <==> Piece(devices, p, s + at, n, out))
  {
    hide Start, Unit, Touched, Disk, Base;
    assert DeviceOk(devices, d);
    var size, start, p := devices[d].blockSize, devices[d].start, devices[d].parent;
    EndTouched(at, n, size, devices[d].blocks);
    ParentWindow(devices, d, at, n);
    forall b: nat | Serves(devices, d, at, n) && Touched(Start(start, size) + at, n, size, b)
      ensures Readable(devices, p, b)
    {
      TouchedShift(at, n, size, start, b);
      assert Touched(at, n, size, b - start) && Readable(devices, d, b - start);
    }
    forall b: nat | Serves(devices, p, Start(start, size) + at, n) && Touched(at, n, size, b)
      ensures Readable(devices, p, start + b)
    {
      TouchedShift(at, n, size, start, start + b);
      assert Touched(Start(start, size) + at, n, size, start + b);
    }
  }

  /** A disk of four blocks and a partition of its block 1.  Reading block 1 of the
      partition fails, and reading its block 2 gives block 3 of the disk. */
  lemma BehindThePartition(b: seq<Byte>)
    requires |b| == 4
    ensures var devices := DiskAndPartition(b);
      && DevicesOk(devices) && DeviceBytes(devices, 1) == [b[1]]
      && Serves(devices, 1, 0, 1) && !Serves(devices, 1, 1, 1)
      && Serves(devices, 1, 2, 1) && Piece(devices, 1, 2, 1, [b[3]])
  {
    var devices := DiskAndPartition(b);
    StartIsProduct(4, 1);
    StartIsProduct(1, 1);
    StartIsProduct(3, 1);
    StartIsProduct(2, 1);
    StartIsProduct(5, 1);
    assert DeviceOk(devices, 0) && DeviceOk(devices, 1);
    assert Reach(devices, 1, 0) == 1;
    assert DeviceBytes(devices, 1) == [b[1]];
    assert Piece(devices, 1, 2, 1, [b[3]]);
    ServesOne(devices, 1, 0, 1);
    ServesOne(devices, 1, 1, 1);
    ServesOne(devices, 1, 2, 1);
  }

  function DiskAndPartition(b: seq<Byte>): seq<Device> {
    [Physical(1, 4, b), Partition(1, 1, 0, 1)]
  }

  /** With the whole disk cached, asking for block 1 of that partition leaves its label on
      block 0 of the disk, which a second request then takes for the missing block. */
  lemma WrongAfterFailure(b: seq<Byte>)
    requires |b| == 4
    ensures var devices := DiskAndPartition(b);
      var slots := seq(SLOTS, i requires 0 <= i < SLOTS => Slot(true, 0, i, [b[i]]));
      && DevicesOk(devices) && AllRight(devices, slots) && !Readable(devices, 1, 1)
      && var after := AfterFailure(devices, slots, 0, 1, 1);
         |after| == SLOTS && after[0] == Slot(true, 1, 1, [b[0]]) && !AllRight(devices, after)
  {
    BehindThePartition(b);
    var devices := DiskAndPartition(b);
    var slots := seq(SLOTS, i requires 0 <= i < SLOTS => Slot(true, 0, i, [b[i]]));
    forall i | 0 <= i < SLOTS
      ensures Right(devices, slots[i])
    {
      StartIsProduct(i, 1);
      ReadableOnDisk(devices, 0, i);
      assert Block(devices, 0, i) == [b[i]];
    }
    FailedFill(devices, slots, 0, 1, 1);
  }
}

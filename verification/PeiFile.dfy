/** Files of the recovery reader: following a cluster chain through the block cache and
    copying the bytes of the chain. */
module PeiFile {
  import opened Bytes
  import opened FatTypes
  import opened FatTable
  import opened Clusters
  import opened FileData
  import opened PeiCache

  /** FAT_CLUSTER_SPECIAL. */
  const SPECIAL32: nat := 0xFFFF_FFF7

  /** FAT_CLUSTER_FUNCTIONAL. */
  predicate Functional(cluster: nat) {
    cluster == 0 || cluster >= SPECIAL32
  }

  /** The same of the value of an entry. */
  predicate Ends(v: nat) {
    v == FREE || v >= SPECIAL
  }

  /** FatGetNextCluster's reading of the bytes of entry `i`. */
  function NextOf(t: FatType, i: nat, b: seq<Byte>): nat
    requires |b| == EntrySize(t)
  {
    match t
    case Fat12 =>
      var v := if i % 2 != 0 then Word(b) / 0x10 else Word(b) % 0x1000;
      if v >= 0xFF7 then 0xFFFF_FFF0 + v % 0x10 else v
    case Fat16 => if Word(b) >= 0xFFF7 then 0xFFFF_FFF0 + Word(b) % 0x10 else Word(b)
    case Fat32 =>
      var v := DWord(b) % 0x1000_0000;
      if v >= 0xFFF_FFF7 then 0xFFFF_FFF0 + v % 0x10 else v
  }

  /** The reader and the full driver agree on every FAT entry, up to the width they use. */
  lemma NextAgrees(t: FatType, i: nat, b: seq<Byte>)
    requires |b| == EntrySize(t)
    ensures NextOf(t, i, b) == Decode(t, i, b) % UINT32
    ensures NextOf(t, i, b) == 0 <==> Decode(t, i, b) == FREE
    ensures NextOf(t, i, b) >= SPECIAL32 <==> Decode(t, i, b) >= SPECIAL
  {
    hide Word, DWord, Extend;
    match t
    case Fat12 => NarrowExtend(t, if i % 2 != 0 then Word(b) / 0x10 else Word(b) % 0x1000);
    case Fat16 => NarrowExtend(t, Word(b));
    case Fat32 => NarrowExtend(t, DWord(b) % 0x1000_0000);
  }

  /** Both widths extend the same values, by all ones but the low four bits. */
  lemma NarrowExtend(t: FatType, v: nat)
    requires v < Range(t)
    ensures var narrow := if v >= Range(t) - 9 then 0xFFFF_FFF0 + v % 0x10 else v;
      && narrow == Extend(t, v) % UINT32 && (narrow == 0 <==> Extend(t, v) == FREE)
      && (narrow >= SPECIAL32 <==> Extend(t, v) >= SPECIAL)
  {
  }

  /** PEI_FAT_VOLUME. */
  datatype Volume = Volume(device: nat, fatType: FatType, fatPos: nat, clusterSize: nat, firstClusterPos: nat,
      maxCluster: nat,
                           rootDirPos: nat, rootEntries: nat) {
    function Area(): DataArea {
      DataArea(firstClusterPos, clusterSize, maxCluster)
    }

    /** Where FatReadFile takes a cluster to start; the subtraction is one of 32 bits. */
    function ClusterAddress(cluster: nat): nat {
      firstClusterPos + Start((cluster - MIN_CLUSTER) % UINT32, clusterSize)
    }

    /** Positions fit into 64 bits up to `n` clusters behind any cluster number. */
    ghost predicate Far64(devices: seq<Device>, n: nat)
      requires On(devices)
    {
      assert DeviceOk(devices, device);
      In64(devices, device, Unit(firstClusterPos + Start(UINT32 + n, clusterSize), devices[device].blockSize) + 1)
    }

    /** FAT, root directory and clusters lie on the device. */
    ghost predicate On(devices: seq<Device>) {
      && DevicesOk(devices) && device < |devices|
      && var disk := DeviceBytes(devices, device);
         && fatPos <= |disk| && Fits(fatType, disk[fatPos..], maxCluster + 2)
         && Area().Fits(disk) && maxCluster + 2 <= Range(fatType) - 9
         && rootDirPos + 32 * rootEntries <= |disk|
    }

    /** The FAT as entry values. */
    ghost function Table(devices: seq<Device>): (t: seq<nat>)
      requires On(devices)
      ensures |t| == maxCluster + 2
    {
      ClusterTable(fatType, DeviceBytes(devices, device)[fatPos..], maxCluster + 2)
    }

    /** The bytes of a chain, in file order. */
    ghost function ChainBytes(devices: seq<Device>, ch: seq<nat>): seq<Byte>
      requires On(devices) && Area().Holds(ch)
    {
      Contents(Area(), DeviceBytes(devices, device), ch)
    }
  }

  /** The entry of a cluster lies on the device, and holds what the table says. */
  lemma EntryOnDisk(vol: Volume, devices: seq<Device>, c: nat)
    requires vol.On(devices) && InRange(vol.Table(devices), c)
    ensures var disk, at := DeviceBytes(devices, vol.device), vol.fatPos + EntryPos(vol.fatType, c);
      && at + EntrySize(vol.fatType) <= |disk|
      && vol.Table(devices)[c] == Decode(vol.fatType, c, Stretch(disk, at, EntrySize(vol.fatType)))
  {
    var disk := DeviceBytes(devices, vol.device);
    var fat := disk[vol.fatPos..];
    FitsBelow(vol.fatType, fat, vol.maxCluster + 2, c);
    hide DeviceBytes, Decode, Start, EntryPos, Stretch;
    StretchOfTail(disk, vol.fatPos, EntryPos(vol.fatType, c), EntrySize(vol.fatType));
  }

  lemma StretchOfTail(s: seq<Byte>, from: nat, at: nat, n: nat)
    requires from + at + n <= |s|
    ensures Stretch(s[from..], at, n) == Stretch(s, from + at, n)
  {
  }

  /** PEI_FAT_FILE, and the reader it is read through. */
  class File {
    const reader: Reader
    const vol: Volume
    const isFixedRootDir: bool
    const isDirectory: bool
    const fileSize: nat
    var currentPos: nat
    var straight: nat
    var currentCluster: nat

    constructor (reader: Reader, vol: Volume, isFixedRootDir: bool, isDirectory: bool, fileSize: nat,
        startingCluster: nat)
      ensures this.reader == reader && this.vol == vol && this.isFixedRootDir == isFixedRootDir
      ensures this.isDirectory == isDirectory && this.fileSize == fileSize
      ensures currentPos == 0 && currentCluster == startingCluster
    {
      this.reader, this.vol, this.isFixedRootDir, this.isDirectory := reader, vol, isFixedRootDir, isDirectory;
      this.fileSize, currentPos, straight, currentCluster := fileSize, 0, 0, startingCluster;
    }

    ghost predicate Valid()
      reads this, reader
    {
      && vol.On(reader.devices) && reader.Valid() && Trusted(reader.devices, reader.slots, vol.device)
    }

    /** The file has the chain `ch`: it ends at a free entry or at a special value. */
    ghost predicate Has(ch: seq<nat>)
      reads reader
      requires vol.On(reader.devices)
    {
      && ch != [] && IsPath(vol.Table(reader.devices), ch[0], ch) && Ends(Stop(vol.Table(reader.devices), ch[0], ch))
    }

    /** What the driver takes for the cluster after the chain. */
    ghost function AfterChain(ch: seq<nat>): (c: nat)
      reads reader
      requires vol.On(reader.devices) && Has(ch)
      ensures Ends(Stop(vol.Table(reader.devices), ch[0], ch)) && c < UINT32
    {
      Stop(vol.Table(reader.devices), ch[0], ch) % UINT32
    }

    /** The current cluster is the one of the current position. */
    ghost predicate At(ch: seq<nat>)
      reads this
      requires vol.clusterSize > 0
    {
      Unit(currentPos, vol.clusterSize) < |ch| && currentCluster == ch[Unit(currentPos, vol.clusterSize)]
    }

    /** ... and the next `straight` bytes are consecutive on the device. */
    ghost predicate Positioned(ch: seq<nat>)
      reads this
      requires vol.clusterSize > 0 && vol.Area().Holds(ch)
    {
      && At(ch) && 0 < straight && currentPos + straight <= Start(|ch|, vol.clusterSize)
      && Straight(vol.Area(), ch, currentPos, straight)
    }

    /** FatGetNextCluster, on a cluster of the volume. */
    method GetNextCluster(cluster: nat) returns (status: Status, next: nat)
      requires Valid() && InRange(vol.Table(reader.devices), cluster)
      modifies reader`slots, reader`seed
      ensures Valid() && status == Success
      ensures next == vol.Table(reader.devices)[cluster] % UINT32
      ensures Functional(next) <==>
        vol.Table(reader.devices)[cluster] == FREE || vol.Table(reader.devices)[cluster] >= SPECIAL
    {
      hide DeviceBytes, EntryPos, Decode, Start, NextOf, Volume.Table;
      EntryOnDisk(vol, reader.devices, cluster);
      ServesDevice(reader.devices, vol.device, vol.fatPos + EntryPos(vol.fatType, cluster), EntrySize(vol.fatType));
      var b;
      status, b := reader.ReadDisk(vol.device, vol.fatPos + EntryPos(vol.fatType, cluster), EntrySize(vol.fatType));
      NextAgrees(vol.fatType, cluster, b);
      next := NextOf(vol.fatType, cluster, b);
    }

    /** A chain read through the narrower cluster numbers. */
    lemma ChainStep(ch: seq<nat>, k: nat)
      requires Valid() && Has(ch) && k < |ch|
      ensures vol.Area().Holds(ch) && InRange(vol.Table(reader.devices), ch[k]) && !Functional(ch[k])
      ensures var next := vol.Table(reader.devices)[ch[k]];
        if k + 1 < |ch| then next % UINT32 == ch[k + 1] else Ends(next) && next % UINT32 != ch[k] + 1
    {
      hide DeviceBytes, Start, Volume.Table;
      var t := vol.Table(reader.devices);
      assert forall i :: 0 <= i < |ch| ==> InRange(t, ch[i]);
      if k + 1 < |ch| {
        assert Links(t, ch, k);
      } else {
        assert Stop(t, ch[0], ch) == t[ch[k]];
        if t[ch[k]] != FREE {
          SpecialNarrow(vol, reader.devices, ch[k]);
        }
      }
    }

    /** The loop of FatSetFilePos that walks to the cluster of the position `target`. */
    method WalkTo(target: nat, ghost ch: seq<nat>) returns (status: Status)
      requires Valid() && Has(ch) && At(ch) && currentPos <= target
      modifies this`currentCluster, reader`slots, reader`seed
      ensures Valid()
      ensures var u := Unit(target, vol.clusterSize);
        if u < |ch| then status == Success && currentCluster == ch[u]
        else status == InvalidParameter && currentCluster == AfterChain(ch)
    {
      hide DeviceBytes, Start, Unit, Rest, Volume.Table, Functional;
      var size := vol.clusterSize;
      ghost var k: nat := Unit(currentPos, size);
      var alignedPos := currentPos - Rest(currentPos, size);
      LocateUp(currentPos, target, size);
      ChainStep(ch, k);
      while !Functional(currentCluster) && alignedPos + size <= target
        invariant Valid() && alignedPos == Start(k, size) <= target && k <= |ch|
        invariant if k < |ch| then currentCluster == ch[k] && !Functional(ch[k])
          else Functional(currentCluster) && currentCluster == AfterChain(ch)
        decreases |ch| - k
      {
        StartStep(k, size);
        alignedPos := alignedPos + size;
        ChainStep(ch, k);
        status, currentCluster := GetNextCluster(currentCluster);
        k := k + 1;
        if k < |ch| {
          ChainStep(ch, k);
        }
      }
      Locate(target, size, k);
      StartMono(Unit(target, size), k, size);
      StartMono(k, Unit(target, size), size);
      if Functional(currentCluster) {
        return InvalidParameter;
      }
      return Success;
    }

    /** FatSetFilePos: move on by `pos` bytes and measure the run of consecutive clusters there;
        in the fixed root directory, of all that is left.  Beyond the end the position stays. */
    method SetFilePos(pos: nat, ghost ch: seq<nat>) returns (status: Status)
      requires Valid() && (isFixedRootDir || (Has(ch) && (At(ch) || Functional(currentCluster))))
      modifies this`currentPos, this`straight, this`currentCluster, reader`slots, reader`seed
      ensures Valid()
      ensures isFixedRootDir ==>
        var rest := 32 * vol.rootEntries - old(currentPos);
        && currentCluster == old(currentCluster)
        && if pos >= rest % UINT64 then
             status == InvalidParameter && currentPos == old(currentPos) && straight == old(straight)
           else
             status == Success && currentPos == old(currentPos) + pos && straight == (rest - pos) % UINT32
      ensures !isFixedRootDir ==>
        && vol.Area().Holds(ch)
        && if !Functional(old(currentCluster)) && Unit(old(currentPos) + pos, vol.clusterSize) < |ch| then
             status == Success && currentPos == old(currentPos) + pos && Positioned(ch)
           else
             && status == InvalidParameter && currentPos == old(currentPos) && straight == old(straight)
             && currentCluster == if Functional(old(currentCluster)) then old(currentCluster) else AfterChain(ch)
    {
      hide DeviceBytes, Start, Unit, Rest, Volume.Table, Functional, Straight;
      if isFixedRootDir {
        if pos >= (32 * vol.rootEntries - currentPos) % UINT64 {
          return InvalidParameter;
        }
        currentPos := currentPos + pos;
        straight := (32 * vol.rootEntries - currentPos) % UINT32;
        return Success;
      }
      ChainStep(ch, 0);
      if Functional(currentCluster) {
        return InvalidParameter;
      }
      status := WalkTo(currentPos + pos, ch);
      if status != Success {
        return;
      }
      currentPos := currentPos + pos;
      var run := MeasureRun(ch);
      straight := run - Rest(currentPos, vol.clusterSize);
    }

    /** The second loop of FatSetFilePos: the bytes of the consecutive clusters from the
        current one on. */
    method MeasureRun(ghost ch: seq<nat>) returns (run: nat)
      requires Valid() && Has(ch) && At(ch)
      modifies reader`slots, reader`seed
      ensures Valid() && vol.Area().Holds(ch)
      ensures var rest := Rest(currentPos, vol.clusterSize);
        && rest < run && currentPos + (run - rest) <= Start(|ch|, vol.clusterSize)
        && Straight(vol.Area(), ch, currentPos, run - rest)
    {
      hide DeviceBytes, Start, Unit, Rest, Volume.Table, Straight;
      var size := vol.clusterSize;
      ghost var u := Unit(currentPos, size);
      ghost var j: nat := 0;
      run := 0;
      var cluster := currentCluster;
      ChainStep(ch, u);
      StartStep(0, size);
      while !Functional(cluster)
        invariant Valid() && u + j < |ch| && cluster == ch[u + j] && !Functional(cluster)
        invariant run == Start(j, size)
        invariant forall v {:trigger ch[v]} :: u <= v <= u + j ==> ch[v] == ch[u] + (v - u)
        decreases |ch| - j
      {
        StartStep(j, size);
        run := run + size;
        var prevCluster := cluster;
        ChainStep(ch, u + j);
        var status;
        status, cluster := GetNextCluster(cluster);
        if cluster != prevCluster + 1 {
          break;
        }
        j := j + 1;
        ChainStep(ch, u + j);
      }
      StartPlus(u, j + 1, size);
      ConsecutiveIsStraight(vol.Area(), ch, currentPos, j);
    }

    /** How much FatReadFile reads of `n` bytes; the subtraction is one of 32 bits. */
    function Clipped(n: nat): nat
      reads this`currentPos
    {
      var rest := (fileSize - currentPos) % UINT32;
      if !isDirectory && n >= rest then rest else n
    }

    /** The chain has been read to its end.  The position is still that of the last piece. */
    ghost predicate Spent(ch: seq<nat>)
      reads this, reader
      requires vol.On(reader.devices) && Has(ch)
    {
      && currentCluster == AfterChain(ch)
      && 0 < straight && currentPos + straight == Start(|ch|, vol.clusterSize)
    }

    /** Where the driver reads on then: at the place of the number that ended the chain. */
    ghost function FarPos(ch: seq<nat>): nat
      reads this, reader
      requires vol.On(reader.devices) && Has(ch)
    {
      vol.ClusterAddress(AfterChain(ch)) + Rest(currentPos, vol.clusterSize)
    }

    /** The bytes of the chain still to come. */
    ghost function Left(ch: seq<nat>): nat
      reads this
      requires vol.clusterSize > 0 && vol.Area().Holds(ch)
    {
      if Positioned(ch) then Start(|ch|, vol.clusterSize) - currentPos else 0
    }

    /** FatReadFile on a file with a cluster chain: the bytes of the chain from the current
        position on.  Having read up to the end of the chain the file is no longer at any
        cluster, and its position is not moved by the last piece; what was asked for beyond
        the chain, then or in a later call, comes over and over from one place far behind it. */
    method ReadFile(n: nat, ghost ch: seq<nat>) returns (status: Status, out: seq<Byte>)
      requires Valid() && Has(ch) && !isFixedRootDir && vol.Area().Holds(ch) && (Positioned(ch) || Spent(ch))
      requires vol.Far64(reader.devices, |ch|)
      modifies this`currentPos, this`straight, this`currentCluster, reader`slots, reader`seed
      ensures fileSize < UINT32 && !isDirectory && old(currentPos) <= fileSize ==> |out| <= fileSize - old(currentPos)
      ensures status == Success && fileSize < UINT32 && (isDirectory || old(currentPos) <= fileSize) ==>
        |out| == if isDirectory || old(currentPos) + n <= fileSize then n else fileSize - old(currentPos)
      ensures vol.On(reader.devices) && Has(ch) && (if status == Success then Valid() else status == DeviceError)
      ensures var size, left, from := old(Clipped(n)), old(Left(ch)), old(currentPos);
        && from + left <= Start(|ch|, vol.clusterSize)
        && (size < left ==> Positioned(ch) && currentPos == from + size)
        && (size >= left ==> Spent(ch) && from <= currentPos)
        && (old(Spent(ch)) ==> Spent(ch) && currentPos == from && straight == old(straight))
        && (size <= left ==> status == Success && out == Stretch(vol.ChainBytes(reader.devices, ch), from, size))
        && (size > left ==>
              var m := size - left;
              && (status == Success <==>
                    Serves(reader.devices, vol.device, FarPos(ch), if m > straight then straight else m))
              && (status == Success ==>
                    out == Stretch(vol.ChainBytes(reader.devices, ch), from, left)
                           + Cycles(reader.devices, vol.device, FarPos(ch), straight, m)))
    {
      hide DeviceBytes, Start, Unit, Rest, Volume.Table, Functional, Contents, Stretch, Serves, IsPath, Cycles, Fits;
      hide File.Positioned, FarPos, File.Has, Spent, Volume.Far64, Left;
      ReadStart(ch);
      ghost var part, spent := Left(ch), Spent(ch);
      var size := Clipped(n);
      ghost var from, run := currentPos, straight;
      ghost var chain := vol.ChainBytes(reader.devices, ch);
      ghost var beyond: int := (size as int) - part;
      StretchNone(chain, from);
      out := [];
      status := Success;
      var left: nat := size;
      if part == 0 {
        CyclingStarts(reader.devices, vol.device, FarPos(ch), straight, left, out);
      }
      while left != 0
        invariant Valid() && Has(ch) && vol.Area().Holds(ch) && status == Success && |out| + left == size
        invariant |out| < part ==> Positioned(ch) && currentPos == from + |out| && out == Stretch(chain, from, |out|)
        invariant |out| >= part ==>
          && Spent(ch) && from <= currentPos && part <= size
          && Cycling(reader.devices, vol.device, FarPos(ch), straight, left, beyond, Stretch(chain, from, part), out)
        invariant spent ==> currentPos == from && straight == run
        decreases left
      {
        ghost var far := FarPos(ch);
        var piece;
        status, piece := ReadPiece(left, ch);
        if |out| >= part {
          CyclingOn(reader.devices, vol.device, far, straight, left, beyond, Stretch(chain, from, part), out);
        }
        if status != Success {
          return DeviceError, out;
        }
        if |out| < part {
          StretchPlus(chain, from, |out|, |piece|);
        }
        out := out + piece;
        left := left - |piece|;
        if left == beyond {
          CyclingStarts(reader.devices, vol.device, FarPos(ch), straight, left, out);
        }
      }
      if |out| >= part {
        CyclingEnds(reader.devices, vol.device, FarPos(ch), straight, beyond, Stretch(chain, from, part), out);
      }
    }

    lemma ReadStart(ch: seq<nat>)
      requires Valid() && Has(ch) && vol.Area().Holds(ch) && (Positioned(ch) || Spent(ch))
      ensures vol.On(reader.devices) && currentPos < Start(|ch|, vol.clusterSize)
      ensures Left(ch) > 0 <==> Positioned(ch)
      ensures Left(ch) == if Spent(ch) then 0 else Start(|ch|, vol.clusterSize) - currentPos
    {
      hide DeviceBytes, Start, Unit, Rest, Volume.Table, Functional, Straight;
      if Spent(ch) {
        NotBoth(ch);
      }
    }

    /** A file is at a cluster of its chain or has read it to the end. */
    lemma NotBoth(ch: seq<nat>)
      requires Valid() && Has(ch) && vol.Area().Holds(ch) && Spent(ch)
      ensures !Positioned(ch)
    {
      hide DeviceBytes, Start, Unit, Rest, Volume.Table, Functional, Straight;
      AfterFunctional(ch);
      if Positioned(ch) {
        ChainStep(ch, Unit(currentPos, vol.clusterSize));
      }
    }

    /** One turn of the loop of FatReadFile: the rest of the run at the current position, or
        what lies at the far place when the chain has been read. */
    method ReadPiece(left: nat, ghost ch: seq<nat>) returns (status: Status, piece: seq<Byte>)
      requires Valid() && Has(ch) && !isFixedRootDir && vol.Area().Holds(ch) && 0 < left
      requires Positioned(ch) || Spent(ch)
      requires vol.Far64(reader.devices, |ch|)
      modifies this`currentPos, this`straight, this`currentCluster, reader`slots, reader`seed
      ensures vol.On(reader.devices) && Has(ch) && (status == Success ==> Valid())
      ensures var amount, pos, end := if left > old(straight) then old(straight) else left, old(currentPos),
        Start(|ch|, vol.clusterSize);
        && 0 < amount && pos + amount <= end
        && (status == Success ==> |piece| == amount)
        && (old(Spent(ch)) ==>
             && Spent(ch) && currentPos == pos && straight == old(straight) && FarPos(ch) == old(FarPos(ch))
             && (status == Success <==> Serves(reader.devices, vol.device, FarPos(ch), amount))
             && (status == Success ==> Piece(reader.devices, vol.device, FarPos(ch), amount, piece)))
        && (old(Positioned(ch)) ==>
             && status == Success && piece == Stretch(vol.ChainBytes(reader.devices, ch), pos, amount)
             && if pos + amount < end then Positioned(ch) && currentPos == pos + amount
                else Spent(ch) && currentPos == pos && straight == old(straight))
    {
      hide DeviceBytes, Start, Unit, Rest, Volume.Table, Fits, Functional, Straight, Contents, DataArea.Where, Stretch;
      hide Serves, IsPath;
      var offset := Rest(currentPos, vol.clusterSize);
      var physical := vol.ClusterAddress(currentCluster);
      var amount := if left > straight then straight else left;
      AfterFunctional(ch);
      if Positioned(ch) {
        ChainStep(ch, Unit(currentPos, vol.clusterSize));
        RunOnDevice(ch, amount);
      } else {
        FarIn64(ch, amount);
      }
      status, piece := reader.ReadDisk(vol.device, physical + offset, amount);
      if status != Success {
        return DeviceError, [];
      }
      InCapacity(currentPos + amount, vol.clusterSize, |ch|);
      var _ := SetFilePos(amount, ch);
    }

    lemma AfterFunctional(ch: seq<nat>)
      requires Valid() && Has(ch)
      ensures Functional(AfterChain(ch))
    {
      hide DeviceBytes, Start, Volume.Table;
      assert InRange(vol.Table(reader.devices), ch[|ch| - 1]);
      if Stop(vol.Table(reader.devices), ch[0], ch) != FREE {
        SpecialNarrow(vol, reader.devices, ch[|ch| - 1]);
      }
    }

    /** Inside the chain: where the piece lies on the device. */
    lemma RunOnDevice(ch: seq<nat>, n: nat)
      requires Valid() && Has(ch) && vol.Area().Holds(ch) && Positioned(ch) && 0 < n <= straight
      ensures var at, size := vol.ClusterAddress(currentCluster) + Rest(currentPos, vol.clusterSize),
        reader.devices[vol.device].blockSize;
        && size > 0 && Serves(reader.devices, vol.device, at, n)
          && In64(reader.devices, vol.device, EndBlock(at, n, size))
        && currentPos + n <= Start(|ch|, vol.clusterSize)
        && forall out ::
          Piece(reader.devices, vol.device, at, n, out) <==>
          out == Stretch(vol.ChainBytes(reader.devices, ch), currentPos, n)
    {
      hide DeviceBytes, Start, Unit, Rest, Straight, Contents, DataArea.Where, Stretch, Serves, Piece, EndBlock, In64;
      hide Volume.ClusterAddress, Volume.Table, Fits, IsPath, Stop;
      var disk := DeviceBytes(reader.devices, vol.device);
      AddressInside(vol, reader.devices, currentCluster);
      StraightShorter(vol.Area(), ch, currentPos, straight, n);
      StraightRead(vol.Area(), disk, ch, currentPos, n);
      WhereIs(vol.Area(), ch, currentPos);
      ServesDevice(reader.devices, vol.device, vol.Area().Where(ch, currentPos), n);
    }

    lemma FarIn64(ch: seq<nat>, n: nat)
      requires Valid() && Has(ch) && Spent(ch) && vol.Far64(reader.devices, |ch|) && 0 < n <= straight
      ensures reader.devices[vol.device].blockSize > 0
      ensures In64(reader.devices, vol.device, EndBlock(FarPos(ch), n, reader.devices[vol.device].blockSize))
    {
      hide DeviceBytes, Start, Unit, Rest;
      assert DeviceOk(reader.devices, vol.device);
      var size, cs := reader.devices[vol.device].blockSize, vol.clusterSize;
      var top := vol.firstClusterPos + Start(UINT32 + |ch|, cs);
      var c := (AfterChain(ch) - MIN_CLUSTER) % UINT32;
      StartMono(c, UINT32, cs);
      StartPlus(UINT32, |ch|, cs);
      LocateUp(FarPos(ch) + n - 1, top, size);
      In64Mono(reader.devices, vol.device, EndBlock(FarPos(ch), n, size), Unit(top, size) + 1);
    }

    /** FatReadFile on the fixed root directory of FAT12 and FAT16. */
    method ReadRoot(n: nat) returns (status: Status, out: seq<Byte>)
      requires Valid() && isFixedRootDir
      modifies this`currentPos, reader`slots, reader`seed
      ensures vol.On(reader.devices)
      ensures old(currentPos) + n > 32 * vol.rootEntries ==> status == InvalidParameter && currentPos == old(currentPos)
      ensures old(currentPos) + n <= 32 * vol.rootEntries ==>
        && currentPos == old(currentPos) + n
        && var at, disk := vol.rootDirPos + old(currentPos), DeviceBytes(reader.devices, vol.device);
           && at + n <= |disk|
           && (status == Success <==> at < |disk|)
           && (status == Success ==> Valid() && out == Stretch(disk, at, n))
    {
      hide DeviceBytes, Start, Unit, Rest, Serves, Piece, In64, EndBlock;
      if currentPos + n > 32 * vol.rootEntries {
        return InvalidParameter, [];
      }
      RootOnDevice(vol, reader.devices, vol.rootDirPos + currentPos, n);
      status, out := reader.ReadDisk(vol.device, vol.rootDirPos + currentPos, n);
      currentPos := currentPos + n;
    }
  }

  /** `n` bytes at the far place, read in pieces of at most `period` that all come from there. */
  ghost function Cycles(devices: seq<Device>, d: nat, at: nat, period: nat, n: nat): seq<Byte>
    requires DevicesOk(devices) && d < |devices|
    decreases n
  {
    var m := if n > period then period else n;
    if m == 0 || !OnDisk(devices, d, at, m) then []
    else Window(devices, d, at, m) + Cycles(devices, d, at, period, n - m)
  }

  /** With `left` of `all` bytes still to come from there, `out` follows on `chain`. */
  ghost predicate Cycling(devices: seq<Device>, d: nat, at: nat, period: nat, left: nat, all: nat, chain: seq<Byte>,
      out: seq<Byte>)
    requires DevicesOk(devices) && d < |devices|
  {
    && left <= all && out + Cycles(devices, d, at, period, left) == chain + Cycles(devices, d, at, period, all)
    && (left < all ==> Serves(devices, d, at, if all > period then period else all))
  }

  lemma CyclingStarts(devices: seq<Device>, d: nat, at: nat, period: nat, all: nat, out: seq<Byte>)
    requires DevicesOk(devices) && d < |devices|
    ensures Cycling(devices, d, at, period, all, all, out, out)
  {
  }

  lemma CyclingEnds(devices: seq<Device>, d: nat, at: nat, period: nat, all: nat, chain: seq<Byte>, out: seq<Byte>)
    requires DevicesOk(devices) && d < |devices| && Cycling(devices, d, at, period, 0, all, chain, out)
    ensures out == chain + Cycles(devices, d, at, period, all)
    ensures all > 0 ==> Serves(devices, d, at, if all > period then period else all)
  {
    assert out + [] == out;
  }

  /** A further piece is served exactly when the first one is. */
  lemma CyclingOn(devices: seq<Device>, d: nat, at: nat, period: nat, left: nat, all: nat, chain: seq<Byte>,
      out: seq<Byte>)
    requires DevicesOk(devices) && d < |devices| && Cycling(devices, d, at, period, left, all, chain, out)
    requires 0 < left && 0 < period
    ensures var m := if left > period then period else left;
      && (Serves(devices, d, at, m) <==> Serves(devices, d, at, if all > period then period else all))
      && forall piece :: Serves(devices, d, at, m) && Piece(devices, d, at, m, piece) ==>
           Cycling(devices, d, at, period, left - m, all, chain, out + piece)
  {
    hide Disk, Base, Unit, Start, Readable;
    var m := if left > period then period else left;
    var rest := Cycles(devices, d, at, period, left - m);
    forall piece | Serves(devices, d, at, m) && Piece(devices, d, at, m, piece)
      ensures Cycling(devices, d, at, period, left - m, all, chain, out + piece)
    {
      assert Cycles(devices, d, at, period, left) == piece + rest;
      assert (out + piece) + rest == out + (piece + rest);
    }
  }

  lemma RootOnDevice(vol: Volume, devices: seq<Device>, at: nat, n: nat)
    requires vol.On(devices) && at + n <= |DeviceBytes(devices, vol.device)|
    ensures var disk, size := DeviceBytes(devices, vol.device), devices[vol.device].blockSize;
      && size > 0 && In64(devices, vol.device, EndBlock(at, n, size))
      && (Serves(devices, vol.device, at, n) <==> at < |disk|)
      && (at < |disk| ==> forall out :: Piece(devices, vol.device, at, n, out) <==> out == Stretch(disk, at, n))
  {
    hide Start, Unit, Rest, Serves, Piece, In64, Reach;
    assert DeviceOk(devices, vol.device);
    var disk, size, r := DeviceBytes(devices, vol.device), devices[vol.device].blockSize, Reach(devices, vol.device, 0);
    FitsSomething(vol, devices);
    if at < |disk| {
      ServesDevice(devices, vol.device, at, n);
    } else {
      UnitOfStart(r, size);
      ServedInside(devices, vol.device, at, n);
      ReachOnDisk(devices, vol.device, r);
    }
  }

  /** A device with a volume is not empty. */
  lemma FitsSomething(vol: Volume, devices: seq<Device>)
    requires vol.On(devices)
    ensures |DeviceBytes(devices, vol.device)| > 0 && Reach(devices, vol.device, 0) > 0
  {
    FitsBelow(vol.fatType, DeviceBytes(devices, vol.device)[vol.fatPos..], vol.maxCluster + 2, 0);
  }

  lemma AddressInside(vol: Volume, devices: seq<Device>, c: nat)
    requires vol.On(devices) && vol.Area().Has(c)
    ensures vol.ClusterAddress(c) == vol.firstClusterPos + Start(c - MIN_CLUSTER, vol.clusterSize)
  {
    hide DeviceBytes, Start, Fits;
  }

  lemma StraightShorter(g: DataArea, ch: seq<nat>, p: nat, n: nat, m: nat)
    requires g.Valid() && g.Holds(ch) && m <= n && p + n <= Start(|ch|, g.clusterSize) && Straight(g, ch, p, n)
    ensures Straight(g, ch, p, m)
  {
    hide Start;
  }

  lemma WhereIs(g: DataArea, ch: seq<nat>, p: nat)
    requires g.Valid() && g.Holds(ch) && Unit(p, g.clusterSize) < |ch|
    ensures g.Where(ch, p) == g.first + Start(ch[Unit(p, g.clusterSize)] - MIN_CLUSTER, g.clusterSize) + Rest(p,
      g.clusterSize)
  {
    hide Start, Unit, Rest;
  }

  lemma SpecialNarrow(vol: Volume, devices: seq<Device>, c: nat)
    requires vol.On(devices) && InRange(vol.Table(devices), c) && vol.Table(devices)[c] >= SPECIAL
    ensures vol.Table(devices)[c] % UINT32 >= SPECIAL32
  {
    hide DeviceBytes, Start, Decode;
    EntryOnDisk(vol, devices, c);
    var b := Stretch(DeviceBytes(devices, vol.device), vol.fatPos + EntryPos(vol.fatType, c), EntrySize(vol.fatType));
    NextAgrees(vol.fatType, c, b);
  }

  /** A disk of one block with a FAT16 volume of one cluster of 32 bytes. */
  function SmallDisk(b: seq<Byte>): seq<Device> {
    [Physical(64, 1, b)]
  }

  const SMALL: Volume := Volume(0, Fat16, 0, 32, 32, 1, 0, 0)

  lemma SmallVolume(b: seq<Byte>)
    requires |b| == 64 && b[4] == b[5] == 0xFF
    ensures var devices := SmallDisk(b);
      && DevicesOk(devices) && SMALL.On(devices) && DeviceBytes(devices, 0) == b && devices[0].blockSize > 0
      && SMALL.Area().Holds([2]) && SMALL.ChainBytes(devices, [2]) == b[32..]
      && IsPath(SMALL.Table(devices), 2, [2]) && Stop(SMALL.Table(devices), 2, [2]) == LAST
      && SMALL.Far64(devices, 1)
  {
    var devices := SmallDisk(b);
    StartIsProduct(1, 64);
    StartIsProduct(2, 64);
    StartIsProduct(1, 32);
    assert DeviceOk(devices, 0);
    assert DeviceBytes(devices, 0) == b;
    SmallTable(b);
    SmallContents(b);
    hide DeviceBytes;
    var top := 32 + Start(UINT32 + 1, 32);
    StartIsProduct(UINT32 + 1, 32);
    UnitsAreDivision(top, 64);
    StartIsProduct(Unit(top, 64) + 1, 64);
  }

  lemma SmallTable(b: seq<Byte>)
    requires |b| == 64 && b[4] == b[5] == 0xFF
    ensures Fits(Fat16, b[0..], 3) && ClusterTable(Fat16, b[0..], 3)[2] == LAST
  {
    assert b[0..] == b;
    assert EntryBytes(Fat16, b, 2) == [0xFF, 0xFF];
  }

  lemma SmallContents(b: seq<Byte>)
    requires |b| == 64
    ensures DataArea(32, 32, 1).Fits(b) && Contents(DataArea(32, 32, 1), b, [2]) == b[32..]
  {
    var g := DataArea(32, 32, 1);
    StartIsProduct(1, 32);
    forall p | 0 <= p < 32
      ensures Contents(g, b, [2])[p] == b[32..][p]
    {
      FirstUnit(p, 32);
      ContentsAt(g, b, [2], p);
    }
  }

  /** The place of the end mark is not on that disk. */
  lemma FarAway(b: seq<Byte>)
    requires |b| == 64 && b[4] == b[5] == 0xFF
    ensures DevicesOk(SmallDisk(b)) && SMALL.ClusterAddress(LAST % UINT32) >= 64
    ensures forall far, n :: far >= 64 ==> !Serves(SmallDisk(b), 0, far, n)
  {
    SmallVolume(b);
    var devices := SmallDisk(b);
    StartMono(1, (LAST % UINT32 - MIN_CLUSTER) % UINT32, 32);
    StartIsProduct(1, 32);
    StartIsProduct(1, 64);
    forall far, n | far >= 64
      ensures !Serves(devices, 0, far, n)
    {
      LocateUp(64, far, 64);
      Locate(64, 64, 1);
      assert Touched(far, n, 64, Unit(far, 64)) && !Readable(devices, 0, Unit(far, 64));
    }
  }

  /** A directory that fills its cluster: the entry is read, and asking for the next one, the
      driver reads at the place of the end mark and fails. */
  method ReadFullDirectory(b: seq<Byte>) returns (first: Status, entry: seq<Byte>, second: Status)
    requires |b| == 64 && b[4] == b[5] == 0xFF
    ensures first == Success && entry == b[32..] && second == DeviceError
  {
    hide DeviceBytes, Start, Unit, Rest, Volume.Table, Volume.On, Straight, Contents, Serves, IsPath, Stop, Cycles;
    hide Trusted;
    SmallVolume(b);
    StartIsProduct(1, 32);
    FirstUnit(0, 32);
    ghost var ch: seq<nat> := [2];
    assert |ch| == 1 && ch[0] == 2 && Start(|ch|, 32) == 32;
    var reader := new Reader(SmallDisk(b));
    var dir := new File(reader, SMALL, false, true, 0, 2);
    assert dir.vol.clusterSize == 32 && Unit(dir.currentPos + 0, dir.vol.clusterSize) == 0;
    assert dir.Has(ch) && dir.At(ch) && !Functional(dir.currentCluster);
    var positioned := dir.SetFilePos(0, ch);
    assert positioned == Success && dir.Positioned(ch);
    assert dir.Left(ch) == 32;
    first, entry := dir.ReadFile(32, ch);
    assert first == Success && dir.Spent(ch) && dir.straight > 0;
    assert entry == Stretch(SMALL.ChainBytes(SmallDisk(b), ch), 0, 32);
    assert Stretch(b[32..], 0, 32) == b[32..];
    dir.NotBoth(ch);
    assert dir.Left(ch) == 0 && dir.AfterChain(ch) == LAST % UINT32;
    FarAway(b);
    var more;
    second, more := dir.ReadFile(32, ch);
    assert dir.FarPos(ch) >= 64;
    assert second != Success;
  }
}

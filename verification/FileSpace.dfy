/** FAT entries, free-space bookkeeping and the cluster chains of open files.  The FAT
    is the flat byte sequence that the disk cache provides. */
module FileSpace {
  import opened Bytes
  import opened FatTypes
  import opened FatTable
  import opened Clusters
  import opened FileChains
  import opened FileData

  /** FAT_FREE_INFO: number of free clusters and where to look for one. */
  datatype FreeInfo = FreeInfo(clusterCount: nat, nextCluster: nat)

  /** How FatSetFatEntry keeps the free info when entry `index` goes from `original` to `value`. */
  function FreeInfoAfter(info: FreeInfo, index: nat, original: nat, value: nat): FreeInfo {
    if value == FREE && original != FREE then
      FreeInfo((info.clusterCount + 1) % UINT32, if index < info.nextCluster then index else info.nextCluster)
    else if value != FREE && original == FREE then
      info.(clusterCount := if info.clusterCount != 0 then info.clusterCount - 1 else 0)
    else info
  }

  /** A cluster freed is one free cluster more and bounds the hint; one that is taken is one
      less, but a count of 0 stays. */
  lemma FreeInfoRules(info: FreeInfo, index: nat, was: nat, value: nat)
    ensures var FreeInfo(count, hint) := FreeInfoAfter(info, index, was, value);
      && (was != 0 && value == 0 ==> count == (info.clusterCount + 1) % 0x1_0000_0000)
      && (was != 0 && value == 0 ==> hint == if index < info.nextCluster then index else info.nextCluster)
      && (was == 0 && value != 0 ==> count == if info.clusterCount > 0 then info.clusterCount - 1 else 0)
      && ((was == 0) == (value == 0) ==> count == info.clusterCount)
      && (was == 0 || value != 0 ==> hint == info.nextCluster)
  {
  }

  /** The space fields of FAT_OFILE as one value. */
  datatype Space = Space(fileSize: nat, fileCluster: nat, fileCurrentCluster: nat, fileLastCluster: nat, dirty: bool)

  /** FAT_OFILE, as far as its data is concerned. */
  class OFile {
    var fileSize: nat
    var fileCluster: nat
    var fileCurrentCluster: nat
    var fileLastCluster: nat
    var dirty: bool
    var archive: bool
    var error: Status
    const isFixedRootDir: bool
    var position: nat
    var posDisk: nat
    var posRem: nat

    constructor (fileSize: nat, fileCluster: nat, isFixedRootDir: bool)
      ensures State() == Space(fileSize, fileCluster, fileCluster, 0, false)
      ensures position == 0 && this.isFixedRootDir == isFixedRootDir && error == Success
    {
      this.fileSize := fileSize;
      this.fileCluster := fileCluster;
      fileCurrentCluster := fileCluster;
      fileLastCluster := 0;
      dirty, archive, error := false, false, Success;
      this.isFixedRootDir := isFixedRootDir;
      position, posDisk, posRem := 0, 0, 0;
    }

    ghost function State(): (s: Space)
      reads this
      ensures s.fileSize == fileSize && s.fileCluster == fileCluster && s.fileCurrentCluster == fileCurrentCluster
      ensures s.fileLastCluster == fileLastCluster && s.dirty == dirty
    {
      Space(fileSize, fileCluster, fileCurrentCluster, fileLastCluster, dirty)
    }
  }

  /** The file after FatShrinkEof to `n` clusters. */
  ghost function ShrunkState(s: Space, ch: seq<nat>, n: nat): Space {
    if n > |ch| || (n == 0 && s.fileCluster == FREE) then s
    else
      var first := if n == 0 then FREE else s.fileCluster;
      s.(fileCluster := first, fileCurrentCluster := first, fileLastCluster := Tail(ch[..n]), dirty := true)
  }

  /** The file after `added` was linked behind its clusters `ch`. */
  ghost function ExtendedState(s: Space, ch: seq<nat>, added: seq<nat>): Space {
    var last := Tail(Joined(ch, added));
    if ch == [] && added != [] then s.(fileCluster := added[0], fileCurrentCluster := added[0], fileLastCluster := last)
    else s.(fileLastCluster := last)
  }

  /** A grow from `n0` to `n1` clusters that was not refused.  Out of space, the chain got as
      long as it could and was then cut back to `n0` clusters, if it has so many. */
  ghost predicate Grew(t: seq<nat>, t': seq<nat>, s: Space, s': Space, ch: seq<nat>, added: seq<nat>,
                       n0: nat, n1: nat, newSize: nat, stuck: bool, status: Status)
    requires forall k :: 0 <= k < |ch| ==> InRange(t, ch[k])
  {
    var cur, full := Joined(ch, added), stuck || FreeCount(t) < n1 - n0 + Extra(t, ch, added);
    && AddedFree(t, added) && status == (if full then VolumeFull else Success)
    && Laid(t, t', cur, if full && n0 <= |cur| then n0 else |cur|)
    && (full ==>
          && s' == ShrunkState(ExtendedState(s, ch, added), cur, n0)
          && (added == [] <==> stuck || FreeCount(t) == 0) && (!stuck ==> Taken(t, ch, added) == FreeCount(t))
          && (SameFree(t, t') <==>
                n0 == InUse(t, ch) || (n0 > |ch| == InUse(t, ch) && (stuck || FreeCount(t) == 0))))
    && (!full ==>
          && s' == ExtendedState(s, ch, added).(fileSize := newSize, dirty := true)
          && |added| == n1 - n0 && FreeCount(t') == FreeCount(t) - Taken(t, ch, added))
  }

  lemma GrewAll(t: seq<nat>, t': seq<nat>, s: Space, ch: seq<nat>, added: seq<nat>, n0: nat, n1: nat, newSize: nat,
      stuck: bool)
    requires n0 < n1 && Extension(t, t', ch, added, n1 - n0, false, stuck)
    ensures var s' := ExtendedState(s, ch, added).(fileSize := newSize, dirty := true);
      Grew(t, t', s, s', ch, added, n0, n1, newSize, stuck, Success)
  {
    hide CountFree, Laid, Joined, Taken, SameFree, InUse;
  }

  lemma GrewFull(t: seq<nat>, t1: seq<nat>, t': seq<nat>, s: Space, first: nat, ch: seq<nat>, added: seq<nat>,
                 n0: nat, n1: nat, newSize: nat, stuck: bool)
    requires n0 < n1 && Extension(t, t1, ch, added, n1 - n0, true, stuck) && |t| <= SPECIAL
    requires IsPath(t, first, ch) && !InRange(t, Stop(t, first, ch)) && (ch == [] ==> SaneValue(t, first))
    requires forall k :: 0 <= k < |Joined(ch, added)| ==> InRange(t1, Joined(ch, added)[k])
    requires t' == if n0 <= |Joined(ch, added)| then Cut(t1, Joined(ch, added), n0) else t1
    ensures var s' := ShrunkState(ExtendedState(s, ch, added), Joined(ch, added), n0);
      Grew(t, t', s, s', ch, added, n0, n1, newSize, stuck, VolumeFull)
  {
    hide CountFree, Laid, Joined, Taken, SameFree, InUse, IsPath, Cut;
    ExtensionShrinks(t, t1, first, ch, added, n1 - n0, stuck, n0);
  }

  /** The FAT side of FAT_VOLUME. */
  class FatVolume {
    const fatType: FatType
    const maxCluster: nat
    const clusterSize: nat
    const firstClusterPos: nat
    var fat: seq<Byte>
    var data: seq<Byte>
    var fatEntryPos: nat
    var fatEntryBuffer: seq<Byte>
    var info: FreeInfo
    var freeInfoValid: bool
    var fatDirty: bool
    const dirtyValue: seq<Byte>
    var diskError: bool
    ghost var table: seq<nat>

    constructor (fatType: FatType, maxCluster: nat, clusterSize: nat, firstClusterPos: nat, fat: seq<Byte>,
        data: seq<Byte>,
                 dirtyValue: seq<Byte>, info: FreeInfo, freeInfoValid: bool)
      requires maxCluster + 2 <= Range(fatType) - 9 && Fits(fatType, fat, maxCluster + 2) && maxCluster > 0
      requires |dirtyValue| == EntrySize(fatType) && clusterSize > 0
      requires DataArea(firstClusterPos, clusterSize, maxCluster).Fits(data)
      requires info.clusterCount < UINT32 && MIN_CLUSTER <= info.nextCluster <= maxCluster + 1
      ensures Valid() && this.fat == fat && this.info == info && this.freeInfoValid == freeInfoValid && !fatDirty
        && !diskError
      ensures this.fatType == fatType && this.maxCluster == maxCluster && this.clusterSize == clusterSize
      ensures this.firstClusterPos == firstClusterPos && this.data == data
    {
      this.fatType := fatType;
      this.maxCluster := maxCluster;
      this.clusterSize := clusterSize;
      this.firstClusterPos := firstClusterPos;
      this.fat := fat;
      this.data := data;
      this.dirtyValue := dirtyValue;
      this.info := info;
      this.freeInfoValid := freeInfoValid;
      fatEntryPos := 0;
      fatEntryBuffer := [0, 0, 0, 0];
      fatDirty := false;
      diskError := false;
      table := ClusterTable(fatType, fat, maxCluster + 2);
    }

    ghost predicate Valid()
      reads this
    {
      && maxCluster > 0 && clusterSize > 0
      && maxCluster + 2 <= Range(fatType) - 9
      && |dirtyValue| == EntrySize(fatType)
      && |fatEntryBuffer| == 4 && fatEntryPos + EntrySize(fatType) <= |fat|
      && info.clusterCount < UINT32 && MIN_CLUSTER <= info.nextCluster < UINT32
      && |table| == maxCluster + 2
      && Packed()
      && Area().Fits(data)
    }

    /** The data area, positions counted from the root directory on. */
    function Area(): DataArea {
      DataArea(firstClusterPos, clusterSize, maxCluster)
    }

    /** `table` is what the packed bytes hold. */
    ghost predicate Packed()
      reads this`fat, this`table
    {
      Fits(fatType, fat, maxCluster + 2) && table == ClusterTable(fatType, fat, maxCluster + 2)
    }

    /** FatLoadFatEntry. */
    method LoadFatEntry(index: nat)
      requires Valid()
      modifies this`fatEntryPos, this`fatEntryBuffer
      ensures Valid()
      ensures index > maxCluster + 1 ==> fatEntryBuffer == [0xFF, 0xFF, 0xFF, 0xFF] && fatEntryPos == old(fatEntryPos)
      ensures index <= maxCluster + 1 ==>
        && Fits(fatType, fat, index + 1) && fatEntryPos == EntryPos(fatType, index)
        && fatEntryBuffer[..EntrySize(fatType)] == EntryBytes(fatType, fat, index)
    {
      if index > maxCluster + 1 {
        fatEntryBuffer := [0xFF, 0xFF, 0xFF, 0xFF];
        return;
      }
      fatEntryPos := EntryPos(fatType, index);
      fatEntryBuffer := Splice(fatEntryBuffer, 0, Stretch(fat, fatEntryPos, EntrySize(fatType)));
    }

    /** FatGetFatEntry: out-of-range indexes read as the end of a chain. */
    method GetFatEntry(index: nat) returns (value: nat)
      requires Valid()
      modifies this`fatEntryPos, this`fatEntryBuffer
      ensures Valid()
      ensures index > maxCluster + 1 ==> value == MAX_UINTN && fatEntryPos == old(fatEntryPos)
      ensures InRange(table, index) ==> value == table[index]
      ensures index <= maxCluster + 1 ==>
        fatEntryPos == EntryPos(fatType, index) && Fits(fatType, fat, index + 1) && value == Entry(fatType, fat, index)
    {
      hide EntryPos, Decode, Encode;
      LoadFatEntry(index);
      if index > maxCluster + 1 {
        return MAX_UINTN;
      }
      value := Decode(fatType, index, fatEntryBuffer);
      FrontOfBuffer(fatType, index, EntryBytes(fatType, fat, index), fatEntryBuffer, 0);
    }

    /** FatSetFatEntry.  An index beyond the last cluster is not refused: the entry that was
        loaded last is overwritten instead. */
    method SetFatEntry(index: nat, value: nat) returns (status: Status)
      requires Valid()
      modifies this`fat, this`fatEntryPos, this`fatEntryBuffer, this`info, this`fatDirty, this`table
      ensures Valid()
      ensures index < MIN_CLUSTER ==>
        status == VolumeCorrupted && table == old(table) && fat == old(fat) && info == old(info)
      ensures index >= MIN_CLUSTER ==>
        && status == Success && fatDirty == (old(fatDirty) || fatType != Fat12)
        && info == FreeInfoAfter(old(info), index, if InRange(old(table), index) then old(table)[index]
          else MAX_UINTN, value)
        && EntrySize(fatType) + |dirtyValue| <= |old(fat)|
      ensures InRange(old(table), index) ==>
        && fat == Stored(fatType, Marked(fatType, old(fat), old(fatDirty), dirtyValue), index, value)
        && table == old(table)[index := Norm(fatType, value)]
        && fatEntryPos == EntryPos(fatType, index)
      ensures InRange(old(table), index) && !old(fatDirty) ==>
        && (fatType == Fat16 ==> fat[2..4] == dirtyValue)
        && (fatType == Fat32 ==> fat[4..8] == dirtyValue)
      ensures index > maxCluster + 1 ==>
        && fatEntryPos == old(fatEntryPos)
        && fat == Splice(Marked(fatType, old(fat), old(fatDirty), dirtyValue), old(fatEntryPos),
                         Encode(fatType, index, [0xFF, 0xFF, 0xFF, 0xFF], value))
    {
      hide EntryPos, Encode, ClusterTable, Norm, FreeInfoAfter, Stored;
      if index < MIN_CLUSTER {
        return VolumeCorrupted;
      }
      var originalVal := GetFatEntry(index);
      info := UpdateFreeInfo(index, originalVal, value);
      LoadFatEntry(index);
      ghost var loaded := fatEntryBuffer;
      var entry := Encode(fatType, index, fatEntryBuffer, value);
      fatEntryBuffer := Splice(fatEntryBuffer, 0, entry);
      FrontOfSplice(loaded, entry);
      if index <= maxCluster + 1 {
        WriteEntry(fatType, fat, fatDirty, dirtyValue, maxCluster + 2, index, loaded, value);
      }
      MarkFits(fatType, fat, maxCluster + 2);
      ghost var was := table;
      fat := Marked(fatType, fat, fatDirty, dirtyValue);
      fatDirty := fatDirty || fatType != Fat12;
      fat := Splice(fat, fatEntryPos, Stretch(fatEntryBuffer, 0, EntrySize(fatType)));
      table := ClusterTable(fatType, fat, maxCluster + 2);
      return Success;
    }

    /** The bookkeeping at the head of FatSetFatEntry. */
    function UpdateFreeInfo(index: nat, original: nat, value: nat): (r: FreeInfo)
      requires info.clusterCount < UINT32 && MIN_CLUSTER <= info.nextCluster < UINT32 && index >= MIN_CLUSTER
      reads this`info
      ensures r == FreeInfoAfter(info, index, original, value)
      ensures r.clusterCount < UINT32 && r.nextCluster < UINT32 && MIN_CLUSTER <= r.nextCluster
    {
      FreeInfoAfter(info, index, original, value)
    }

    /** The free count, while it counts as valid, is the number of free clusters. */
    ghost predicate Exact()
      reads this
    {
      freeInfoValid ==> info.clusterCount == FreeCount(table)
    }

    /** What FatSetFatEntry does for the callers below: the entry of a cluster is set and
        an exact free count stays exact. */
    method SetClusterEntry(index: nat, value: nat)
      requires Valid() && InRange(table, index)
      requires value == FREE || value == LAST || InRange(table, value)
      modifies this`fat, this`fatEntryPos, this`fatEntryBuffer, this`info, this`fatDirty, this`table
      ensures Valid() && table == old(table)[index := value]
      ensures old(Exact()) ==> Exact()
      ensures fatEntryPos == EntryPos(fatType, index)
    {
      hide Encode, Marked, Stored, Norm, Packed, EntryPos, CountFree;
      SetKeepsExact(index, value);
      var _ := SetFatEntry(index, value);
    }

    /** FatComputeFreeInfo: count the free clusters and note the lowest, unless known. */
    method ComputeFreeInfo()
      requires Valid()
      modifies this`fatEntryPos, this`fatEntryBuffer, this`info, this`freeInfoValid
      ensures Valid() && freeInfoValid
      ensures old(freeInfoValid) ==> info == old(info)
      ensures !old(freeInfoValid) && diskError ==> info == old(info).(clusterCount := 0)
      ensures !old(freeInfoValid) && !diskError ==> info.clusterCount == FreeCount(table)
      ensures !old(freeInfoValid) && !diskError ==>
        if FreeCount(table) == 0 then info.nextCluster == old(info).nextCluster
        else
          && InRange(table, info.nextCluster) && table[info.nextCluster] == FREE
          && forall c :: MIN_CLUSTER <= c < info.nextCluster ==> table[c] != FREE
    {
      hide Packed, EntryPos;
      if !freeInfoValid {
        freeInfoValid := true;
        info := info.(clusterCount := 0);
        ghost var total := FreeCount(table);
        CountFreeBound(table, |table|);
        var index := maxCluster + 1;
        while index >= MIN_CLUSTER
          invariant 1 <= index <= maxCluster + 1 && Valid() && freeInfoValid
          invariant info.clusterCount + CountFree(table, index + 1) == total
          invariant diskError ==> index == maxCluster + 1 && info == old(info).(clusterCount := 0)
          invariant if info.clusterCount == 0 then info.nextCluster == old(info).nextCluster
                    else InRange(table, info.nextCluster) && table[info.nextCluster] == FREE
          invariant info.clusterCount != 0 ==>
            index < info.nextCluster && forall c :: index < c < info.nextCluster ==> table[c] != FREE
          invariant info.clusterCount == 0 ==> CountFree(table, index + 1) == total
        {
          if diskError {
            break;
          }
          var value := GetFatEntry(index);
          if value == FREE {
            info := FreeInfo(info.clusterCount + 1, index);
          }
          index := index - 1;
        }
      }
    }

    /** FatAllocateCluster: a free cluster, or the end mark when there is none. */
    method AllocateCluster() returns (cluster: nat)
      requires Valid() && Exact()
      modifies this`fatEntryPos, this`fatEntryBuffer, this`info, this`freeInfoValid
      ensures Valid() && Exact()
      ensures cluster == LAST <==> diskError || FreeCount(table) == 0
      ensures cluster != LAST ==> InRange(table, cluster) && table[cluster] == FREE && info.nextCluster == cluster + 1
    {
      hide Packed, EntryPos;
      CountFreeZero(table, |table|);
      CountFreeBound(table, |table|);
      if diskError {
        return LAST;
      }
      while true
        invariant Valid() && Exact()
        decreases maxCluster + 2 - info.nextCluster
      {
        if info.nextCluster > maxCluster + 1 {
          if freeInfoValid && 0 < info.clusterCount < UINT32 / 2 {
            freeInfoValid := false;
          }
          ComputeFreeInfo();
          if info.nextCluster > maxCluster + 1 {
            return LAST;
          }
        }
        var value := GetFatEntry(info.nextCluster);
        if value == FREE {
          break;
        }
        info := info.(nextCluster := info.nextCluster + 1);
      }
      cluster := info.nextCluster;
      info := info.(nextCluster := info.nextCluster + 1);
    }

    /** FatFreeClusters.  It does what the walk says, and if that leaves the volume through
        a number beyond the last entry, then clears the entry loaded last once more: `walked`
        is the FAT before that.  A walk that meets a 1 need not end. */
    method FreeClusters(first: nat) returns (status: Status, ghost walked: seq<Byte>)
      requires Valid() && FreeWalk(table, first).1 != 1
      modifies this`fat, this`fatEntryPos, this`fatEntryBuffer, this`info, this`fatDirty, this`table
      ensures Valid()
      ensures var (freed, end) := FreeWalk(old(table), first);
        && (status == VolumeCorrupted <==> end == FREE || end == SPECIAL)
        && (status == Success <==> end != FREE && end != SPECIAL)
        && Fits(fatType, walked, maxCluster + 2) && ClusterTable(fatType, walked, maxCluster + 2) == freed
        && (end == FREE || end >= SPECIAL ==> fat == walked && table == freed && (old(Exact()) ==> Exact()))
        && (first == FREE || first >= SPECIAL ==> fat == old(fat) && fatEntryPos == old(fatEntryPos))
        && (MIN_CLUSTER <= end < SPECIAL ==>
              && fatEntryPos + EntrySize(fatType) <= |walked| && EntrySize(fatType) + |dirtyValue| <= |walked|
              && (!InRange(old(table), first) ==> fatEntryPos == old(fatEntryPos) && walked == old(fat))
              && (InRange(old(table), first) ==> exists last ::
                InRange(table, last) && fatEntryPos == EntryPos(fatType, last))
              && exists dirty :: fat == PutBeyond(walked, dirty, fatEntryPos, end, FREE))
        && (MIN_CLUSTER <= end < SPECIAL && InRange(old(table), first) && fatType != Fat12 ==>
              && table == freed
              && (old(Exact()) && freeInfoValid ==> info.clusterCount == (FreeCount(table) + 1) % UINT32))
    {
      hide Encode, Marked, Stored, Norm, Packed, EntryPos, FreeWalk, CountFree, ClusterTable, Fits;
      var cluster: nat := first;
      ghost var lost := false;
      ghost var last: nat := 0;
      walked := fat;
      FreeWalkStep(table, cluster);
      PackedFacts();
      while !EndOfChain(cluster)
        invariant Valid() && (lost ==> EndOfChain(cluster))
        invariant Fits(fatType, walked, maxCluster + 2)
        invariant lost ==>
          && var (freed, end) := FreeWalk(old(table), first);
          && MIN_CLUSTER <= end < SPECIAL && ClusterTable(fatType, walked, maxCluster + 2) == freed
          && fatEntryPos + EntrySize(fatType) <= |walked| && EntrySize(fatType) + |dirtyValue| <= |walked|
          && exists dirty :: fat == PutBeyond(walked, dirty, fatEntryPos, end, FREE)
        invariant !lost ==>
          && FreeWalk(table, cluster) == FreeWalk(old(table), first)
          && walked == fat && ClusterTable(fatType, walked, maxCluster + 2) == table
          && (old(Exact()) ==> Exact())
        invariant if InRange(old(table), first) then
            || (cluster == first && table == old(table) && !lost)
            || (InRange(table, last) && fatEntryPos == EntryPos(fatType, last) && (!lost ==> table[last] == FREE))
          else
            fatEntryPos == old(fatEntryPos) && walked == old(fat) && (!lost ==> cluster == first)
        invariant lost && InRange(old(table), first) && fatType != Fat12 ==>
          && table == FreeWalk(old(table), first).0
          && (old(Exact()) && freeInfoValid ==> info.clusterCount == (FreeCount(table) + 1) % UINT32)
        decreases Remaining(table, cluster)
      {
        FreeWalkStep(table, cluster);
        if cluster == FREE || cluster >= SPECIAL {
          return VolumeCorrupted, walked;
        }
        if InRange(table, cluster) {
          SetKeepsExact(cluster, FREE);
        }
        lost := !InRange(table, cluster);
        var lastCluster := cluster;
        ghost var dirty := fatDirty;
        cluster := GetFatEntry(cluster);
        var _ := SetFatEntry(lastCluster, FREE);
        PackedFacts();
        if lost {
          assert fat == PutBeyond(walked, dirty, fatEntryPos, lastCluster, FREE);
          if InRange(old(table), first) && fatType != Fat12 {
            ClearedTwice(walked, dirty, last, lastCluster);
          }
        } else {
          walked := fat;
          last := lastCluster;
        }
      }
      FreeWalkStep(table, cluster);
      return Success, walked;
    }

    lemma PackedFacts()
      requires Valid()
      ensures Fits(fatType, fat, maxCluster + 2) && table == ClusterTable(fatType, fat, maxCluster + 2)
    {
    }

    /** The FAT after the entry at `pos` was taken for that of `cluster`, which is beyond the
        last one, and set to `value`. */
    ghost function PutBeyond(fat: seq<Byte>, dirty: bool, pos: nat, cluster: nat, value: nat): seq<Byte>
      requires |dirtyValue| == EntrySize(fatType) && EntrySize(fatType) + |dirtyValue| <= |fat|
        && pos + EntrySize(fatType) <= |fat|
    {
      Splice(Marked(fatType, fat, dirty, dirtyValue), pos, Encode(fatType, cluster, [0xFF, 0xFF, 0xFF, 0xFF], value))
    }

    /** On FAT16 and FAT32 the free entry that is cleared once more stays free, and no other
        one changes. */
    lemma ClearedTwice(walked: seq<Byte>, dirty: bool, last: nat, beyond: nat)
      requires |dirtyValue| == EntrySize(fatType) && fatType != Fat12 && MIN_CLUSTER <= last <= maxCluster + 1
      requires Fits(fatType, walked, maxCluster + 2) && ClusterTable(fatType, walked, maxCluster + 2)[last] == FREE
      ensures EntrySize(fatType) + |dirtyValue| <= |walked| && EntryPos(fatType, last) + EntrySize(fatType) <= |walked|
      ensures var fat' := PutBeyond(walked, dirty, EntryPos(fatType, last), beyond, FREE);
        Fits(fatType, fat', maxCluster + 2)
        && ClusterTable(fatType, fat', maxCluster + 2) == ClusterTable(fatType, walked, maxCluster + 2)
    {
      hide Encode, EntryPos, Marked, ClusterTable, Fits;
      TableAfterMark(fatType, walked, dirty, dirtyValue, maxCluster + 2);
      var marked := Marked(fatType, walked, dirty, dirtyValue);
      FitsBelow(fatType, walked, maxCluster + 2, last);
      MarkFits(fatType, walked, maxCluster + 2);
      BeyondTable(fatType, marked, maxCluster + 2, last, beyond, FREE);
      NormOfClusters(fatType, FREE);
    }

    /** Setting the entry of a cluster keeps an exact count exact. */
    lemma SetKeepsExact(index: nat, value: nat)
      requires Valid() && InRange(table, index)
      requires value == FREE || value == LAST || InRange(table, value)
      ensures Norm(fatType, value) == value
      ensures Exact() && freeInfoValid ==>
        FreeInfoAfter(info, index, table[index], value).clusterCount == FreeCount(table[index := value])
    {
      hide CountFree;
      NormOfClusters(fatType, value);
      CountFreeUpdate(table, index, value, |table|);
      CountFreeBound(table, |table|);
      CountFreeBound(table[index := value], |table|);
    }

    /** FatSizeToClusters. */
    function SizeToClusters(size: nat): nat
      requires clusterSize > 0
    {
      ClustersOf(size, clusterSize)
    }

    /** The walk of FatShrinkEof over the first `count` clusters.  A number beyond the last
        entry counts as a cluster, the last one. */
    method WalkClusters(first: nat, count: nat) returns (ok: bool, lastCluster: nat, cluster: nat)
      requires Valid() && NoOneMet(table, first) && count > 0
      modifies this`fatEntryPos, this`fatEntryBuffer
      ensures Valid() && ok == (InRange(table, Follow(table, first, count - 1)) || EndsBeyond(table, first, count))
      ensures ok ==> lastCluster == Follow(table, first, count - 1)
      ensures ok ==> cluster == if InRange(table, lastCluster) then Follow(table, first, count) else LAST
      ensures EndsBeyond(table, first, count) ==>
        fatEntryPos == if count == 1 then old(fatEntryPos) else EntryPos(fatType, Follow(table, first, count - 2))
    {
      hide Packed, EntryPos, NoOneMet;
      cluster, lastCluster := first, FREE;
      var curSize := 0;
      while curSize < count
        invariant 0 <= curSize <= count && Valid()
        invariant curSize == 0 ==> cluster == first && fatEntryPos == old(fatEntryPos)
        invariant curSize > 0 ==>
          && lastCluster == Follow(table, first, curSize - 1)
            && (InRange(table, lastCluster) || Beyond(table, lastCluster))
          && cluster == if InRange(table, lastCluster) then Follow(table, first, curSize) else LAST
        invariant curSize > 0 && InRange(table, lastCluster) ==> fatEntryPos == EntryPos(fatType, lastCluster)
        invariant curSize > 0 && Beyond(table, lastCluster) ==>
          && (curSize == 1 || InRange(table, Follow(table, first, curSize - 2)))
          && fatEntryPos == if curSize == 1 then old(fatEntryPos)
            else EntryPos(fatType, Follow(table, first, curSize - 2))
      {
        NotOne(table, first, curSize);
        if cluster == FREE || cluster >= SPECIAL {
          StoppedBefore(table, first, curSize, count);
          return false, lastCluster, cluster;
        }
        lastCluster := cluster;
        cluster := GetFatEntry(cluster);
        curSize := curSize + 1;
      }
      ok := true;
    }

    /** The end mark of FatShrinkEof. */
    method MarkLast(lastCluster: nat, ghost first: nat, ghost n: nat)
      requires Valid() && NoOneMet(table, first) && (InRange(table, lastCluster) || Beyond(table, lastCluster)) && n > 0
      modifies this`fat, this`fatEntryPos, this`fatEntryBuffer, this`info, this`fatDirty, this`table
      ensures Valid()
      ensures InRange(old(table), lastCluster) ==>
        && table == old(table)[lastCluster := LAST] && (old(Exact()) ==> Exact())
        && var end := FreeWalk(table, Follow(old(table), first, n)).1;
           end != 1 && (SaneWalk(old(table), first) ==> end == FREE || end >= SPECIAL)
      ensures Beyond(old(table), lastCluster) ==>
        && fatEntryPos == old(fatEntryPos) && fatEntryPos + EntrySize(fatType) <= |old(fat)|
        && EntrySize(fatType) + |dirtyValue| <= |old(fat)|
        && fat == PutBeyond(old(fat), old(fatDirty), fatEntryPos, lastCluster, LAST)
    {
      hide Packed, FreeWalk, CountFree, SaneWalk, NoOneMet, Follow, EntryPos, ClusterTable, Encode, Marked;
      if lastCluster > maxCluster + 1 {
        var _ := SetFatEntry(lastCluster, LAST);
      } else {
        CutWalk(table, lastCluster, first, n);
        SetClusterEntry(lastCluster, LAST);
      }
    }

    /** FatShrinkEof: keep as many clusters as the file size asks for, free what follows.  When
        the last one kept is a number beyond the last entry, the end mark goes into the entry
        loaded last; when the rest of the chain ends at such a number, `walked` is the FAT
        before the entry loaded last is cleared for it. */
    method ShrinkEof(f: OFile) returns (status: Status, ghost walked: seq<Byte>)
      requires Valid() && NoOneMet(table, f.fileCluster)
      modifies this`fat, this`fatEntryPos, this`fatEntryBuffer, this`info, this`fatDirty, this`table
      modifies f`fileCluster, f`fileCurrentCluster, f`fileLastCluster, f`dirty
      ensures Valid() && (old(Exact()) && SaneWalk(old(table), old(f.fileCluster)) ==> Exact())
      ensures var t, n, first := old(table), SizeToClusters(f.fileSize), old(f.fileCluster);
        if n == 0 && first == FREE then
          status == Success && fat == old(fat) && f.State() == old(f.State())
        else if n > 0 && !InRange(t, Follow(t, first, n - 1)) && !EndsBeyond(t, first, n) then
          status == VolumeCorrupted && fat == old(fat) && table == t && f.State() == old(f.State())
        else
          var last := if n == 0 then FREE else Follow(t, first, n - 1);
          && f.State() == old(f.State()).(fileCluster := if n == 0 then FREE else first, fileLastCluster := last,
               fileCurrentCluster := if n == 0 then FREE else first, dirty := true)
          && if n > 0 && EndsBeyond(t, first, n) then
               && status == Success
               && fatEntryPos == (if n == 1 then old(fatEntryPos) else EntryPos(fatType, Follow(t, first, n - 2)))
               && fat == PutBeyond(old(fat), old(fatDirty), fatEntryPos, last, LAST)
             else
               var (freed, end) := FreeWalk(if n == 0 then t else t[last := LAST], Follow(t, first, n));
               && status == (if end == FREE || end == SPECIAL then VolumeCorrupted else Success)
               && (!Beyond(t, end) ==> table == freed)
               && (Beyond(t, end) ==>
                     && Fits(fatType, walked, maxCluster + 2) && ClusterTable(fatType, walked, maxCluster + 2) == freed
                     && fatEntryPos + EntrySize(fatType) <= |walked| && EntrySize(fatType) + |dirtyValue| <= |walked|
                     && exists dirty :: fat == PutBeyond(walked, dirty, fatEntryPos, end, FREE))
    {
      hide Packed, FreeWalk, CountFree, Start, Unit, Rest, SaneWalk, NoOneMet, Follow, EntryPos, PutBeyond;
      hide ClusterTable;
      hide SizeToClusters, EndsBeyond;
      var newSize := SizeToClusters(f.fileSize);
      var cluster, lastCluster := f.fileCluster, FREE;
      walked := fat;
      NotOne(table, f.fileCluster, 0);
      if newSize != 0 {
        var ok;
        EndsBeyondIs(table, cluster, newSize);
        ok, lastCluster, cluster := WalkClusters(cluster, newSize);
        if !ok {
          return VolumeCorrupted, walked;
        }
        MarkLast(lastCluster, f.fileCluster, newSize);
        FreeWalkStep(table, cluster);
      } else {
        if cluster == FREE {
          return Success, walked;
        }
        CutWalk(table, lastCluster, f.fileCluster, 0);
        f.fileCluster := FREE;
      }
      f.fileCurrentCluster := f.fileCluster;
      f.fileLastCluster := lastCluster;
      f.dirty := true;
      status, walked := FreeClusters(cluster);
    }

    /** The chain walk of FatGrowEof: find the last cluster, and refuse a chain that is
        broken or not as long as the file size says. */
    method FindLastCluster(f: OFile, curSize: nat, ghost ch: seq<nat>) returns (ok: bool)
      requires Valid() && IsPath(table, f.fileCluster, ch) && !InRange(table, Stop(table, f.fileCluster, ch))
      requires f.fileLastCluster == FREE
      modifies this`fatEntryPos, this`fatEntryBuffer, f`fileLastCluster
      ensures Valid() && ok == (EndOfChain(Stop(table, f.fileCluster, ch)) && |ch| == curSize)
      ensures f.fileLastCluster == Tail(ch)
    {
      hide Packed, EntryPos;
      var cluster, clusterCount: nat := f.fileCluster, 0;
      while !EndOfChain(cluster)
        invariant Valid() && clusterCount <= |ch|
        invariant cluster == if clusterCount < |ch| then ch[clusterCount] else Stop(table, f.fileCluster, ch)
        invariant f.fileLastCluster == Tail(ch[..clusterCount])
        decreases |ch| - clusterCount
      {
        if cluster < MIN_CLUSTER || cluster > maxCluster + 1 {
          assert ch[..clusterCount] == ch;
          return false;
        }
        if clusterCount + 1 < |ch| {
          assert Links(table, ch, clusterCount);
        }
        clusterCount := clusterCount + 1;
        f.fileLastCluster := cluster;
        cluster := GetFatEntry(cluster);
      }
      assert clusterCount == |ch| && ch[..clusterCount] == ch;
      ok := clusterCount == curSize;
    }

    /** The allocation loop of FatGrowEof, on any path at which the walk stops: `added` is
        linked behind it, also when the volume runs full. */
    method ExtendChain(f: OFile, count: nat, ghost ch: seq<nat>) returns (full: bool, ghost added: seq<nat>)
      requires Valid() && Exact() && count > 0
      requires IsPath(table, f.fileCluster, ch) && !InRange(table, Stop(table, f.fileCluster, ch))
        && f.fileLastCluster == Tail(ch)
      modifies this`fat, this`fatEntryPos, this`fatEntryBuffer, this`info, this`freeInfoValid, this`fatDirty, this`table
      modifies f`fileCluster, f`fileCurrentCluster, f`fileLastCluster
      ensures Valid() && Exact()
      ensures Extension(old(table), table, ch, added, count, full, diskError)
      ensures f.State() == ExtendedState(old(f.State()), ch, added)
    {
      hide Packed, EntryPos, CountFree, IsPath, Stop, Laid, Joined, Taken;
      ghost var base, first := table, f.fileCluster;
      added := [];
      full := false;
      LinkNone(base, first, ch);
      var lastCluster, left := f.fileLastCluster, count;
      while left > 0
        invariant 0 <= left && left + |added| == count && Valid() && Exact()
        invariant lastCluster == Tail(Joined(ch, added)) && (diskError ==> added == [])
        invariant Linked(base, table, first, ch, added)
        invariant f.State() == ExtendedState(old(f.State()), ch, added)
      {
        var newCluster := AllocateCluster();
        if EndOfChain(newCluster) {
          OutOfClusters(base, table, first, ch, added, count, diskError);
          if lastCluster != FREE {
            SetClusterEntry(lastCluster, LAST);
            f.fileLastCluster := lastCluster;
          }
          return true, added;
        }
        LinkOne(base, table, first, ch, added, newCluster);
        if lastCluster != 0 {
          SetClusterEntry(lastCluster, newCluster);
        } else {
          f.fileCluster := newCluster;
          f.fileCurrentCluster := newCluster;
        }
        lastCluster := newCluster;
        SetClusterEntry(lastCluster, LAST);
        f.fileLastCluster := lastCluster;
        added := added + [newCluster];
        left := left - 1;
      }
      LinkedAll(base, table, first, ch, added);
    }

    /** FatShrinkEof on a file whose clusters are `ch`, unless they end at a number beyond the
        last entry. */
    method ShrinkChain(f: OFile, ghost ch: seq<nat>) returns (status: Status)
      requires Valid() && IsPath(table, f.fileCluster, ch)
      requires !InRange(table, Stop(table, f.fileCluster, ch)) && Stop(table, f.fileCluster, ch) != 1
      modifies this`fat, this`fatEntryPos, this`fatEntryBuffer, this`info, this`fatDirty, this`table
      modifies f`fileCluster, f`fileCurrentCluster, f`fileLastCluster, f`dirty
      ensures Valid()
      ensures old(SaneValue(table, Stop(table, f.fileCluster, ch))) ==>
        && (old(Exact()) ==> Exact())
        && f.State() == ShrunkState(old(f.State()), ch, SizeToClusters(f.fileSize))
        && var n := SizeToClusters(f.fileSize);
           if n > |ch| then status == VolumeCorrupted && table == old(table)
           else
             && table == Cut(old(table), ch, n)
             && ((if ch == [] then old(f.fileCluster) == FREE
                 else EndOfChain(Stop(old(table), old(f.fileCluster), ch))) ==> status == Success)
    {
      hide Packed, FreeWalk, CountFree, Start, Unit, Rest, Follow, Cut, Freed, SizeToClusters, SaneWalk, NoOneMet;
      hide PutBeyond, ClusterTable, EndsBeyond;
      ShrinkOnPath(table, f.fileCluster, ch, SizeToClusters(f.fileSize));
      FreeWalkStep(table, f.fileCluster);
      PathNoOne(table, f.fileCluster, ch);
      PackedFacts();
      ghost var walked;
      status, walked := ShrinkEof(f);
      PackedFacts();
    }

    /** A grow is refused because the chain is not the one the file size promises. */
    ghost predicate BadChain(f: OFile, ch: seq<nat>)
      requires clusterSize > 0 && IsPath(table, f.fileCluster, ch)
      reads this, f
    {
      && f.fileCluster != FREE && f.fileLastCluster == FREE
      && (!EndOfChain(Stop(table, f.fileCluster, ch)) || |ch| != SizeToClusters(f.fileSize))
    }

    /** The shrink at the end of a grow that ran full. */
    method ShrinkFull(f: OFile, ghost base: seq<nat>, ghost was: Space, ghost ch: seq<nat>, ghost added: seq<nat>,
        ghost n1: nat, ghost newSize: nat)
      requires Valid() && Exact() && |base| <= SPECIAL && SizeToClusters(f.fileSize) < n1
      requires IsPath(base, was.fileCluster, ch) && !InRange(base, Stop(base, was.fileCluster, ch))
      requires ch == [] ==> SaneValue(base, was.fileCluster)
      requires Extension(base, table, ch, added, n1 - SizeToClusters(f.fileSize), true, diskError)
      requires f.State() == ExtendedState(was, ch, added)
      modifies this`fat, this`fatEntryPos, this`fatEntryBuffer, this`info, this`fatDirty, this`table
      modifies f`fileCluster, f`fileCurrentCluster, f`fileLastCluster, f`dirty
      ensures Valid() && Exact()
      ensures Grew(base, table, was, f.State(), ch, added, SizeToClusters(f.fileSize), n1, newSize, diskError,
        VolumeFull)
    {
      hide Packed, CountFree, Start, Unit, Rest, SizeToClusters, Cut, Links, Laid, Joined, Taken, SameFree, InUse, Grew;
      hide EndOfChain, SaneValue, ShrunkState, Extension, Stop, FreeCount, IsPath;
      ghost var mid, n0 := table, SizeToClusters(f.fileSize);
      ExtensionShrinks(base, table, was.fileCluster, ch, added, n1 - n0, diskError, n0);
      JoinedInRange(table, f.fileCluster, Joined(ch, added));
      var _ := ShrinkChain(f, Joined(ch, added));
      GrewFull(base, mid, table, was, was.fileCluster, ch, added, n0, n1, newSize, diskError);
    }

    lemma JoinedInRange(t: seq<nat>, first: nat, cur: seq<nat>)
      requires IsPath(t, first, cur) && !InRange(t, Stop(t, first, cur)) && SaneValue(t, Stop(t, first, cur))
      ensures Stop(t, first, cur) != 1 && forall k :: 0 <= k < |cur| ==> InRange(t, cur[k])
    {
    }

    /** A chain that is not refused is empty only where nothing is to be freed. */
    lemma GrowsSane(f: OFile, ch: seq<nat>)
      requires Valid() && IsPath(table, f.fileCluster, ch)
        && (f.fileLastCluster != FREE ==> f.fileLastCluster == Tail(ch))
      ensures ch == [] && !BadChain(f, ch) ==> SaneValue(table, f.fileCluster)
    {
    }

    /** FatGrowEof.  The chain `ch` may be of any length and end in any way: it is looked at
        only while the file's last cluster is not known, and a refused grow has made that
        known. */
    method GrowEof(f: OFile, newSize: nat, ghost ch: seq<nat>) returns (status: Status, ghost added: seq<nat>)
      requires Valid() && Exact() && IsPath(table, f.fileCluster, ch)
      requires !InRange(table, Stop(table, f.fileCluster, ch))
      requires BadChain(f, ch) ==> Stop(table, f.fileCluster, ch) != 1
      requires f.fileLastCluster != FREE ==> f.fileLastCluster == Tail(ch)
      modifies this`fat, this`fatEntryPos, this`fatEntryBuffer, this`info, this`freeInfoValid, this`fatDirty, this`table
      modifies f`fileSize, f`fileCluster, f`fileCurrentCluster, f`fileLastCluster, f`dirty
      ensures Valid() && (old(BadChain(f, ch) ==> SaneValue(table, Stop(table, f.fileCluster, ch))) ==> Exact())
      ensures newSize >= UINT32 ==> status == Unsupported && table == old(table) && f.State() == old(f.State())
      ensures var n0, n1 := SizeToClusters(old(f.fileSize)), SizeToClusters(newSize);
        newSize < UINT32 ==>
        if n1 <= n0 then
          status == Success && table == old(table) && f.State() == old(f.State()).(fileSize := newSize, dirty := true)
        else if old(BadChain(f, ch)) then
          && status == VolumeCorrupted && f.fileSize == old(f.fileSize)
          && (old(SaneValue(table, Stop(table, f.fileCluster, ch))) ==>
                && f.State() == ShrunkState(old(f.State()).(fileLastCluster := Tail(ch)), ch, n0)
                && table == if n0 <= |ch| then Cut(old(table), ch, n0) else old(table))
        else
          Grew(old(table), table, old(f.State()), f.State(), ch, added, n0, n1, newSize, diskError, status)
    {
      hide Packed, CountFree, Start, Unit, Rest, SizeToClusters, Cut, Links, Laid, Joined, Taken, SameFree, InUse, Grew;
      GrowsSane(f, ch);
      hide EndOfChain, SaneValue, ShrunkState, Extension, Stop, FreeCount;
      added := [];
      if newSize >= UINT32 {
        return Unsupported, added;
      }
      ghost var base, first, was := table, f.fileCluster, f.State();
      var curClusters, newClusters := SizeToClusters(f.fileSize), SizeToClusters(newSize);
      status := Success;
      if curClusters < newClusters {
        if f.fileCluster != FREE && f.fileLastCluster == FREE {
          var ok := FindLastCluster(f, curClusters, ch);
          if !ok {
            status := VolumeCorrupted;
          }
        }
        if status == Success {
          var full;
          full, added := ExtendChain(f, newClusters - curClusters, ch);
          if full {
            status := VolumeFull;
          }
        }
      }
      if status != Success {
        if status == VolumeFull {
          ShrinkFull(f, base, was, ch, added, newClusters, newSize);
        } else {
          var _ := ShrinkChain(f, ch);
        }
        return status, added;
      }
      f.fileSize := newSize;
      f.dirty := true;
      if curClusters < newClusters {
        GrewAll(base, table, was, ch, added, curClusters, newClusters, newSize, diskError);
      }
    }

    /** The remembered seek cursor is good: it is at the head of the chain, or it names
        the cluster that `position` lies at. */
    ghost predicate CursorOk(f: OFile, ch: seq<nat>)
      requires clusterSize > 0
      reads f`fileCurrentCluster, f`fileCluster, f`position
    {
      || f.fileCurrentCluster == f.fileCluster
      || (var k := Unit(f.position, clusterSize);
          k < |ch| && f.position == Start(k, clusterSize) && f.fileCurrentCluster == ch[k])
    }

    /** The walk of FatOFilePosition: from the remembered cluster if that is not past the
        position, else from the head. */
    method SeekCluster(f: OFile, position: nat, ghost ch: seq<nat>)
        returns (status: Status, cluster: nat, startPos: nat)
      requires Valid() && IsPath(table, f.fileCluster, ch) && CursorOk(f, ch)
      requires !InRange(table, Stop(table, f.fileCluster, ch)) && Stop(table, f.fileCluster, ch) != 1
      modifies this`fatEntryPos, this`fatEntryBuffer
      ensures Valid()
      ensures var u := Unit(position, clusterSize);
        if u < |ch| then status == Success && cluster == ch[u] && startPos == Start(u, clusterSize)
        else status == VolumeCorrupted
      ensures status == Success ==> InRange(table, cluster) && startPos <= position
    {
      hide Packed, EntryPos, Unit, Rest, Start;
      StartStep(0, clusterSize);
      Locate(0, clusterSize, 0);
      cluster, startPos := f.fileCurrentCluster, f.position;
      if position < startPos || f.fileCluster == cluster {
        startPos := 0;
        cluster := f.fileCluster;
      }
      ghost var k: nat := Unit(startPos, clusterSize);
      LocateUp(startPos, position, clusterSize);
      while startPos + clusterSize <= position
        invariant Valid() && startPos == Start(k, clusterSize) && startPos <= position
          && k <= Unit(position, clusterSize)
        invariant if k < |ch| then cluster == ch[k]
                  else cluster == Stop(table, f.fileCluster, ch) || EndOfChain(cluster)
        decreases position - startPos
      {
        StartStep(k, clusterSize);
        StartMono(Unit(position, clusterSize), k, clusterSize);
        startPos := startPos + clusterSize;
        if cluster == FREE || cluster >= SPECIAL {
          return VolumeCorrupted, cluster, startPos;
        }
        if k + 1 < |ch| {
          assert Links(table, ch, k);
        }
        cluster := GetFatEntry(cluster);
        k := k + 1;
      }
      Locate(position, clusterSize, k);
      if cluster < MIN_CLUSTER || cluster > maxCluster + 1 {
        return VolumeCorrupted, cluster, startPos;
      }
      status := Success;
    }

    /** FatOFilePosition on a file with a cluster chain: seek, and measure the run of
        consecutive clusters from there, up to `posLimit` bytes. */
    method Position(f: OFile, position: nat, posLimit: nat, ghost ch: seq<nat>) returns (status: Status)
      requires Valid() && IsPath(table, f.fileCluster, ch) && CursorOk(f, ch) && !f.isFixedRootDir
      requires !InRange(table, Stop(table, f.fileCluster, ch)) && SaneValue(table, Stop(table, f.fileCluster, ch))
      modifies this`fatEntryPos, this`fatEntryBuffer, f`fileCurrentCluster, f`position, f`posDisk, f`posRem
      ensures Valid() && CursorOk(f, ch) && Area().Holds(ch)
      ensures var u := Unit(position, clusterSize);
        if u < |ch| then
          && status == Success && f.posDisk == Area().Where(ch, position) && 0 < f.posRem
          && f.fileCurrentCluster == ch[u] && f.position == Start(u, clusterSize)
          && position + f.posRem <= Start(|ch|, clusterSize) && Straight(Area(), ch, position, f.posRem)
          && RunIsMaximal(ch, position, f.posRem, posLimit)
        else status == VolumeCorrupted && f.posRem == old(f.posRem) && f.posDisk == old(f.posDisk)
    {
      hide Packed, EntryPos, Unit, Rest, Start, Straight, RunIsMaximal, IsPath;
      var cluster: nat, startPos: nat;
      status, cluster, startPos := SeekCluster(f, position, ch);
      if status != Success {
        PathHolds(f.fileCluster, ch);
        return;
      }
      f.posDisk := firstClusterPos + Start(cluster - MIN_CLUSTER, clusterSize) + position - startPos;
      f.fileCurrentCluster := cluster;
      f.position := startPos;
      UnitOfStart(Unit(position, clusterSize), clusterSize);
      f.posRem := MeasureRun(cluster, startPos, f.fileCluster, position, posLimit, ch);
    }

    lemma PathHolds(first: nat, ch: seq<nat>)
      requires Valid() && IsPath(table, first, ch)
      ensures Area().Holds(ch)
    {
      hide Packed;
      assert forall k :: 0 <= k < |ch| ==> InRange(table, ch[k]);
    }

    /** The loop at the end of FatOFilePosition, from cluster `ch[u]` that starts at `startPos`. */
    method MeasureRun(cluster0: nat, startPos: nat, first: nat, position: nat, posLimit: nat, ghost ch: seq<nat>)
        returns (run: nat)
      requires Valid() && IsPath(table, first, ch)
      requires !InRange(table, Stop(table, first, ch)) && SaneValue(table, Stop(table, first, ch))
      requires var u := Unit(position, clusterSize); u < |ch| && cluster0 == ch[u] && startPos == Start(u, clusterSize)
      modifies this`fatEntryPos, this`fatEntryBuffer
      ensures Valid() && Area().Holds(ch) && 0 < run
      ensures position + run <= Start(|ch|, clusterSize) && Straight(Area(), ch, position, run)
      ensures RunIsMaximal(ch, position, run, posLimit)
    {
      hide Packed, EntryPos, Unit, Rest, Start, Straight;
      PathHolds(first, ch);
      ghost var u := Unit(position, clusterSize);
      ghost var j: nat := 0;
      Locate(position, clusterSize, u);
      StartStep(u, clusterSize);
      var cluster := cluster0;
      run := startPos + clusterSize - position;
      var next := GetFatEntry(cluster);
      while next == cluster + 1 && run < posLimit
        invariant Valid() && u + j < |ch| && cluster == ch[u + j] && next == table[cluster]
        invariant position + run == Start(u + j + 1, clusterSize)
        invariant forall v {:trigger ch[v]} :: u <= v <= u + j ==> ch[v] == ch[u] + (v - u)
        decreases |ch| - j
      {
        if u + j + 1 < |ch| {
          assert Links(table, ch, u + j);
        }
        StartStep(u + j + 1, clusterSize);
        run := run + clusterSize;
        cluster := cluster + 1;
        j := j + 1;
        next := GetFatEntry(cluster);
      }
      if u + j + 1 < |ch| {
        assert Links(table, ch, u + j);
      }
      UnitOfStart(u + j + 1, clusterSize);
      ConsecutiveIsStraight(Area(), ch, position, j);
    }

    /** The run ends because the limit is reached or the chain goes elsewhere. */
    ghost predicate RunIsMaximal(ch: seq<nat>, position: nat, run: nat, posLimit: nat)
      requires clusterSize > 0
    {
      var v := Unit(position + run, clusterSize);
      run >= posLimit || v == |ch| || (0 < v < |ch| && ch[v] != ch[v - 1] + 1)
    }

    /** An open file and what its bytes are made of. */
    ghost predicate FileAt(f: OFile, e: Extent)
      requires clusterSize > 0
      reads this`table, f`fileSize, f`fileCurrentCluster, f`fileCluster, f`position
    {
      && f.isFixedRootDir == e.Fixed?
      && match e
         case Fixed(size) => size == f.fileSize && size <= firstClusterPos
         case Chained(ch) =>
           && IsPath(table, f.fileCluster, ch) && CursorOk(f, ch)
           && !InRange(table, Stop(table, f.fileCluster, ch)) && SaneValue(table, Stop(table, f.fileCluster, ch))
    }

    lemma FileHolds(f: OFile, e: Extent)
      requires Valid() && FileAt(f, e)
      ensures ExtentOk(Area(), e)
    {
      hide Packed, Start, Unit, Rest;
      match e
      case Fixed(_) =>
      case Chained(ch) =>
        PathHolds(f.fileCluster, ch);
        forall i, j | 0 <= i < j < |ch|
          ensures ch[i] != ch[j]
        {
          PathDistinct(table, f.fileCluster, ch, i, j);
        }
    }

    /** FatOFilePosition. */
    method OFilePosition(f: OFile, position: nat, posLimit: nat, ghost e: Extent) returns (status: Status)
      requires Valid() && FileAt(f, e) && (e.Fixed? ==> position < f.fileSize)
      modifies this`fatEntryPos, this`fatEntryBuffer, f`fileCurrentCluster, f`position, f`posDisk, f`posRem
      ensures Valid() && FileAt(f, e) && ExtentOk(Area(), e)
      ensures if position < Capacity(Area(), e) then
          status == Success && RunAt(Area(), e, position, f.posRem, f.posDisk)
        else status == VolumeCorrupted
    {
      hide Packed, Unit, Rest, Start, Straight, IsPath, Stop, RunIsMaximal, CursorOk, DataArea.Where;
      FileHolds(f, e);
      if f.isFixedRootDir {
        f.posDisk := position;
        f.posRem := f.fileSize - position;
        status := Success;
      } else {
        InCapacity(position, clusterSize, |e.ch|);
        status := Position(f, position, posLimit, e.ch);
      }
    }
  }

  /** Freeing a cluster beyond the last one frees the cluster that was looked at before. */
  method FreeBeyond(v: FatVolume, cluster: nat, beyond: nat) returns (status: Status)
    requires v.Valid() && InRange(v.table, cluster) && |v.table| <= beyond
      && (v.fatType == Fat12 ==> cluster % 2 == beyond % 2)
    modifies v
    ensures v.Valid() && status == Success && v.table[cluster] == FREE
  {
    hide FatVolume.Packed, Encode, Decode, EntryPos, Norm;
    var _ := v.GetFatEntry(cluster);
    v.PackedFacts();
    MarkFits(v.fatType, v.fat, v.maxCluster + 2);
    ghost var marked := Marked(v.fatType, v.fat, v.fatDirty, v.dirtyValue);
    FitsBelow(v.fatType, marked, v.maxCluster + 2, cluster);
    BeyondIsLoaded(v.fatType, marked, cluster, beyond, FREE);
    NormOfClusters(v.fatType, FREE);
    status := v.SetFatEntry(beyond, FREE);
    v.PackedFacts();
  }

  /** A file of one cluster whose first cluster is beyond the last entry: shrinking it to its
      size ends the chain of whatever cluster was looked at before. */
  method CutElsewhere(v: FatVolume, f: OFile, cluster: nat) returns (status: Status)
    requires v.Valid() && InRange(v.table, cluster) && Beyond(v.table, f.fileCluster)
      && v.SizeToClusters(f.fileSize) == 1
    requires v.fatType == Fat12 ==> cluster % 2 == f.fileCluster % 2
    modifies v, f
    ensures v.Valid() && status == Success && v.table[cluster] == LAST
  {
    hide FatVolume.Packed, Encode, Decode, EntryPos, Norm, ClustersOf, FreeWalk, ClusterTable, Entry;
    var _ := v.GetFatEntry(cluster);
    v.PackedFacts();
    PathNoOne(v.table, f.fileCluster, []);
    assert Follow(v.table, f.fileCluster, 0) == f.fileCluster && EndsBeyond(v.table, f.fileCluster, 1);
    MarkFits(v.fatType, v.fat, v.maxCluster + 2);
    ghost var marked := Marked(v.fatType, v.fat, v.fatDirty, v.dirtyValue);
    FitsBelow(v.fatType, marked, v.maxCluster + 2, cluster);
    BeyondIsLoaded(v.fatType, marked, cluster, f.fileCluster, LAST);
    NormOfClusters(v.fatType, LAST);
    ghost var walked;
    status, walked := v.ShrinkEof(f);
    v.PackedFacts();
    TableAt(v.fatType, v.fat, v.maxCluster + 2, cluster);
  }

  lemma TableAt(t: FatType, fat: seq<Byte>, n: nat, i: nat)
    requires Fits(t, fat, n) && MIN_CLUSTER <= i < n
    ensures Fits(t, fat, i + 1) && ClusterTable(t, fat, n)[i] == Entry(t, fat, i)
  {
    FitsBelow(t, fat, n, i);
  }

  /** A file of three clusters by its size whose chain is cluster 2 alone and ends in a bad
      mark, on a volume with two free clusters.  The grow is refused; tried again it looks at
      the chain no more, takes both free clusters and keeps them. */
  method RefusedThenFull(v: FatVolume, f: OFile, newSize: nat) returns (first: Status, second: Status)
    requires v.Valid() && v.Exact() && !v.diskError && v.table == [0, 0, SPECIAL, FREE, FREE]
    requires f.fileCluster == 2 && f.fileLastCluster == FREE && newSize < UINT32
    requires v.SizeToClusters(f.fileSize) == 3 && v.SizeToClusters(newSize) >= 6
    modifies v, f
    ensures first == VolumeCorrupted && second == VolumeFull && f.fileSize == old(f.fileSize)
    ensures v.table in {[0, 0, 3, 4, LAST], [0, 0, 4, LAST, 3]}
    ensures v.Valid() && !SameFree(old(v.table), v.table)
  {
    hide FatVolume.Packed, Start, Unit, Rest, ClustersOf, Grew, CountFree;
    ghost var t, s, n1, added := v.table, f.State(), v.SizeToClusters(newSize), [];
    first, added := v.GrowEof(f, newSize, [2]);
    s := f.State();
    second, added := v.GrowEof(f, newSize, [2]);
    TwoFree(t, v.table, s, f.State(), added, n1, newSize, second);
  }

  lemma TwoFree(t: seq<nat>, t': seq<nat>, s: Space, s': Space, added: seq<nat>, n1: nat, newSize: nat, status: Status)
    requires t == [0, 0, SPECIAL, FREE, FREE] && n1 >= 6
      && Grew(t, t', s, s', [2], added, 3, n1, newSize, false, status)
    ensures status == VolumeFull && s'.fileSize == s.fileSize && !SameFree(t, t')
    ensures t' in {[0, 0, 3, 4, LAST], [0, 0, 4, LAST, 3]}
  {
    hide LaidAt, CountFree;
    TwoCounted(t);
    var cur := Joined([2], added);
    assert added != [] ==> added[0] in added;
    assert cur == [2] + added && |added| == 2 && status == VolumeFull;
    assert added[0] in added && added[1] in added && cur == [2, added[0], added[1]];
    LaidIsChain(t, t', cur, 3);
    assert cur[1] != cur[2];
    if added[0] == 3 {
      TwoLaid(t, t', 3, 4);
      assert t' == [0, 0, 3, 4, LAST];
    } else {
      TwoLaid(t, t', 4, 3);
      assert t' == [0, 0, 4, LAST, 3];
    }
    assert t'[3] != FREE;
  }

  lemma TwoCounted(t: seq<nat>)
    requires t == [0, 0, SPECIAL, FREE, FREE]
    ensures FreeCount(t) == 2
  {
    assert CountFree(t, 2) == 0 && CountFree(t, 3) == 0 && CountFree(t, 4) == 1;
  }

  lemma TwoLaid(t: seq<nat>, t': seq<nat>, x: nat, y: nat)
    requires |t| == 5 && 2 <= x < 5 && 2 <= y < 5 && Laid(t, t', [2, x, y], 3)
    ensures t'[2] == x && t'[x] == y && t'[y] == LAST && t'[0] == t[0] && t'[1] == t[1]
  {
    var cur := [2, x, y];
    assert LaidAt(t', cur, 3, 0) && LaidAt(t', cur, 3, 1) && LaidAt(t', cur, 3, 2);
  }
}

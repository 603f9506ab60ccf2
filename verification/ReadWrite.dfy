/** Reading, writing, growing and truncating open files: every file is a flat byte
    sequence, and no operation on one file changes another. */
module ReadWrite {
  import opened Bytes
  import opened FatTypes
  import opened FatTable
  import opened Clusters
  import opened FileChains
  import opened FileData
  import opened FileSpace

  /** FAT_MAX_ALLOCATE_SIZE. */
  const MAX_ALLOCATE: nat := 0xA0_0000

  /** FatAccessOFile, reading: the bytes from `position` on, as far as the extent goes. */
  method ReadOFile(v: FatVolume, f: OFile, position: nat, n: nat, ghost e: Extent)
      returns (status: Status, out: seq<Byte>)
    requires v.Valid() && v.FileAt(f, e) && (e.Fixed? ==> position + n <= f.fileSize)
    modifies v`fatEntryPos, v`fatEntryBuffer, f`fileCurrentCluster, f`position, f`posDisk, f`posRem
    ensures v.Valid() && v.FileAt(f, e) && ExtentOk(v.Area(), e)
    ensures (status == Success <==> |out| == n) && (status == Success || status == VolumeCorrupted)
    ensures var cap := Capacity(v.Area(), e);
      |out| == if n == 0 || position + n <= cap then n else if position <= cap then cap - position else 0
    ensures out != [] ==>
      position + |out| <= Capacity(v.Area(), e) && out == Stretch(View(v.Area(), v.data, e), position, |out|)
  {
    hide Capacity, View, RunAt, FatVolume.FileAt, Stretch;
    status, out := Success, [];
    v.FileHolds(f, e);
    StretchNone(View(v.Area(), v.data, e), if position <= Capacity(v.Area(), e) then position else 0);
    while |out| < n
      invariant v.Valid() && v.FileAt(f, e) && ExtentOk(v.Area(), e) && |out| <= n && status == Success
      invariant out != [] ==>
        position + |out| <= Capacity(v.Area(), e) && out == Stretch(View(v.Area(), v.data, e), position, |out|)
      decreases n - |out|
    {
      status := v.OFilePosition(f, position + |out|, n - |out|, e);
      if status != Success {
        break;
      }
      RunBounds(v.Area(), e, position + |out|, f.posRem, f.posDisk);
      var len := if n - |out| > f.posRem then f.posRem else n - |out|;
      RunShorter(v.Area(), e, position + |out|, f.posRem, f.posDisk, len);
      RunRead(v.Area(), v.data, e, position + |out|, len, f.posDisk);
      StretchPlus(View(v.Area(), v.data, e), position, |out|, len);
      out := out + Stretch(v.data, f.posDisk, len);
    }
  }

  lemma RunBounds(g: DataArea, e: Extent, p: nat, n: nat, at: nat)
    requires g.Valid() && ExtentOk(g, e) && RunAt(g, e, p, n, at)
    ensures 0 < n && p + n <= Capacity(g, e)
  {
  }

  /** FatAccessOFile, writing: `b` overwrites the bytes from `position` on, as far as the
      extent goes, and no cluster of another file changes. */
  method WriteOFile(v: FatVolume, f: OFile, position: nat, b: seq<Byte>, ghost e: Extent)
      returns (status: Status, done: nat)
    requires v.Valid() && v.FileAt(f, e) && (e.Fixed? ==> position + |b| <= f.fileSize)
    modifies v`data, v`fatEntryPos, v`fatEntryBuffer
    modifies f`fileCurrentCluster, f`position, f`posDisk, f`posRem, f`dirty, f`archive
    ensures v.Valid() && v.FileAt(f, e) && ExtentOk(v.Area(), e) && OnlyIn(v.Area(), old(v.data), v.data, Own(e))
    ensures done <= |b| && (status == Success <==> done == |b|) && (status == Success || status == VolumeCorrupted)
    ensures var cap := Capacity(v.Area(), e);
      done == if b == [] || position + |b| <= cap then |b| else if position <= cap then cap - position else 0
    ensures done == 0 ==> v.data == old(v.data) && f.dirty == old(f.dirty) && f.archive == old(f.archive)
    ensures done > 0 ==>
      && position + done <= Capacity(v.Area(), e) && f.dirty && f.archive
      && View(v.Area(), v.data, e) == Splice(View(v.Area(), old(v.data), e), position, b[..done])
  {
    hide Capacity, View, RunAt, FatVolume.FileAt, Stretch, Splice, OnlyIn, Own, FatVolume.Packed;
    status, done := Success, 0;
    v.FileHolds(f, e);
    OnlyInRefl(v.Area(), v.data, Own(e));
    ghost var was := v.data;
    while done < |b|
      invariant v.Valid() && v.FileAt(f, e) && ExtentOk(v.Area(), e) && done <= |b| && status == Success
      invariant v.Area().Fits(was) && OnlyIn(v.Area(), was, v.data, Own(e))
      invariant done == 0 ==> v.data == was && f.dirty == old(f.dirty) && f.archive == old(f.archive)
      invariant done > 0 ==>
        && position + done <= Capacity(v.Area(), e) && f.dirty && f.archive
        && View(v.Area(), v.data, e) == Splice(View(v.Area(), was, e), position, b[..done])
      decreases |b| - done
    {
      status := v.OFilePosition(f, position + done, |b| - done, e);
      if status != Success {
        break;
      }
      RunBounds(v.Area(), e, position + done, f.posRem, f.posDisk);
      var len := if |b| - done > f.posRem then f.posRem else |b| - done;
      RunShorter(v.Area(), e, position + done, f.posRem, f.posDisk, len);
      WriteStep(v.Area(), was, v.data, e, position, b, done, len, f.posDisk);
      v.data := Splice(v.data, f.posDisk, b[done..done + len]);
      f.dirty := true;
      f.archive := true;
      done := done + len;
    }
  }

  lemma OnlyInRefl(g: DataArea, data: seq<Byte>, ch: seq<nat>)
    requires g.Fits(data)
    ensures OnlyIn(g, data, data, ch)
  {
  }

  /** One round of the loop: writing `len` more bytes at the run the file was positioned at. */
  lemma WriteStep(g: DataArea, was: seq<Byte>, data: seq<Byte>, e: Extent, position: nat, b: seq<Byte>, done: nat,
      len: nat, at: nat)
    requires g.Fits(was) && g.Fits(data) && ExtentOk(g, e) && OnlyIn(g, was, data, Own(e))
    requires done + len <= |b| && RunAt(g, e, position + done, len, at)
    requires if done == 0 then data == was
             else position + done <= Capacity(g, e) && View(g, data, e) == Splice(View(g, was, e), position, b[..done])
    ensures at + len <= |data|
    ensures var data' := Splice(data, at, b[done..done + len]);
      && g.Fits(data') && OnlyIn(g, was, data', Own(e)) && position + done + len <= Capacity(g, e)
      && View(g, data', e) == Splice(View(g, was, e), position, b[..done + len])
  {
    hide View, RunAt, OnlyIn, Own, Splice;
    var piece := b[done..done + len];
    RunBounds(g, e, position + done, len, at);
    RunWrite(g, data, e, position + done, piece, at);
    OnlyInTrans(g, was, data, Splice(data, at, piece), Own(e));
    assert b[..done] + piece == b[..done + len];
    if done == 0 {
      assert b[..len] == piece;
    } else {
      SplicePlus(View(g, was, e), position, b[..done], piece);
    }
  }

  /** The bytes of the file have room in its chain, and the chain lies on the disk. */
  ghost predicate InPlace(g: DataArea, data: seq<Byte>, file: File) {
    g.Fits(data) && g.Holds(file.chain) && file.size <= Start(|file.chain|, g.clusterSize)
  }

  /** What a reader of the file sees. */
  ghost function FileBytes(g: DataArea, data: seq<Byte>, file: File): (r: seq<Byte>)
    requires InPlace(g, data, file)
    ensures |r| == file.size
  {
    Stretch(Contents(g, data, file.chain), 0, file.size)
  }

  /** The volume holds `files`, all well-formed, and their bytes are `bytes`. */
  ghost predicate Keeps(v: FatVolume, files: map<nat, File>, bytes: map<nat, seq<Byte>>)
    reads v
  {
    && v.Valid() && v.Exact() && AllOk(v.table, v.clusterSize, files)
    && bytes.Keys == files.Keys
    && forall a :: a in files ==> KeepsOne(v.Area(), v.data, files[a], bytes[a])
  }

  ghost predicate KeepsOne(g: DataArea, data: seq<Byte>, file: File, bytes: seq<Byte>) {
    InPlace(g, data, file) && FileBytes(g, data, file) == bytes
  }

  ghost function FileOf(f: OFile, ch: seq<nat>): File
    reads f`fileCluster, f`fileSize, f`fileLastCluster
  {
    File(f.fileCluster, f.fileSize, f.fileLastCluster, ch)
  }

  /** `f` is the open file `id` of that volume.  File sizes have 32 bits, and clusters are
      smaller than that. */
  ghost predicate Open(v: FatVolume, f: OFile, id: nat, files: map<nat, File>, bytes: map<nat, seq<Byte>>)
    reads v, f`fileSize, f`fileCluster, f`fileLastCluster, f`fileCurrentCluster, f`position
  {
    && Keeps(v, files, bytes) && id in files && !f.isFixedRootDir && f.fileSize < UINT32 && v.clusterSize < UINT32
    && files[id] == FileOf(f, files[id].chain) && v.CursorOk(f, files[id].chain)
  }

  lemma FileInPlace(t: seq<nat>, g: DataArea, data: seq<Byte>, file: File)
    requires g.Fits(data) && FileOk(t, g.clusterSize, file) && |t| == g.maxCluster + 2
    ensures InPlace(g, data, file)
  {
    hide Start, ClustersOf;
    assert forall k :: 0 <= k < |file.chain| ==> InRange(t, file.chain[k]);
  }

  /** A file that got more clusters, and perhaps a larger size, begins with its old bytes. */
  lemma BytesGrow(g: DataArea, data: seq<Byte>, file: File, file': File)
    requires InPlace(g, data, file) && InPlace(g, data, file') && file.chain <= file'.chain && file.size <= file'.size
    ensures FileBytes(g, data, file) <= FileBytes(g, data, file')
  {
    hide Start, Contents;
    var n := |file.chain|;
    assert file'.chain[..n] == file.chain;
    ContentsPrefix(g, data, file'.chain, n);
  }

  /** FatGrowEof on a well-formed file does what the file chains layer says of growing. */
  method GrowChain(v: FatVolume, f: OFile, newSize: nat, ghost ch: seq<nat>)
      returns (status: Status, ghost ch': seq<nat>)
    requires v.Valid() && v.Exact() && |v.table| <= SPECIAL
    requires FileOk(v.table, v.clusterSize, FileOf(f, ch)) && v.CursorOk(f, ch)
    modifies v`fat, v`fatEntryPos, v`fatEntryBuffer, v`info, v`freeInfoValid, v`fatDirty, v`table
    modifies f`fileSize, f`fileCluster, f`fileCurrentCluster, f`fileLastCluster, f`dirty
    ensures v.Valid() && v.Exact() && v.CursorOk(f, ch')
    ensures GrowOutcome(old(v.table), v.clusterSize, old(FileOf(f, ch)), newSize, v.diskError, v.table,
      FileOf(f, ch'), status)
  {
    hide FatVolume.Packed, Start, Unit, Rest, Grew, ClustersOf, CountFree, Links, IsPath, Stop;
    ghost var added;
    ghost var was, file, state := v.table, FileOf(f, ch), f.State();
    TailInRange(v.table, f.fileCluster, ch);
    ChainStops(v.table, f.fileCluster, ch);
    status, added := v.GrowEof(f, newSize, ch);
    ch' := ch;
    if newSize < UINT32 && |ch| < ClustersOf(newSize, v.clusterSize) {
      if status == Success {
        ch' := ch + added;
      }
      hide GrowOutcome;
      GrewIsOutcome(was, v.table, v.clusterSize, file, state, f.State(), added, newSize, v.diskError, status);
    }
  }

  /** What FatGrowEof does to a well-formed file. */
  lemma GrewIsOutcome(t: seq<nat>, t': seq<nat>, clusterSize: nat, f: File, s: Space, s': Space, added: seq<nat>,
                      newSize: nat, stuck: bool, status: Status)
    requires clusterSize > 0 && FileOk(t, clusterSize, f) && |t| <= SPECIAL && newSize < UINT32
    requires |f.chain| < ClustersOf(newSize, clusterSize)
    requires s.fileCluster == f.first && s.fileSize == f.size && s.fileLastCluster == f.last
    requires Grew(t, t', s, s', f.chain, added, |f.chain|, ClustersOf(newSize, clusterSize), newSize, stuck, status)
    ensures var chain := if status == Success then f.chain + added else f.chain;
      GrowOutcome(t, clusterSize, f, newSize, stuck, t', File(s'.fileCluster, s'.fileSize, s'.fileLastCluster, chain),
          status)
    ensures s.fileCurrentCluster == s.fileCluster ==> s'.fileCurrentCluster == s'.fileCluster
    ensures s'.fileCurrentCluster in {s'.fileCluster, s.fileCurrentCluster}
  {
    hide Start, Unit, Rest, Grown, ClustersOf, CountFree, Links, LaidAt, SameFree, InUse;
    NoneExtra(t, f.first, f.chain, added);
    assert (f.chain + added)[|f.chain|..] == added && (f.chain + added)[..|f.chain|] == f.chain;
    hide IsChain;
    if status == Success {
      LaidIsGrown(t, t', f.first, f.chain, added);
    } else {
      LaidIsUndone(t, t', f.first, f.chain, added);
    }
  }

  /** A grow cannot be met: the volume has no more room for the clusters it takes. */
  ghost predicate OutOfSpace(t: seq<nat>, clusterSize: nat, size: nat, newSize: nat, stuck: bool)
    requires clusterSize > 0
  {
    var n0, n1 := ClustersOf(size, clusterSize), ClustersOf(newSize, clusterSize);
    n1 > n0 && (stuck || FreeCount(t) < n1 - n0)
  }

  /** Growing one file keeps the bytes of all: the grown one only gains bytes at its end. */
  lemma GrowKeepsBytes(t: seq<nat>, t': seq<nat>, g: DataArea, data: seq<Byte>, files: map<nat, File>, bytes: map<nat,
      seq<Byte>>,
                       id: nat, f': File, newSize: nat, stuck: bool, status: Status)
    requires g.Fits(data) && |t| == g.maxCluster + 2 && AllOk(t, g.clusterSize, files) && id in files
    requires bytes.Keys == files.Keys && forall a :: a in files ==> KeepsOne(g, data, files[a], bytes[a])
    requires files[id].size <= newSize && GrowOutcome(t, g.clusterSize, files[id], newSize, stuck, t', f', status)
    ensures AllOk(t', g.clusterSize, files[id := f']) && InPlace(g, data, f')
    ensures bytes[id] <= FileBytes(g, data, f') && f'.size == (if status == Success then newSize else |bytes[id]|)
    ensures status == Success <==> newSize < UINT32 && !OutOfSpace(t, g.clusterSize, files[id].size, newSize, stuck)
  {
    hide ClustersOf, FileOk, Contents, Start, Grown, IsChain;
    var s, s' := Snapshot(t, files), Snapshot(t', files[id := f']);
    StepKeepsAll(g.clusterSize, s, Grow(id, newSize, stuck, status), s');
    GrowKeepsFile(t, g.clusterSize, files[id], newSize, stuck, t', f', status);
    FileInPlace(t', g, data, f');
    assert KeepsOne(g, data, files[id], bytes[id]);
    BytesGrow(g, data, files[id], f');
  }

  /** FatGrowEof among all files of the volume. */
  method GrowFile(v: FatVolume, f: OFile, newSize: nat, ghost id: nat, ghost files: map<nat, File>,
      ghost bytes: map<nat, seq<Byte>>)
    returns (status: Status, ghost files': map<nat, File>, ghost bytes': map<nat, seq<Byte>>)
    requires Open(v, f, id, files, bytes) && f.fileSize <= newSize
    modifies v`fat, v`fatEntryPos, v`fatEntryBuffer, v`info, v`freeInfoValid, v`fatDirty, v`table
    modifies f`fileSize, f`fileCluster, f`fileCurrentCluster, f`fileLastCluster, f`dirty
    ensures id in files' && id in bytes' && Open(v, f, id, files', bytes')
    ensures files' == files[id := files'[id]] && bytes' == bytes[id := bytes'[id]]
    ensures GrowOutcome(old(v.table), v.clusterSize, files[id], newSize, v.diskError, v.table, files'[id], status)
    ensures bytes[id] <= bytes'[id]
      && |bytes'[id]| == f.fileSize == (if status == Success then newSize else |bytes[id]|)
    ensures |bytes[id]| == old(f.fileSize) && (status != Success ==> bytes' == bytes)
    ensures status == Success <==>
      newSize < UINT32 && !OutOfSpace(old(v.table), v.clusterSize, old(f.fileSize), newSize, v.diskError)
    ensures status == GrowStatus(v.clusterSize, FreeCount(old(v.table)), old(f.fileSize), newSize, v.diskError)
    ensures FreeCount(v.table) ==
      FreeCount(old(v.table)) - if status == Success then Growth(v.clusterSize, old(f.fileSize), newSize) else 0
  {
    hide FatVolume.Packed, Start, Grown, ClustersOf, CountFree, Links, GrowOutcome, Contents, FileOk, InPlace;
    hide FileBytes;
    ghost var ch;
    ghost var was := v.table;
    AllOkAt(v.table, v.clusterSize, files, id);
    status, ch := GrowChain(v, f, newSize, files[id].chain);
    GrowTakes(was, v.table, v.clusterSize, files[id], newSize, v.diskError, FileOf(f, ch), status);
    files' := files[id := FileOf(f, ch)];
    GrowKeepsBytes(was, v.table, v.Area(), v.data, files, bytes, id, files'[id], newSize, v.diskError, status);
    bytes' := bytes[id := FileBytes(v.Area(), v.data, files'[id])];
    assert status != Success ==> bytes'[id] == bytes[id];
  }

  /** How many clusters a file of `size` bytes needs to grow to `newSize`. */
  function Growth(clusterSize: nat, size: nat, newSize: nat): nat
    requires clusterSize > 0
  {
    var n0, n1 := ClustersOf(size, clusterSize), ClustersOf(newSize, clusterSize);
    if n1 > n0 then n1 - n0 else 0
  }

  /** What growing answers with `free` free clusters; `stuck` is the volume's disk error. */
  function GrowStatus(clusterSize: nat, free: nat, size: nat, newSize: nat, stuck: bool): Status
    requires clusterSize > 0
  {
    var n := Growth(clusterSize, size, newSize);
    if newSize >= UINT32 then Unsupported else if n > 0 && (stuck || free < n) then VolumeFull else Success
  }

  /** A grow takes exactly the clusters it needs, or none. */
  lemma GrowTakes(t: seq<nat>, t': seq<nat>, clusterSize: nat, f: File, newSize: nat, stuck: bool, f': File,
      status: Status)
    requires clusterSize > 0 && FileOk(t, clusterSize, f)
      && GrowOutcome(t, clusterSize, f, newSize, stuck, t', f', status)
    ensures status == GrowStatus(clusterSize, FreeCount(t), f.size, newSize, stuck)
    ensures FreeCount(t') == FreeCount(t) - if status == Success then Growth(clusterSize, f.size, newSize) else 0
  {
    hide ClustersOf, CountFree;
    if f.chain != [] && InRange(t, Tail(f.chain)) {
      CountFreeUpdate(t, Tail(f.chain), LAST, |t|);
    }
  }

  lemma AllOkAt(t: seq<nat>, clusterSize: nat, files: map<nat, File>, id: nat)
    requires clusterSize > 0 && AllOk(t, clusterSize, files) && id in files
    ensures FileOk(t, clusterSize, files[id]) && |t| <= SPECIAL
  {
  }

  /** FatTruncateOFile among all files of the volume. */
  method TruncateFile(v: FatVolume, f: OFile, newSize: nat, ghost id: nat, ghost files: map<nat, File>,
      ghost bytes: map<nat, seq<Byte>>)
    returns (status: Status, ghost files': map<nat, File>, ghost bytes': map<nat, seq<Byte>>)
    requires Open(v, f, id, files, bytes) && newSize <= f.fileSize
    modifies v`fat, v`fatEntryPos, v`fatEntryBuffer, v`info, v`fatDirty, v`table
    modifies f`fileSize, f`fileCluster, f`fileCurrentCluster, f`fileLastCluster, f`dirty
    ensures id in files' && id in bytes' && Open(v, f, id, files', bytes')
    ensures files' == files[id := files'[id]] && bytes' == bytes[id := bytes'[id]]
    ensures TruncateOutcome(old(v.table), v.clusterSize, files[id], newSize, v.table, files'[id], status)
    ensures status == Success && bytes'[id] == bytes[id][..newSize]
  {
    hide FatVolume.Packed, Start, ClustersOf, CountFree, Links, TruncateOutcome, Contents, FileOk, InPlace, FileBytes;
    ghost var ch;
    ghost var was := v.table;
    AllOkAt(v.table, v.clusterSize, files, id);
    KeepsAt(v, files, bytes, id);
    status, ch := TruncateChain(v, f, newSize, files[id].chain);
    files' := files[id := FileOf(f, ch)];
    TruncateKeepsBytes(was, v.table, v.Area(), v.data, files, bytes, id, files'[id], newSize, status);
    bytes' := bytes[id := bytes[id][..newSize]];
  }

  lemma KeepsAt(v: FatVolume, files: map<nat, File>, bytes: map<nat, seq<Byte>>, id: nat)
    requires Keeps(v, files, bytes) && id in files
    ensures KeepsOne(v.Area(), v.data, files[id], bytes[id]) && |bytes[id]| == files[id].size
  {
  }

  method TruncateChain(v: FatVolume, f: OFile, newSize: nat, ghost ch: seq<nat>)
      returns (status: Status, ghost ch': seq<nat>)
    requires v.Valid() && v.Exact() && |v.table| <= SPECIAL
    requires FileOk(v.table, v.clusterSize, FileOf(f, ch)) && v.CursorOk(f, ch) && newSize <= f.fileSize
    modifies v`fat, v`fatEntryPos, v`fatEntryBuffer, v`info, v`fatDirty, v`table
    modifies f`fileSize, f`fileCluster, f`fileCurrentCluster, f`fileLastCluster, f`dirty
    ensures v.Valid() && v.Exact() && v.CursorOk(f, ch')
    ensures TruncateOutcome(old(v.table), v.clusterSize, old(FileOf(f, ch)), newSize, v.table, FileOf(f, ch'), status)
  {
    hide FatVolume.Packed, Start, Unit, Rest, Cut, ClustersOf, CountFree, Links;
    TailInRange(v.table, f.fileCluster, ch);
    ClustersMono(newSize, f.fileSize, v.clusterSize);
    f.fileSize := newSize;
    status := v.ShrinkChain(f, ch);
    ch' := ch[..ClustersOf(newSize, v.clusterSize)];
  }

  lemma TruncateKeepsBytes(t: seq<nat>, t': seq<nat>, g: DataArea, data: seq<Byte>, files: map<nat, File>,
      bytes: map<nat, seq<Byte>>,
                           id: nat, f': File, newSize: nat, status: Status)
    requires g.Fits(data) && |t| == g.maxCluster + 2 && AllOk(t, g.clusterSize, files) && id in files
    requires bytes.Keys == files.Keys && forall a :: a in files ==> KeepsOne(g, data, files[a], bytes[a])
    requires newSize <= files[id].size && TruncateOutcome(t, g.clusterSize, files[id], newSize, t', f', status)
    ensures AllOk(t', g.clusterSize, files[id := f']) && newSize <= |bytes[id]|
    ensures KeepsOne(g, data, f', bytes[id][..newSize]) && status == Success
  {
    hide ClustersOf, FileOk, Contents, Start, Cut, IsChain;
    var s, s' := Snapshot(t, files), Snapshot(t', files[id := f']);
    StepKeepsAll(g.clusterSize, s, Truncate(id, newSize, status), s');
    FileInPlace(t', g, data, f');
    assert KeepsOne(g, data, files[id], bytes[id]);
    BytesGrow(g, data, f', files[id]);
  }

  /** An open file is positioned in its chain, which has room for its bytes. */
  lemma OpenAt(v: FatVolume, f: OFile, id: nat, files: map<nat, File>, bytes: map<nat, seq<Byte>>)
    requires Open(v, f, id, files, bytes)
    ensures var e := Chained(files[id].chain);
      && v.Area().Fits(v.data) && v.FileAt(f, e)
        && |bytes[id]| == f.fileSize <= Capacity(v.Area(), e) == RoomFor(f.fileSize, v.clusterSize)
      && ExtentOk(v.Area(), e) && bytes[id] == Stretch(View(v.Area(), v.data, e), 0, f.fileSize)
  {
    hide FatVolume.Packed, Start, Unit, Rest, ClustersOf, Contents;
    AllOkAt(v.table, v.clusterSize, files, id);
    KeepsAt(v, files, bytes, id);
    TailInRange(v.table, f.fileCluster, files[id].chain);
    v.FileHolds(f, Chained(files[id].chain));
  }

  /** `s` with `b` written at `p`, as far as `s` goes. */
  function Patched(s: seq<Byte>, p: nat, b: seq<Byte>): (r: seq<Byte>)
    ensures |r| == |s| && (p + |b| <= |s| ==> r == Splice(s, p, b)) && (b == [] ==> r == s)
  {
    seq(|s|, i requires 0 <= i < |s| => if p <= i < p + |b| then b[i - p] else s[i])
  }

  /** The front of an overwritten sequence. */
  lemma PatchedFront(s: seq<Byte>, n: nat, p: nat, b: seq<Byte>)
    requires p + |b| <= |s| && n <= |s|
    ensures Stretch(Splice(s, p, b), 0, n) == Patched(Stretch(s, 0, n), p, b)
  {
  }

  /** What is cut off at the end of the clusters lies behind the end of the file. */
  lemma PatchedAll(s: seq<Byte>, p: nat, b: seq<Byte>, done: nat)
    requires done <= |b| && (done < |b| ==> |s| <= p + done)
    ensures Patched(s, p, b[..done]) == Patched(s, p, b)
  {
  }

  /** Overwriting bytes of one file, perhaps beyond its end, changes those bytes and no other
      file. */
  lemma WriteKeepsBytes(g: DataArea, data: seq<Byte>, data': seq<Byte>, files: map<nat, File>,
      bytes: map<nat, seq<Byte>>, id: nat, a: nat, position: nat, b: seq<Byte>)
    requires id in files && a in files && bytes.Keys == files.Keys && g.Fits(data)
      && OnlyIn(g, data, data', files[id].chain)
    requires KeepsOne(g, data, files[a], bytes[a]) && KeepsOne(g, data, files[id], bytes[id])
    requires a != id ==> Disjoint(files[a].chain, files[id].chain)
    requires position + |b| <= |Contents(g, data, files[id].chain)| && b != []
    requires Contents(g, data', files[id].chain) == Splice(Contents(g, data, files[id].chain), position, b)
    ensures KeepsOne(g, data', files[a], if a == id then Patched(bytes[id], position, b) else bytes[a])
  {
    hide Start, Contents, SameCluster, Splice;
    if a != id {
      OtherContents(g, data, data', files[id].chain, files[a].chain);
    } else {
      PatchedFront(Contents(g, data, files[id].chain), files[id].size, position, b);
    }
  }

  /** FatAccessOFile, writing, among all files of the volume: inside the file it succeeds, and
      beyond it goes on to the end of the file's clusters, then fails. */
  method WriteFile(v: FatVolume, f: OFile, position: nat, b: seq<Byte>, ghost id: nat, ghost files: map<nat, File>,
      ghost bytes: map<nat, seq<Byte>>)
    returns (status: Status, done: nat, ghost bytes': map<nat, seq<Byte>>)
    requires Open(v, f, id, files, bytes)
    modifies v`data, v`fatEntryPos, v`fatEntryBuffer
    modifies f`fileCurrentCluster, f`position, f`posDisk, f`posRem, f`dirty, f`archive
    ensures id in files && id in bytes && |bytes[id]| == f.fileSize <= RoomFor(f.fileSize, v.clusterSize)
    ensures done <= |b| && status == (if done == |b| then Success else VolumeCorrupted)
    ensures done ==
      if b == [] || position + |b| <= RoomFor(f.fileSize, v.clusterSize) then |b|
          else if position <= RoomFor(f.fileSize, v.clusterSize) then RoomFor(f.fileSize, v.clusterSize) - position
          else 0
    ensures bytes' == bytes[id := Patched(bytes[id], position, b)]
    ensures position + |b| <= f.fileSize ==>
      status == Success && done == |b| && bytes' == bytes[id := Splice(bytes[id], position, b)]
    ensures Open(v, f, id, files, bytes')
  {
    hide FatVolume.Packed, Start, Contents, FileOk, InPlace, FileBytes, OnlyIn, Splice, ClustersOf;
    OpenAt(v, f, id, files, bytes);
    ghost var was := v.data;
    status, done := WriteOFile(v, f, position, b, Chained(files[id].chain));
    bytes' := bytes[id := Patched(bytes[id], position, b)];
    PatchedAll(bytes[id], position, b, done);
    forall a | a in files
      ensures KeepsOne(v.Area(), v.data, files[a], bytes'[a])
    {
      if done > 0 {
        WriteKeepsBytes(v.Area(), was, v.data, files, bytes, id, a, position, b[..done]);
      }
    }
  }

  /** The room in the clusters of a file of `size` bytes. */
  function RoomFor(size: nat, clusterSize: nat): nat
    requires clusterSize > 0
  {
    Start(ClustersOf(size, clusterSize), clusterSize)
  }

  function Zeros(n: nat): (r: seq<Byte>)
    ensures |r| == n && forall i :: 0 <= i < n ==> r[i] == 0
  {
    seq(n, _ => 0)
  }

  /** FatWriteZeroPool: zeroes from `writePos` to the end of the file, a buffer at a time. */
  method WriteZeroPool(v: FatVolume, f: OFile, writePos: nat, ghost id: nat, ghost files: map<nat, File>,
      ghost bytes: map<nat, seq<Byte>>)
    returns (status: Status, ghost bytes': map<nat, seq<Byte>>)
    requires Open(v, f, id, files, bytes) && writePos <= f.fileSize
    modifies v`data, v`fatEntryPos, v`fatEntryBuffer
    modifies f`fileCurrentCluster, f`position, f`posDisk, f`posRem, f`dirty, f`archive
    ensures status == Success && |bytes[id]| == f.fileSize
    ensures bytes' == bytes[id := bytes[id][..writePos] + Zeros(f.fileSize - writePos)]
    ensures Open(v, f, id, files, bytes')
  {
    hide Open;
    var appendedSize := f.fileSize - writePos;
    var bufferSize := if appendedSize > MAX_ALLOCATE then MAX_ALLOCATE else appendedSize;
    var zeroBuffer := Zeros(bufferSize);
    var pos := writePos;
    bytes' := bytes;
    OpenSize(v, f, id, files, bytes);
    assert bytes[id][..writePos] + Zeros(0) + bytes[id][writePos..] == bytes[id];
    while true
      invariant Open(v, f, id, files, bytes') && writePos <= pos <= f.fileSize && appendedSize == f.fileSize - pos
      invariant id in bytes && |bytes[id]| == f.fileSize && (appendedSize > 0 ==> bufferSize > 0)
      invariant bytes' == bytes[id := bytes[id][..writePos] + Zeros(pos - writePos) + bytes[id][pos..]]
      decreases appendedSize
    {
      var writeSize := if appendedSize > bufferSize then bufferSize else appendedSize;
      appendedSize := appendedSize - writeSize;
      ghost var before := bytes'[id];
      var done: nat;
      status, done, bytes' := WriteFile(v, f, pos, zeroBuffer[..writeSize], id, files, bytes');
      ZeroesGrow(bytes[id], writePos, pos, writeSize, zeroBuffer[..writeSize]);
      pos := pos + done;
      if appendedSize <= 0 {
        break;
      }
    }
    assert bytes[id][..writePos] + Zeros(pos - writePos) + bytes[id][pos..] ==
        bytes[id][..writePos] + Zeros(pos - writePos);
  }

  lemma OpenSize(v: FatVolume, f: OFile, id: nat, files: map<nat, File>, bytes: map<nat, seq<Byte>>)
    requires Open(v, f, id, files, bytes)
    ensures id in bytes && id in files && |bytes[id]| == f.fileSize
  {
    KeepsAt(v, files, bytes, id);
  }

  lemma ZeroesGrow(s: seq<Byte>, from: nat, pos: nat, n: nat, z: seq<Byte>)
    requires from <= pos && pos + n <= |s| && z == Zeros(n)
    ensures Splice(s[..from] + Zeros(pos - from) + s[pos..], pos, z) == s[..from] + Zeros(pos + n - from) + s[pos + n..]
  {
  }

  /** FatExpandOFile: the file gets the new size and zeroes after its old bytes. */
  method ExpandFile(v: FatVolume, f: OFile, newSize: nat, ghost id: nat, ghost files: map<nat, File>,
      ghost bytes: map<nat, seq<Byte>>)
    returns (status: Status, ghost files': map<nat, File>, ghost bytes': map<nat, seq<Byte>>)
    requires Open(v, f, id, files, bytes) && f.fileSize <= newSize
    modifies v`fat, v`fatEntryPos, v`fatEntryBuffer, v`info, v`freeInfoValid, v`fatDirty, v`table, v`data
    modifies f`fileSize, f`fileCluster, f`fileCurrentCluster, f`fileLastCluster, f`dirty, f`position, f`posDisk
    modifies f`posRem, f`archive
    ensures id in bytes && Open(v, f, id, files', bytes')
    ensures status == Success ==> bytes' == bytes[id := bytes[id] + Zeros(newSize - |bytes[id]|)]
    ensures status != Success ==> bytes' == bytes && f.fileSize == old(f.fileSize)
    ensures status == Success <==>
      newSize < UINT32 && !OutOfSpace(old(v.table), v.clusterSize, old(f.fileSize), newSize, v.diskError)
  {
    hide Open;
    OpenSize(v, f, id, files, bytes);
    var writePos := f.fileSize;
    status, files', bytes' := GrowFile(v, f, newSize, id, files, bytes);
    assert bytes'[id][..writePos] == bytes[id];
    if status == Success {
      status, bytes' := WriteZeroPool(v, f, writePos, id, files', bytes');
    }
  }

  /** The growing in FatIFileAccess. */
  method MakeRoom(v: FatVolume, f: OFile, endPosition: nat, ghost id: nat, ghost files: map<nat, File>,
      ghost bytes: map<nat, seq<Byte>>)
    returns (status: Status, ghost files': map<nat, File>, ghost bytes': map<nat, seq<Byte>>)
    requires Open(v, f, id, files, bytes)
    modifies v`fat, v`fatEntryPos, v`fatEntryBuffer, v`info, v`freeInfoValid, v`fatDirty, v`table
    modifies f`fileSize, f`fileCluster, f`fileCurrentCluster, f`fileLastCluster, f`dirty
    ensures id in bytes && id in files' && id in bytes' && Open(v, f, id, files', bytes') && v.clusterSize > 0
    ensures files' == files[id := files'[id]] && bytes' == bytes[id := bytes'[id]]
    ensures if endPosition > |bytes[id]| then
        status == GrowStatus(v.clusterSize, FreeCount(old(v.table)), |bytes[id]|, endPosition, v.diskError)
      else status == Success && bytes' == bytes
    ensures status != Success ==> bytes' == bytes
    ensures FreeCount(v.table) == FreeCount(old(v.table)) -
      if endPosition > |bytes[id]| && status == Success then Growth(v.clusterSize, |bytes[id]|, endPosition) else 0
    ensures bytes[id] <= bytes'[id] && |bytes'[id]| == f.fileSize
    ensures endPosition > |bytes[id]| && status == Success ==> |bytes'[id]| == endPosition
  {
    hide Open, OutOfSpace, GrowStatus, Growth, CountFree, RoomFor, FatVolume.Packed, GrowOutcome;
    OpenRoom(v, f, id, files, bytes);
    files', bytes', status := files, bytes, Success;
    assert bytes == bytes[id := bytes[id]] && files == files[id := files[id]];
    if endPosition > f.fileSize {
      status, files', bytes' := GrowFile(v, f, endPosition, id, files, bytes);
    }
  }

  /** FAT_IFILE: a handle on an open file. */
  class Handle {
    const file: OFile
    const readOnly: bool
    const volumeReadOnly: bool
    var position: UInt64

    constructor (file: OFile, readOnly: bool, volumeReadOnly: bool)
      ensures this.file == file && this.readOnly == readOnly && this.volumeReadOnly == volumeReadOnly && position == 0
    {
      this.file := file;
      this.readOnly := readOnly;
      this.volumeReadOnly := volumeReadOnly;
      position := 0;
    }

    /** FatSetPosition on a file; all ones stand for the end of the file. */
    method SetPosition(to: UInt64)
      requires file.fileSize < UINT32
      modifies this`position
      ensures position == if to == UINT64 - 1 then file.fileSize else to
    {
      position := if to == UINT64 - 1 then file.fileSize else to;
    }

    /** FatIFileAccess, reading without a token.  The end of the request is computed in 64 bits;
        where it wraps the request is not clipped to the file. */
    method Read(v: FatVolume, n: UInt64, ghost id: nat, ghost files: map<nat, File>, ghost bytes: map<nat, seq<Byte>>)
      returns (status: Status, out: seq<Byte>)
      requires Open(v, file, id, files, bytes)
      modifies v`fatEntryPos, v`fatEntryBuffer, file`fileCurrentCluster, file`position, file`posDisk, file`posRem
      modifies file`error, this`position
      ensures Open(v, file, id, files, bytes) && id in bytes && |bytes[id]| == file.fileSize && v.clusterSize > 0
      ensures ReadOutcome(v.clusterSize, bytes[id], old(position), n, old(file.error), status, out, position,
        file.error)
    {
      hide Open, ReadOutcome, RoomFor, View, Stretch;
      OpenRoom(v, file, id, files, bytes);
      NothingRead(v.clusterSize, bytes[id], position, n, file.error);
      if position > file.fileSize {
        return DeviceError, [];
      }
      if file.error != Success {
        return file.error, [];
      }
      var endPosition := (position + n) % UINT64;
      var size := n;
      if endPosition > file.fileSize {
        size := Clipped(n, endPosition);
      }
      OpenAt(v, file, id, files, bytes);
      ghost var view := View(v.Area(), v.data, Chained(files[id].chain));
      status, out := ReadThrough(v, size, id, files, bytes);
      SomeRead(v.clusterSize, view, file.fileSize, position, n, size, status, out);
      position := position + |out|;
      file.error := status;
    }

    /** The size of a read that is cut off at the end of the file. */
    function Clipped(n: UInt64, endPosition: UInt64): (size: nat)
      requires position <= file.fileSize < endPosition && endPosition == (position + n) % UINT64
        && file.fileSize < UINT32
      reads this`position, file`fileSize
      ensures position + size == file.fileSize && position + n < UINT64
    {
      WrappedEnd(position, n);
      n - (endPosition - file.fileSize)
    }

    method ReadThrough(v: FatVolume, size: nat, ghost id: nat, ghost files: map<nat, File>, ghost bytes: map<nat,
        seq<Byte>>)
      returns (status: Status, out: seq<Byte>)
      requires Open(v, file, id, files, bytes)
      modifies v`fatEntryPos, v`fatEntryBuffer, file`fileCurrentCluster, file`position, file`posDisk, file`posRem
      ensures Open(v, file, id, files, bytes) && v.clusterSize > 0
      ensures ExtentOk(v.Area(), Chained(files[id].chain)) && v.Area().Fits(v.data)
      ensures Obtained(View(v.Area(), v.data, Chained(files[id].chain)), position, size, status, out)
    {
      hide FatVolume.Packed, Start, Contents, FileOk, InPlace, FileBytes, View, RoomFor;
      OpenAt(v, file, id, files, bytes);
      status, out := ReadOFile(v, file, position, size, Chained(files[id].chain));
    }

    /** FatIFileAccess, writing without a token. */
    method Write(v: FatVolume, b: seq<Byte>, ghost id: nat, ghost files: map<nat, File>,
        ghost bytes: map<nat, seq<Byte>>)
      returns (status: Status, done: nat, ghost files': map<nat, File>, ghost bytes': map<nat, seq<Byte>>)
      requires Open(v, file, id, files, bytes) && |b| < UINT64
      modifies v`fat, v`fatEntryPos, v`fatEntryBuffer, v`info, v`freeInfoValid, v`fatDirty, v`table, v`data
      modifies file`fileSize, file`fileCluster, file`fileCurrentCluster, file`fileLastCluster, file`dirty
      modifies file`position, file`posDisk, file`posRem, file`archive, file`error, this`position
      ensures id in bytes && id in bytes' && Open(v, file, id, files', bytes') && bytes' == bytes[id := bytes'[id]]
      ensures id in files' && files' == files[id := files'[id]] && v.clusterSize > 0
      ensures volumeReadOnly ==> status == WriteProtected
      ensures !volumeReadOnly && readOnly ==> status == AccessDenied
      ensures !volumeReadOnly && !readOnly && old(file.error) != Success ==> status == old(file.error)
      ensures volumeReadOnly || readOnly || old(file.error) != Success ==>
        && done == 0 && position == old(position) && bytes' == bytes && file.error == old(file.error)
        && FreeCount(v.table) == FreeCount(old(v.table))
      ensures !volumeReadOnly && !readOnly && old(file.error) == Success ==>
        WriteOutcome(v.clusterSize, v.diskError, FreeCount(old(v.table)), bytes[id], old(position), b,
          status, done, FreeCount(v.table), bytes'[id], position, file.error)
    {
      hide Open, WriteOutcome, GrowStatus, Growth, CountFree, RoomFor, FatVolume.Packed, Patched;
      OpenRoom(v, file, id, files, bytes);
      files', bytes', done := files, bytes, 0;
      assert bytes == bytes[id := bytes[id]] && files == files[id := files[id]];
      if volumeReadOnly {
        return WriteProtected, 0, files', bytes';
      }
      if readOnly {
        return AccessDenied, 0, files', bytes';
      }
      if file.error != Success {
        return file.error, 0, files', bytes';
      }
      ghost var free := FreeCount(v.table);
      status, files', bytes' := MakeRoom(v, file, (position + |b|) % UINT64, id, files, bytes);
      if status != Success {
        NothingWritten(v.clusterSize, v.diskError, free, bytes[id], position, b, status);
        return;
      }
      OpenRoom(v, file, id, files', bytes');
      ghost var grown := bytes'[id];
      status, done, bytes' := WriteFile(v, file, position, b, id, files', bytes');
      SomeWritten(v.clusterSize, v.diskError, free, bytes[id], grown, position, b, status, done, FreeCount(v.table));
      position := position + done;
      file.error := status;
    }
  }

  /** What a write of `b` at position `p` of the file `s` comes to, with `free` free clusters:
      the answer, the bytes written, the free clusters, the file, position and error mark
      afterwards.  The end of the request is computed in 64 bits.  Where it wraps, the file
      may grow to the wrapped end, and then the write fails for good. */
  ghost predicate WriteOutcome(clusterSize: nat, stuck: bool, free: nat, s: seq<Byte>, p: nat, b: seq<Byte>,
      status: Status, done: nat, free': nat, s': seq<Byte>, p': nat, error': Status)
    requires clusterSize > 0
  {
    var end := (p + |b|) % UINT64;
    var grow := if end <= |s| then Success else GrowStatus(clusterSize, free, |s|, end, stuck);
    if grow != Success then
      status == grow && done == 0 && free' == free && s' == s && p' == p && error' == Success
    else
      && free' == free - (if end > |s| then Growth(clusterSize, |s|, end) else 0) && p' == p + done && error' == status
      && if p + |b| < UINT64 then
           status == Success && done == |b| && Written(s, p, b, s')
         else
           && status == VolumeCorrupted && |s'| == (if end > |s| then end else |s|) && Overlaid(s, p, b, s')
           && done == if p <= RoomFor(|s'|, clusterSize) then RoomFor(|s'|, clusterSize) - p else 0
  }

  lemma NothingWritten(clusterSize: nat, stuck: bool, free: nat, s: seq<Byte>, p: nat, b: seq<Byte>, status: Status)
    requires clusterSize > 0 && status != Success
    requires var end := (p + |b|) % UINT64; end > |s| && status == GrowStatus(clusterSize, free, |s|, end, stuck)
    ensures WriteOutcome(clusterSize, stuck, free, s, p, b, status, 0, free, s, p, Success)
  {
    hide GrowStatus, Growth, RoomFor;
  }

  lemma SomeWritten(clusterSize: nat, stuck: bool, free: nat, s: seq<Byte>, grown: seq<Byte>, p: nat, b: seq<Byte>,
      status: Status, done: nat, free': nat)
    requires clusterSize > 0 && p < UINT64 && |b| < UINT64 && |grown| <= RoomFor(|grown|, clusterSize) < 2 * UINT32
    requires var end := (p + |b|) % UINT64;
      if end > |s| then
        && GrowStatus(clusterSize, free, |s|, end, stuck) == Success && s <= grown && |grown| == end
        && free' == free - Growth(clusterSize, |s|, end)
      else grown == s && free' == free
    requires var room := RoomFor(|grown|, clusterSize);
      && (p + |b| <= |grown| ==> done == |b|) && status == (if done == |b| then Success else VolumeCorrupted)
      && done == if b == [] || p + |b| <= room then |b| else if p <= room then room - p else 0
    ensures WriteOutcome(clusterSize, stuck, free, s, p, b, status, done, free', Patched(grown, p, b), p + done, status)
    ensures p + done < UINT64
  {
    hide GrowStatus, Growth, RoomFor, Patched, Written, Overlaid;
    OverGrown(s, grown, p, b, Patched(grown, p, b));
    WrappedEnd(p, |b|);
  }

  lemma Wraps(q: int, r: nat)
    requires r < UINT64
    ensures (UINT64 * q + r) % UINT64 == r
  {
  }

  /** Writing 100 bytes 16 bytes below the highest position of an empty file: the file gets 84
      bytes, none of them written, and is not to be read any more. */
  method WrappedWrite(v: FatVolume, h: Handle, b: seq<Byte>, ghost id: nat, ghost files: map<nat, File>,
      ghost bytes: map<nat, seq<Byte>>)
    returns (wrote: Status, done: nat, read: Status, out: seq<Byte>, ghost files': map<nat, File>,
      ghost bytes': map<nat, seq<Byte>>)
    requires v.clusterSize > 0 && Open(v, h.file, id, files, bytes) && h.file.fileSize == 0
      && !h.volumeReadOnly && !h.readOnly && h.file.error == Success && |b| == 100
    requires !v.diskError && FreeCount(v.table) >= Growth(v.clusterSize, 0, 84)
    modifies v, h, h.file
    ensures Open(v, h.file, id, files', bytes') && id in bytes' && |bytes'[id]| == 84
      && bytes' == bytes[id := bytes'[id]]
    ensures wrote == VolumeCorrupted && done == 0 && read == VolumeCorrupted && out == [] && h.position == 0
  {
    hide Open, Growth, CountFree, RoomFor, FatVolume.Packed, Overlaid, Written;
    OpenSize(v, h.file, id, files, bytes);
    h.SetPosition(UINT64 - 16);
    WrappedEnd(UINT64 - 16, 100);
    wrote, done, files', bytes' := h.Write(v, b, id, files, bytes);
    OpenRoom(v, h.file, id, files', bytes');
    h.SetPosition(0);
    read, out := h.Read(v, 84, id, files', bytes');
  }

  lemma RoomBound(size: nat, clusterSize: nat)
    requires 0 < clusterSize < UINT32 && size < UINT32
    ensures size <= RoomFor(size, clusterSize) < 2 * UINT32
  {
    var n := ClustersOf(size, clusterSize);
    if n > 0 {
      StartStep(n - 1, clusterSize);
    }
  }

  lemma OpenRoom(v: FatVolume, f: OFile, id: nat, files: map<nat, File>, bytes: map<nat, seq<Byte>>)
    requires Open(v, f, id, files, bytes)
    ensures id in bytes && id in files && |bytes[id]| == f.fileSize < UINT32 && v.clusterSize > 0
    ensures f.fileSize <= RoomFor(f.fileSize, v.clusterSize) < 2 * UINT32
  {
    hide RoomFor, Keeps;
    OpenSize(v, f, id, files, bytes);
    assert Keeps(v, files, bytes) && v.clusterSize > 0 by {
      KeepsSize(v, files, bytes);
    }
    RoomBound(f.fileSize, v.clusterSize);
  }

  lemma KeepsSize(v: FatVolume, files: map<nat, File>, bytes: map<nat, seq<Byte>>)
    requires Keeps(v, files, bytes)
    ensures v.clusterSize > 0
  {
  }

  /** What a read of `n` bytes at position `p` of the file `s` comes to.  Where the end of the
      request wraps at 64 bits it is not clipped to the file: the bytes to the end of the
      file's clusters come back, and the file fails for good. */
  ghost predicate ReadOutcome(clusterSize: nat, s: seq<Byte>, p: nat, n: nat, error: Status,
      status: Status, out: seq<Byte>, p': nat, error': Status)
    requires clusterSize > 0
  {
    if p > |s| then status == DeviceError && out == [] && p' == p && error' == error
    else if error != Success then status == error && out == [] && p' == p && error' == error
    else if p + n < UINT64 then
      var end := if p + n <= |s| then p + n else |s|;
      status == Success && out == s[p..end] && p' == end && error' == Success
    else
      && status == VolumeCorrupted && s[p..] <= out && p' == p + |out| == RoomFor(|s|, clusterSize)
      && error' == VolumeCorrupted
  }

  /** The bytes of the clusters from `p` on, as far as they go. */
  ghost predicate Obtained(view: seq<Byte>, p: nat, n: nat, status: Status, out: seq<Byte>) {
    && |out| == (if n == 0 || p + n <= |view| then n else if p <= |view| then |view| - p else 0)
    && (out != [] ==> p + |out| <= |view| && out == Stretch(view, p, |out|))
    && status == if |out| == n then Success else VolumeCorrupted
  }

  lemma NothingRead(clusterSize: nat, s: seq<Byte>, p: nat, n: nat, error: Status)
    requires clusterSize > 0
    ensures p > |s| ==> ReadOutcome(clusterSize, s, p, n, error, DeviceError, [], p, error)
    ensures p <= |s| && error != Success ==> ReadOutcome(clusterSize, s, p, n, error, error, [], p, error)
  {
  }

  lemma SomeRead(clusterSize: nat, view: seq<Byte>, size: nat, p: nat, n: nat, clipped: nat, status: Status,
      out: seq<Byte>)
    requires 0 < clusterSize && p <= size <= |view| == RoomFor(size, clusterSize) < 2 * UINT32 && size < UINT32
      && n < UINT64
    requires clipped == if (p + n) % UINT64 > size then size - p else n
    requires Obtained(view, p, clipped, status, out)
    ensures ReadOutcome(clusterSize, Stretch(view, 0, size), p, n, Success, status, out, p + |out|, status)
    ensures p + |out| < UINT64
  {
    hide RoomFor;
    WrappedEnd(p, n);
    ReadFront(view, size, p, |out|);
  }

  lemma WrappedEnd(p: nat, n: nat)
    requires p < UINT64 && n < UINT64
    ensures (p + n) % UINT64 == if p + n < UINT64 then p + n else p + n - UINT64
  {
    if p + n < UINT64 {
      Wraps(0, p + n);
    } else {
      Wraps(1, p + n - UINT64);
    }
  }

  /** The part of what was read that is in the file. */
  lemma ReadFront(view: seq<Byte>, size: nat, p: nat, n: nat)
    requires p <= size <= |view| && p + n <= |view|
    ensures p + n <= size ==> Stretch(view, p, n) == Stretch(view, 0, size)[p..p + n]
    ensures size <= p + n ==> Stretch(view, 0, size)[p..] <= Stretch(view, p, n)
  {
    var file, out := Stretch(view, 0, size), Stretch(view, p, n);
    assert p + n <= size ==> file[p..p + n] == out;
    assert size <= p + n ==> file[p..] == out[..size - p];
  }

  /** `t` has the bytes of `s`, and from `p` on those of `b` as far as it goes; it says nothing
      of bytes behind the end of `s` and in front of `p`. */
  ghost predicate Overlaid(s: seq<Byte>, p: nat, b: seq<Byte>, t: seq<Byte>) {
    && |s| <= |t| <= p + |b|
    && (forall i {:trigger t[i]} :: p <= i < |t| ==> t[i] == b[i - p])
    && (forall i {:trigger t[i]} :: 0 <= i < |s| && i < p ==> t[i] == s[i])
  }

  /** Writing over a file that has grown, or has not. */
  lemma OverGrown(s: seq<Byte>, grown: seq<Byte>, p: nat, b: seq<Byte>, t: seq<Byte>)
    requires s <= grown && t == Patched(grown, p, b)
    ensures p + |b| <= |grown| && (s == grown || |grown| == p + |b|) ==> Written(s, p, b, t)
    ensures |grown| <= p + |b| ==> Overlaid(s, p, b, t)
  {
  }

  /** `t` is `s` with `b` written at `pos`; a write beyond the end makes it as long as
      needed, and says nothing of the bytes between the old end and `pos`. */
  ghost predicate Written(s: seq<Byte>, pos: nat, b: seq<Byte>, t: seq<Byte>) {
    && |t| == (if pos + |b| <= |s| then |s| else pos + |b|)
    && (forall i {:trigger t[i]} :: pos <= i < pos + |b| ==> t[i] == b[i - pos])
    && (forall i {:trigger t[i]} :: 0 <= i < |s| && !(pos <= i < pos + |b|) ==> t[i] == s[i])
  }
}

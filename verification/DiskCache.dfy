/** The write-back disk cache and the general disk access that goes through it.
    All I/O is blocking and succeeds; the only error left is an access beyond the
    volume.  Two flat byte sequences, `view[FAT]` (the first FAT) and `view[DATA]`
    (everything from the root directory on), say what readers must see. */
module DiskCache {
  import opened Bytes
  import opened CacheImage
  import opened FatCopies
  import opened FatTypes

  datatype IoMode = ReadDisk | WriteDisk | ReadFat | WriteFat | ReadData | WriteData

  /** One access to the volume through FatDiskIo, or a flush; and what it reports. */
  datatype Op =
    | Read(mode: IoMode, offset: nat, n: nat)
    | Write(mode: IoMode, offset: nat, b: seq<Byte>)
    | Flush

  datatype Answer = Answer(status: Status, bytes: seq<Byte>)

  /** The specification: the same access on one flat byte array. */
  function FlatAnswer(mem: seq<Byte>, op: Op): Answer {
    match op
    case Read(_, offset, n) =>
      if offset + n <= |mem| then Answer(Success, Stretch(mem, offset, n)) else Answer(VolumeCorrupted, [])
    case Write(_, offset, b) =>
      if offset + |b| <= |mem| then Answer(Success, []) else Answer(VolumeCorrupted, [])
    case Flush => Answer(Success, [])
  }

  function FlatAfter(mem: seq<Byte>, op: Op): seq<Byte> {
    match op
    case Write(_, offset, b) => if offset + |b| <= |mem| then Splice(mem, offset, b) else mem
    case _ => mem
  }

  function FlatRun(mem: seq<Byte>, ops: seq<Op>): seq<Byte> {
    if ops == [] then mem else FlatAfter(FlatRun(mem, ops[..|ops| - 1]), ops[|ops| - 1])
  }

  function FlatAnswers(mem: seq<Byte>, ops: seq<Op>): seq<Answer> {
    if ops == [] then []
    else FlatAnswers(mem, ops[..|ops| - 1]) + [FlatAnswer(FlatRun(mem, ops[..|ops| - 1]), ops[|ops| - 1])]
  }

  lemma FlatRunStep(mem: seq<Byte>, ops: seq<Op>, i: nat)
    requires i < |ops|
    ensures FlatRun(mem, ops[..i + 1]) == FlatAfter(FlatRun(mem, ops[..i]), ops[i])
    ensures FlatAnswers(mem, ops[..i + 1]) == FlatAnswers(mem, ops[..i]) + [FlatAnswer(FlatRun(mem, ops[..i]), ops[i])]
  {
    assert ops[..i + 1][..i] == ops[..i];
  }

  /** Where an access in this mode may go: raw accesses to the reserved area before
      the FAT, FAT accesses inside the first FAT, data accesses behind all FATs. */
  predicate InWindowOf(l: Layout, mode: IoMode, offset: nat, n: nat) {
    match mode
    case ReadDisk | WriteDisk => offset + n <= l.fatPos
    case ReadFat | WriteFat => l.fatPos <= offset && offset + n <= l.fatPos + l.fatSize
    case ReadData | WriteData => l.rootPos <= offset && offset + n <= l.volumeSize
  }

  /** `mem` is the reserved area, the first FAT and the data window side by side.  The
      FAT copies after the first are nobody's to read and left open. */
  ghost predicate FlatView(l: Layout, reserved: seq<Byte>, view: seq<seq<Byte>>, mem: seq<Byte>) {
    && l.Valid() && |mem| == l.volumeSize && |view| == 2
    && Stretch(mem, 0, l.fatPos) == reserved
    && Stretch(mem, l.fatPos, l.fatSize) == view[FAT]
    && Stretch(mem, l.rootPos, l.volumeSize - l.rootPos) == view[DATA]
  }

  lemma FlatViewRead(l: Layout, reserved: seq<Byte>, view: seq<seq<Byte>>, mem: seq<Byte>, mode: IoMode, offset: nat,
      n: nat)
    requires FlatView(l, reserved, view, mem)
    ensures |mem| == l.volumeSize
    ensures offset + n <= l.volumeSize && InWindowOf(l, mode, offset, n) ==>
      match mode
      case ReadDisk | WriteDisk => offset + n <= |reserved| && Stretch(mem, offset, n) == Stretch(reserved, offset, n)
      case ReadFat | WriteFat =>
        offset + n - l.fatPos <= |view[FAT]| && Stretch(mem, offset, n) == Stretch(view[FAT], offset - l.fatPos, n)
      case ReadData | WriteData =>
        offset + n - l.rootPos <= |view[DATA]| && Stretch(mem, offset, n) == Stretch(view[DATA], offset - l.rootPos, n)
  {
    StretchOfStretch(mem, 0, l.fatPos, offset, n);
    StretchOfStretch(mem, l.fatPos, l.fatSize, offset, n);
    StretchOfStretch(mem, l.rootPos, l.volumeSize - l.rootPos, offset, n);
  }

  lemma FlatViewWrite(l: Layout, reserved: seq<Byte>, view: seq<seq<Byte>>, mem: seq<Byte>, mode: IoMode, offset: nat,
      b: seq<Byte>)
    requires FlatView(l, reserved, view, mem)
    ensures |mem| == l.volumeSize
    ensures offset + |b| <= l.volumeSize && InWindowOf(l, mode, offset, |b|) ==>
      match mode
      case ReadDisk | WriteDisk => offset + |b| <= |reserved|
          && FlatView(l, Splice(reserved, offset, b), view, Splice(mem, offset, b))
      case ReadFat | WriteFat =>
        && offset + |b| - l.fatPos <= |view[FAT]|
        && FlatView(l, reserved, view[FAT := Splice(view[FAT], offset - l.fatPos, b)], Splice(mem, offset, b))
      case ReadData | WriteData =>
        && offset + |b| - l.rootPos <= |view[DATA]|
        && FlatView(l, reserved, view[DATA := Splice(view[DATA], offset - l.rootPos, b)], Splice(mem, offset, b))
  {
    if offset + |b| <= l.volumeSize {
      StretchOfSplice(mem, 0, l.fatPos, offset, b);
      StretchOfSplice(mem, l.fatPos, l.fatSize, offset, b);
      StretchOfSplice(mem, l.rootPos, l.volumeSize - l.rootPos, offset, b);
    }
  }

  lemma FlushedIsFlat(l: Layout, reserved: seq<Byte>, view: seq<seq<Byte>>, mem: seq<Byte>, disk: seq<Byte>)
    requires FlatView(l, reserved, view, mem) && |disk| == l.volumeSize && Stretch(disk, 0, l.fatPos) == reserved
    requires disk[l.fatPos..l.fatPos + l.fatSize] == view[FAT] && disk[l.rootPos..] == view[DATA]
    ensures |mem| == |disk| && disk[..l.fatPos] == mem[..l.fatPos]
    ensures disk[l.fatPos..l.fatPos + l.fatSize] == mem[l.fatPos..l.fatPos + l.fatSize]
    ensures disk[l.rootPos..] == mem[l.rootPos..]
  {
    assert mem[0..l.fatPos] == mem[..l.fatPos] && disk[0..l.fatPos] == disk[..l.fatPos];
    assert mem[l.rootPos..|mem|] == mem[l.rootPos..];
  }

  /** How FatAccessCache splits a request: `underLength` bytes from `underRun` on in page
      `pageNo`, `alignedPageCount` whole pages from `firstPage` on, `overRun` bytes of the
      page after them. */
  datatype Split = Split(pageNo: nat, underRun: nat, underLength: nat, firstPage: nat, alignedPageCount: nat,
      overRun: nat)

  function Splitting(pageSize: nat, entryPos: nat, n: nat): (s: Split)
    requires pageSize > 0
    ensures s.underRun == 0 ==> s.underLength == 0
    ensures s.underRun > 0 ==> Start(s.pageNo, pageSize) + s.underRun == entryPos
    ensures s.underRun + s.underLength <= pageSize && s.overRun < pageSize
    ensures s.underLength + Start(s.alignedPageCount, pageSize) + s.overRun == n
    ensures s.alignedPageCount > 0 || s.overRun > 0 ==> entryPos + s.underLength == Start(s.firstPage, pageSize)
    ensures Start(s.firstPage + s.alignedPageCount, pageSize) ==
      Start(s.firstPage, pageSize) + Start(s.alignedPageCount, pageSize)
    ensures s.alignedPageCount == 0 ==> Start(s.alignedPageCount, pageSize) == 0
    ensures n < pageSize ==> s.alignedPageCount == 0
  {
    var pageNo, underRun := Unit(entryPos, pageSize), Rest(entryPos, pageSize);
    var length := if underRun == 0 then 0 else if pageSize - underRun > n then n else pageSize - underRun;
    var firstPage := if underRun == 0 then pageNo else pageNo + 1;
    var count := Unit(n - length, pageSize);
    StartPlus(firstPage, count, pageSize);
    StartStep(pageNo, pageSize);
    StartMono(1, count, pageSize);
    Split(pageNo, underRun, length, firstPage, count, n - length - Start(count, pageSize))
  }

  /** The parts of a request inside the window are, too. */
  lemma SplitFits(g: Geometry, entryPos: nat, n: nat)
    requires g.Valid() && entryPos + n <= g.Size()
    ensures var s := Splitting(g.pageSize, entryPos, n);
      && (s.underRun > 0 ==>
            g.HasPage(s.pageNo) && Start(s.pageNo, g.pageSize) + s.underRun + s.underLength <= g.Size())
      && (s.alignedPageCount > 0 ==> Start(s.firstPage, g.pageSize) + Start(s.alignedPageCount, g.pageSize) <= g.Size())
      && (s.overRun > 0 ==>
            && g.HasPage(s.firstPage + s.alignedPageCount)
            && Start(s.firstPage + s.alignedPageCount, g.pageSize) + s.overRun <= g.Size())
  {
    hide Start, Splitting;
  }

  /** Empty caches over their windows. */
  lemma FreshCaches(l: Layout, fatGeo: Geometry, dataGeo: Geometry, disk: seq<Byte>)
    requires Windows(l, [fatGeo, dataGeo]) && |disk| == l.volumeSize
    ensures l.fatPos + l.fatSize <= l.rootPos <= |disk|
    ensures fatGeo.Size() == l.fatSize && dataGeo.Size() == l.volumeSize - l.rootPos
    ensures var im, view := EmptyImage(fatGeo), Stretch(disk, l.fatPos, l.fatSize);
      Shaped(fatGeo, im) && Represents(fatGeo, im, disk, view) && AllClean(im.tags)
    ensures var im, view := EmptyImage(dataGeo), disk[l.rootPos..];
      Shaped(dataGeo, im) && Represents(dataGeo, im, disk, view) && AllClean(im.tags)
  {
    FreshRepresents(fatGeo, EmptyImage(fatGeo), disk);
    FreshRepresents(dataGeo, EmptyImage(dataGeo), disk);
  }

  /** The cache side of FAT_VOLUME: the caches `images[FAT]` and `images[DATA]`. */
  class Volume {
    const layout: Layout
    const geo: seq<Geometry>
    ghost const mirrored: bool
    var disk: seq<Byte>
    var images: seq<Image>
    var dirty: seq<bool>
    var diskError: bool
    ghost var view: seq<seq<Byte>>
    ghost var reserved: seq<Byte>

    ghost predicate Geometric() {
      Windows(layout, geo)
    }

    ghost predicate Valid()
      reads this
    {
      && Geometric()
      && |images| == |dirty| == |view| == 2
      && |disk| == layout.volumeSize
      && Over(FAT)
      && Over(DATA)
      && (mirrored ==> layout.Mirrored(disk))
      && Stretch(disk, 0, layout.fatPos) == reserved
    }

    /** Cache `c` over the disk stands for `view[c]`, and no dirty page escapes the
        cache-wide flag. */
    ghost predicate Over(c: Which)
      requires Geometric() && |images| == |dirty| == |view| == 2
      reads this
    {
      && |view[c]| == geo[c].Size()
      && Shaped(geo[c], images[c])
      && Represents(geo[c], images[c], disk, view[c])
      && (!dirty[c] ==> AllClean(images[c].tags))
    }

    predicate InWindow(mode: IoMode, offset: nat, n: nat)
      requires Geometric()
    {
      InWindowOf(layout, mode, offset, n) && (mode in {ReadFat, WriteFat} ==> n < geo[FAT].pageSize)
    }

    /** FatInitializeDiskCache: page and group sizes by FAT type, all slots empty. */
    constructor (layout: Layout, fatType: FatType, disk: seq<Byte>)
      requires layout.Valid() && |disk| == layout.volumeSize
      ensures Valid() && this.layout == layout && this.disk == disk && !diskError
      ensures mirrored <==> layout.Mirrored(disk)
      ensures view == [Stretch(disk, layout.fatPos, layout.fatSize), disk[layout.rootPos..]]
      ensures reserved == Stretch(disk, 0, layout.fatPos) && Shows(disk)
      ensures fatType == Fat12 ==> geo[FAT].groups == 1 && geo[FAT].pageSize == geo[DATA].pageSize == 0x2000
      ensures fatType != Fat12 ==>
        geo[FAT].groups == 16 && geo[FAT].pageSize == 0x8000 && geo[DATA].pageSize == 0x1_0000
      ensures geo[DATA].groups == 64
    {
      var fatGroups, fatPage, dataPage := 16, 0x8000, 0x10000;
      if fatType == Fat12 {
        fatGroups, fatPage, dataPage := 1, 0x2000, 0x2000;
      }
      var fatGeo := Geometry(layout.fatPos, layout.fatPos + layout.fatSize, fatPage, fatGroups);
      var dataGeo := Geometry(layout.rootPos, layout.volumeSize, dataPage, 64);
      this.layout := layout;
      this.geo := [fatGeo, dataGeo];
      this.mirrored := layout.Mirrored(disk);
      this.disk := disk;
      images := [EmptyImage(fatGeo), EmptyImage(dataGeo)];
      dirty := [false, false];
      diskError := false;
      view := [Stretch(disk, layout.fatPos, layout.fatSize), disk[layout.rootPos..]];
      reserved := Stretch(disk, 0, layout.fatPos);
      new;
      hide Layout.Valid, Layout.Mirrored, Represents, Shaped, Geometry.Valid, AllClean;
      FreshCaches(layout, fatGeo, dataGeo, disk);
    }

    /** FatExchangeCachePage with WriteDisk: write the page of slot `k` back, a FAT
        page to every copy of the FAT. */
    method StorePage(c: Which, k: nat)
      requires Valid() && k < geo[c].groups && images[c].tags[k].realSize > 0
      modifies this`disk, this`images
      ensures Valid()
      ensures images == old(images)[c := Cleaned(old(images)[c], k)]
    {
      hide Start, Rest, Unit, CopiesWritten, Represents, Layout.Mirrored, Layout.Valid;
      WriteBack(layout, geo, images, disk, view, c, k);
      var im := images[c];
      WriteCopies(EntryPos(geo[c], im, k), im.pages[k][..im.tags[k].realSize], WriteCount(layout, c));
      images := images[c := Cleaned(im, k)];
    }

    /** The loop of FatExchangeCachePage: the same bytes at `writeCount` strides. */
    method WriteCopies(pos: nat, b: seq<Byte>, writeCount: nat)
      requires writeCount > 0 && pos + Start(writeCount - 1, layout.fatSize) + |b| <= |disk|
      modifies this`disk
      ensures disk == CopiesWritten(old(disk), pos, layout.fatSize, writeCount, b)
    {
      hide Start, Splice;
      ghost var was, done := disk, 0;
      var entryPos, left := pos, writeCount;
      StartStep(0, layout.fatSize);
      while true
        invariant 0 < left && left + done == writeCount
        invariant entryPos == pos + Start(done, layout.fatSize) && entryPos + |b| <= |was|
        invariant done > 0 ==> pos + Start(done - 1, layout.fatSize) + |b| <= |was|
        invariant disk == CopiesWritten(was, pos, layout.fatSize, done, b)
        decreases left
      {
        DeviceWrite(entryPos, b);
        StartStep(done, layout.fatSize);
        entryPos := entryPos + layout.fatSize;
        left := left - 1;
        done := done + 1;
        if left == 0 {
          break;
        }
        StartMono(done, writeCount - 1, layout.fatSize);
      }
    }

    /** A blocking raw transfer to the device. */
    method DeviceWrite(pos: nat, b: seq<Byte>)
      requires pos + |b| <= |disk|
      modifies this`disk
      ensures disk == Splice(old(disk), pos, b)
    {
      disk := Splice(disk, pos, b);
    }

    /** FatExchangeCachePage with ReadDisk: fill the slot of page `p`, which must have
        nothing left to write back, with as much of the page as the window holds. */
    method LoadPage(c: Which, p: nat)
      requires Valid() && geo[c].HasPage(p)
      requires var t := images[c].tags[geo[c].Slot(p)]; t.realSize > 0 ==> !t.dirty
      modifies this`images
      ensures Valid() && Holds(geo[c], images[c], p)
    {
      hide Start, Rest, Unit, Represents;
      var im, g := images[c], geo[c];
      var k := g.Slot(p);
      var entryPos := g.base + Start(p, g.pageSize);
      var realSize := g.pageSize;
      var maxSize := g.limit - entryPos;
      if maxSize < realSize {
        realSize := maxSize;
      }
      var page := Stretch(disk, entryPos, realSize) + im.pages[k][realSize..];
      LoadKeeps(g, im, disk, view[c], p, page);
      images := images[c := Image(im.tags[k := Tag(p, realSize, false)], im.pages[k := page])];
    }

    /** FatGetCachePage: make the slot of page `p` hold it. */
    method GetCachePage(c: Which, p: nat)
      requires Valid() && geo[c].HasPage(p)
      modifies this`disk, this`images
      ensures Valid() && Holds(geo[c], images[c], p)
      ensures old(Holds(geo[c], images[c], p)) ==> disk == old(disk) && images == old(images)
    {
      hide Represents;
      var k := geo[c].Slot(p);
      var tag := images[c].tags[k];
      if tag.realSize > 0 && tag.pageNo == p {
        return;
      }
      if tag.realSize > 0 && tag.dirty {
        StorePage(c, k);
      }
      LoadPage(c, p);
    }

    /** FatAccessUnalignedCachePage, reading. */
    method ReadUnaligned(c: Which, p: nat, offset: nat, length: nat) returns (out: seq<Byte>)
      requires Valid() && geo[c].HasPage(p)
      requires offset + length <= geo[c].pageSize && Start(p, geo[c].pageSize) + offset + length <= geo[c].Size()
      modifies this`disk, this`images
      ensures Valid() && out == Stretch(view[c], Start(p, geo[c].pageSize) + offset, length)
    {
      hide Start, Rest, Unit, Represents;
      GetCachePage(c, p);
      StretchOfPage(geo[c], images[c], disk, view[c], p, offset, length);
      out := Stretch(images[c].pages[geo[c].Slot(p)], offset, length);
    }

    /** FatAccessUnalignedCachePage, writing. */
    method WriteUnaligned(c: Which, p: nat, offset: nat, b: seq<Byte>)
      requires Valid() && geo[c].HasPage(p)
      requires offset + |b| <= geo[c].pageSize && Start(p, geo[c].pageSize) + offset + |b| <= geo[c].Size()
      modifies this`disk, this`images, this`dirty, this`view
      ensures Valid() && view == old(view)[c := Splice(old(view)[c], Start(p, geo[c].pageSize) + offset, b)]
    {
      hide Start, Rest, Unit, Represents;
      GetCachePage(c, p);
      var im := images[c];
      var k := geo[c].Slot(p);
      SlotWrite(geo[c], im, disk, view[c], p, offset, b);
      images := images[c := Image(im.tags[k := im.tags[k].(dirty := true)],
          im.pages[k := Splice(im.pages[k], offset, b)])];
      dirty := dirty[c := true];
      view := view[c := Splice(view[c], Start(p, geo[c].pageSize) + offset, b)];
    }

    /** FatFlushDataCacheRange for a read: `buffer` came straight from the disk; pages
        of `first..last` that are dirty in the cache are newer and replace their part. */
    method OverlayDirtyPages(first: nat, last: nat, buffer: seq<Byte>) returns (out: seq<Byte>)
      requires Valid() && first <= last && Start(last, geo[DATA].pageSize) <= geo[DATA].Size()
      requires Start(first, geo[DATA].pageSize) + |buffer| == Start(last, geo[DATA].pageSize)
      requires buffer == Stretch(disk, layout.rootPos + Start(first, geo[DATA].pageSize), |buffer|)
      ensures out == Stretch(view[DATA], Start(first, geo[DATA].pageSize), |buffer|)
    {
      hide Start, Rest, Unit, Represents, Layout.Mirrored, Reconciled, Splice, Stretch;
      var g, im := geo[DATA], images[DATA];
      out := buffer;
      ReconciledNone(g, disk, view[DATA], first, last, |buffer|);
      var pageNo := first;
      while pageNo < last
        invariant first <= pageNo <= last
        invariant Start(first, g.pageSize) <= Start(pageNo, g.pageSize) <= Start(last, g.pageSize)
        invariant |out| == |buffer| && out == Reconciled(g, disk, view[DATA], first, pageNo, |buffer|)
      {
        StartStep(pageNo, g.pageSize);
        StartMono(pageNo + 1, last, g.pageSize);
        ReconcilePage(g, im, disk, view[DATA], first, pageNo, |buffer|);
        var groupNo := g.Slot(pageNo);
        var tag := im.tags[groupNo];
        if tag.realSize > 0 && tag.pageNo == pageNo {
          if tag.dirty {
            out := Splice(out, Start(pageNo, g.pageSize) - Start(first, g.pageSize), im.pages[groupNo]);
          }
        }
        pageNo := pageNo + 1;
      }
    }

    /** The aligned part of a read. */
    method ReadPages(first: nat, count: nat) returns (out: seq<Byte>)
      requires Valid() && Start(first, geo[DATA].pageSize) + Start(count, geo[DATA].pageSize) <= geo[DATA].Size()
      ensures out == Stretch(view[DATA], Start(first, geo[DATA].pageSize), Start(count, geo[DATA].pageSize))
    {
      hide Start, Over, Layout.Mirrored;
      StartPlus(first, count, geo[DATA].pageSize);
      var entryPos := layout.rootPos + Start(first, geo[DATA].pageSize);
      var buffer := Stretch(disk, entryPos, Start(count, geo[DATA].pageSize));
      out := OverlayDirtyPages(first, first + count, buffer);
    }

    /** FatFlushDataCacheRange for a write: the disk is newer, so the cache forgets the
        pages of `first..last`. */
    method DropPages(first: nat, last: nat)
      requires |images| == 2 && |geo| == 2 && Shaped(geo[DATA], images[DATA])
      modifies this`images
      ensures images == old(images)[DATA := old(images)[DATA].(tags := Dropped(geo[DATA], old(images)[DATA].tags,
        first, last))]
    {
      var g := geo[DATA];
      var tags := images[DATA].tags;
      ghost var was := tags;
      var pageNo := first;
      while pageNo < last
        invariant images == old(images) && |tags| == g.groups && (first <= last ==> pageNo <= last)
        invariant Dropped(g, tags, pageNo, last) == Dropped(g, was, first, last)
        decreases last - pageNo
      {
        ghost var before := tags;
        var groupNo := g.Slot(pageNo);
        if tags[groupNo].realSize > 0 && tags[groupNo].pageNo == pageNo {
          tags := tags[groupNo := tags[groupNo].(realSize := 0)];
        }
        DropStep(g, before, pageNo, last);
        pageNo := pageNo + 1;
      }
      images := images[DATA := images[DATA].(tags := tags)];
    }

    /** The aligned part of a write: whole pages go straight to the disk. */
    method WritePages(first: nat, b: seq<Byte>, count: nat)
      requires Valid() && Start(first, geo[DATA].pageSize) + Start(count, geo[DATA].pageSize) <= geo[DATA].Size()
      requires |b| == Start(count, geo[DATA].pageSize)
      modifies this`disk, this`images, this`view
      ensures Valid() && view == old(view)[DATA := Splice(old(view)[DATA], Start(first, geo[DATA].pageSize), b)]
    {
      hide Start, Represents, Layout.Mirrored, Splice, Dropped;
      StartPlus(first, count, geo[DATA].pageSize);
      var entryPos := layout.rootPos + Start(first, geo[DATA].pageSize);
      DirectWrite(geo[DATA], images[DATA], disk, view[DATA], first, first + count, b);
      DataWriteElsewhere(layout, geo, images, disk, view, entryPos, b);
      DroppedStaysClean(geo[DATA], images[DATA].tags, first, first + count);
      DeviceWrite(entryPos, b);
      DropPages(first, first + count);
      view := view[DATA := Splice(view[DATA], Start(first, geo[DATA].pageSize), b)];
    }

    lemma InOrder(c: Which)
      requires Valid()
      ensures |geo| == |view| == 2 && geo[c].Valid() && |view[c]| == geo[c].Size()
    {
    }

    /** FatAccessCache, reading `n` bytes at `offset`: underrun and overrun go through
        the cache, the whole pages between them straight to the disk.  The FAT is read
        in pieces smaller than a page, so it never has a whole page (ASSERT, line 350). */
    method ReadCache(c: Which, offset: nat, n: nat) returns (out: seq<Byte>)
      requires Valid() && geo[c].base <= offset && offset + n <= geo[c].limit
      requires c == FAT ==> n < geo[c].pageSize
      modifies this`disk, this`images
      ensures Valid() && out == Stretch(view[c], offset - geo[c].base, n)
    {
      hide Start, Splitting, Stretch, Volume.Valid, Volume.Geometric, Geometry.HasPage;
      InOrder(c);
      var pos := offset - geo[c].base;
      var s := Splitting(geo[c].pageSize, pos, n);
      SplitFits(geo[c], pos, n);
      StretchNone(view[c], pos);
      out := [];
      if s.underRun > 0 {
        out := ReadUnaligned(c, s.pageNo, s.underRun, s.underLength);
      }
      if s.alignedPageCount > 0 {
        var buffer := ReadPages(s.firstPage, s.alignedPageCount);
        StretchPlus(view[c], pos, |out|, |buffer|);
        out := out + buffer;
      }
      if s.overRun > 0 {
        var rest := ReadUnaligned(c, s.firstPage + s.alignedPageCount, 0, s.overRun);
        StretchPlus(view[c], pos, |out|, s.overRun);
        out := out + rest;
      }
    }

    /** FatAccessCache, writing `b` at `offset`. */
    method WriteCache(c: Which, offset: nat, b: seq<Byte>)
      requires Valid() && geo[c].base <= offset && offset + |b| <= geo[c].limit
      requires c == FAT ==> |b| < geo[c].pageSize
      modifies this`disk, this`images, this`dirty, this`view
      ensures Valid() && view == old(view)[c := Splice(old(view)[c], offset - geo[c].base, b)]
    {
      hide Start, Splitting, Splice, Volume.Valid, Volume.Geometric, Geometry.HasPage;
      InOrder(c);
      var pos := offset - geo[c].base;
      var s := Splitting(geo[c].pageSize, pos, |b|);
      SplitFits(geo[c], pos, |b|);
      var under, mid, over := b[..s.underLength], b[s.underLength..|b| - s.overRun], b[|b| - s.overRun..];
      SpliceParts(view[c], pos, under, mid, over);
      assert b == under + mid + over;
      if s.underRun > 0 {
        WriteUnaligned(c, s.pageNo, s.underRun, under);
      }
      if s.alignedPageCount > 0 {
        WritePages(s.firstPage, mid, s.alignedPageCount);
      }
      if s.overRun > 0 {
        WriteUnaligned(c, s.firstPage + s.alignedPageCount, 0, over);
      }
    }

    /** FatVolumeFlushCache without a task: write every dirty page of a dirty cache back. */
    method FlushCache()
      requires Valid()
      modifies this`disk, this`images, this`dirty
      ensures Valid() && dirty == [false, false]
      ensures disk[layout.fatPos..layout.fatPos + layout.fatSize] == view[FAT] && disk[layout.rootPos..] == view[DATA]
      ensures mirrored ==> layout.Mirrored(disk)
    {
      hide Start, Rest, Unit, Represents, Layout.Mirrored;
      var c: nat := 0;
      while c < 2
        invariant Valid() && c <= 2 && |dirty| == 2
        invariant forall d {:trigger dirty[d]} :: 0 <= d < c ==> !dirty[d]
      {
        if dirty[c] {
          FlushOne(c);
        }
        c := c + 1;
      }
      CleanIsDisk(geo[FAT], images[FAT], disk, view[FAT]);
      CleanIsDisk(geo[DATA], images[DATA], disk, view[DATA]);
    }

    /** The inner loop of FatVolumeFlushCache. */
    method FlushOne(c: Which)
      requires Valid()
      modifies this`disk, this`images, this`dirty
      ensures Valid() && dirty == old(dirty)[c := false]
    {
      hide Start, Rest, Unit, Represents, Layout.Mirrored;
      var groupIndex := 0;
      while groupIndex < geo[c].groups
        invariant Valid() && groupIndex <= geo[c].groups && dirty == old(dirty)
        invariant forall k {:trigger images[c].tags[k]} ::
          0 <= k < groupIndex && images[c].tags[k].realSize > 0 ==> !images[c].tags[k].dirty
        invariant images[1 - c] == old(images)[1 - c]
      {
        if images[c].tags[groupIndex].realSize > 0 && images[c].tags[groupIndex].dirty {
          StorePage(c, groupIndex);
        }
        groupIndex := groupIndex + 1;
      }
      dirty := dirty[c := false];
    }

    /** FatDiskIo, reading without a task. */
    method DiskRead(mode: IoMode, offset: nat, n: nat) returns (status: Status, out: seq<Byte>)
      requires Valid() && mode in {ReadDisk, ReadFat, ReadData}
      requires offset + n <= layout.volumeSize ==> InWindow(mode, offset, n)
      modifies this`disk, this`images, this`diskError
      ensures Valid()
      ensures offset + n > layout.volumeSize ==> status == VolumeCorrupted && diskError && out == []
      ensures offset + n <= layout.volumeSize ==> status == Success && diskError == old(diskError)
      ensures status == Success && mode == ReadDisk ==> out == Stretch(reserved, offset, n)
      ensures status == Success && mode == ReadFat ==> out == Stretch(view[FAT], offset - layout.fatPos, n)
      ensures status == Success && mode == ReadData ==> out == Stretch(view[DATA], offset - layout.rootPos, n)
    {
      hide Represents, Shaped, Layout.Mirrored;
      status, out := VolumeCorrupted, [];
      if offset + n <= layout.volumeSize {
        status := Success;
        if mode == ReadFat {
          out := ReadCache(FAT, offset, n);
        } else if mode == ReadData {
          out := ReadCache(DATA, offset, n);
        } else {
          StretchOfStretch(disk, 0, layout.fatPos, offset, n);
          out := Stretch(disk, offset, n);
        }
      } else {
        diskError := true;
      }
    }

    /** FatDiskIo, writing without a task. */
    method DiskWrite(mode: IoMode, offset: nat, b: seq<Byte>) returns (status: Status)
      requires Valid() && mode in {WriteDisk, WriteFat, WriteData}
      requires offset + |b| <= layout.volumeSize ==> InWindow(mode, offset, |b|)
      modifies this`disk, this`images, this`dirty, this`view, this`reserved, this`diskError
      ensures Valid()
      ensures offset + |b| > layout.volumeSize ==>
        status == VolumeCorrupted && diskError && view == old(view) && reserved == old(reserved)
      ensures offset + |b| <= layout.volumeSize ==> status == Success && diskError == old(diskError)
      ensures status == Success && mode == WriteDisk ==>
        view == old(view) && reserved == Splice(old(reserved), offset, b)
      ensures status == Success && mode == WriteFat ==>
        view == old(view)[FAT := Splice(old(view)[FAT], offset - layout.fatPos, b)] && reserved == old(reserved)
      ensures status == Success && mode == WriteData ==>
        view == old(view)[DATA := Splice(old(view)[DATA], offset - layout.rootPos, b)] && reserved == old(reserved)
    {
      hide Represents, Shaped, Layout.Mirrored, Splice;
      status := VolumeCorrupted;
      if offset + |b| <= layout.volumeSize {
        status := Success;
        if mode == WriteFat {
          WriteCache(FAT, offset, b);
        } else if mode == WriteData {
          WriteCache(DATA, offset, b);
        } else {
          ReservedWriteElsewhere(layout, geo, images, disk, view, offset, b);
          DeviceWrite(offset, b);
          reserved := Splice(reserved, offset, b);
        }
      } else {
        diskError := true;
      }
    }

    /** The flat byte array `mem` that the volume must be indistinguishable from. */
    ghost predicate Shows(mem: seq<Byte>)
      reads this
    {
      FlatView(layout, reserved, view, mem)
    }

    predicate Allowed(op: Op)
      requires Geometric()
    {
      match op
      case Read(mode, offset, n) =>
        mode in {ReadDisk, ReadFat, ReadData} && (offset + n <= layout.volumeSize ==> InWindow(mode, offset, n))
      case Write(mode, offset, b) =>
        mode in {WriteDisk, WriteFat, WriteData} && (offset + |b| <= layout.volumeSize ==> InWindow(mode, offset, |b|))
      case Flush => true
    }

    /** One access answers, and moves on, as the flat array does; a flush puts the array on the
        disk. */
    method Execute(op: Op, ghost mem: seq<Byte>) returns (answer: Answer)
      requires Valid() && Shows(mem) && Allowed(op)
      modifies this
      ensures Valid() && answer == FlatAnswer(mem, op) && Shows(FlatAfter(mem, op))
      ensures op.Flush? ==>
        && |mem| == |disk| && disk[..layout.fatPos] == mem[..layout.fatPos]
        && disk[layout.fatPos..layout.fatPos + layout.fatSize] == mem[layout.fatPos..layout.fatPos + layout.fatSize]
        && disk[layout.rootPos..] == mem[layout.rootPos..]
    {
      hide Over, Layout.Mirrored, FlatView, Represents;
      match op
      case Read(mode, offset, n) =>
        var status, out := DiskRead(mode, offset, n);
        answer := Answer(status, out);
        FlatViewRead(layout, reserved, view, mem, mode, offset, n);
      case Write(mode, offset, b) =>
        FlatViewWrite(layout, reserved, view, mem, mode, offset, b);
        var status := DiskWrite(mode, offset, b);
        answer := Answer(status, []);
      case Flush =>
        answer := Answer(Success, []);
        FlushCache();
        FlushedIsFlat(layout, reserved, view, mem, disk);
    }

    /** Every run of reads, writes and flushes answers as one flat byte array does, and where it
        ends in a flush the disk holds that array. */
    method Run(ops: seq<Op>, ghost mem: seq<Byte>) returns (answers: seq<Answer>)
      requires Valid() && Shows(mem) && forall i :: 0 <= i < |ops| ==> Allowed(ops[i])
      modifies this
      ensures Valid() && answers == FlatAnswers(mem, ops) && Shows(FlatRun(mem, ops))
      ensures mirrored ==> layout.Mirrored(disk)
      ensures ops != [] && ops[|ops| - 1].Flush? ==>
        var now := FlatRun(mem, ops);
        && |now| == |disk| && disk[..layout.fatPos] == now[..layout.fatPos]
        && disk[layout.fatPos..layout.fatPos + layout.fatSize] == now[layout.fatPos..layout.fatPos + layout.fatSize]
        && disk[layout.rootPos..] == now[layout.rootPos..]
    {
      hide Over, Layout.Mirrored, Shows, Allowed;
      answers := [];
      ghost var now := mem;
      var i := 0;
      while i < |ops|
        invariant 0 <= i <= |ops| && Valid() && Shows(now)
        invariant now == FlatRun(mem, ops[..i]) && answers == FlatAnswers(mem, ops[..i])
        invariant i > 0 && ops[i - 1].Flush? ==>
          && |now| == |disk| && disk[..layout.fatPos] == now[..layout.fatPos]
          && disk[layout.fatPos..layout.fatPos + layout.fatSize] == now[layout.fatPos..layout.fatPos + layout.fatSize]
          && disk[layout.rootPos..] == now[layout.rootPos..]
      {
        var answer := Execute(ops[i], now);
        FlatRunStep(mem, ops, i);
        answers := answers + [answer];
        now := FlatAfter(now, ops[i]);
        i := i + 1;
      }
      assert ops[..i] == ops;
    }
  }
}

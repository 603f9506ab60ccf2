/** The copies of the FAT on the disk and what one write-back does to them. */
module FatCopies {
  import opened Bytes
  import opened CacheImage

  /** CACHE_DATA_TYPE, the index into the two caches of a volume. */
  type Which = c: nat | c < 2

  const FAT: Which := 0
  const DATA: Which := 1

  /** The disk after `b` was written at `pos` and at the next `n - 1` strides. */
  function CopiesWritten(disk: seq<Byte>, pos: nat, stride: nat, n: nat, b: seq<Byte>): (r: seq<Byte>)
    requires n > 0 ==> pos + Start(n - 1, stride) + |b| <= |disk|
    ensures |r| == |disk|
  {
    if n == 0 then disk
    else
      Splice(CopiesWritten(disk, pos, stride, n - 1, b), pos + Start(n - 1, stride), b)
  }

  /** Every copy receives `b`; bytes between the copies and beyond them stay. */
  lemma {:induction false} CopiesBytes(disk: seq<Byte>, pos: nat, stride: nat, n: nat, b: seq<Byte>, a: nat)
    requires n > 0 && pos + Start(n - 1, stride) + |b| <= |disk| && |b| <= stride && 0 < stride && a < |disk|
    ensures var r := CopiesWritten(disk, pos, stride, n, b);
      r[a] == if pos <= a && Unit(a - pos, stride) < n && Rest(a - pos, stride) < |b|
              then b[Rest(a - pos, stride)] else disk[a]
  {
    hide Unit, Rest, Start;
    var m := n - 1;
    if pos <= a {
      Locate(a - pos, stride, m);
      assert Start(Unit(a - pos, stride), stride) + Rest(a - pos, stride) == a - pos;
    }
    if m == 0 {
      assert CopiesWritten(disk, pos, stride, 0, b) == disk;
    } else {
      StartMono(m - 1, m, stride);
      CopiesBytes(disk, pos, stride, m, b, a);
    }
    var q := CopiesWritten(disk, pos, stride, m, b);
    assert CopiesWritten(disk, pos, stride, n, b) == Splice(q, pos + Start(m, stride), b);
    hide CopiesWritten, Splice;
  }

  /** The on-disk part of a volume that the driver keeps: where the FAT copies lie. */
  datatype Layout = Layout(volumeSize: nat, fatPos: nat, fatSize: nat, numFats: nat, rootPos: nat) {
    predicate Valid()
      ensures Valid() ==> fatSize > 0 && fatPos + fatSize <= rootPos <= volumeSize
    {
      StartMono(1, numFats, fatSize);
      && numFats > 0
      && fatSize > 0
      && rootPos == fatPos + Start(numFats, fatSize)
      && rootPos <= volumeSize
    }

    /** All FAT copies on `disk` hold the same bytes. */
    ghost predicate Mirrored(disk: seq<Byte>)
      requires Valid() && |disk| == volumeSize
    {
      forall a :: fatPos <= a < rootPos ==> MirroredAt(disk, a)
    }

    /** The byte at `a`, in some copy of the FAT, is that of the first FAT. */
    ghost predicate MirroredAt(disk: seq<Byte>, a: nat)
      requires Valid() && |disk| == volumeSize && fatPos <= a < rootPos
    {
      disk[a] == disk[fatPos + Rest(a - fatPos, fatSize)]
    }
  }

  /** The byte at `a` once every copy of the FAT has `b` in it, `s` bytes from its start. */
  ghost function CopyByte(l: Layout, disk: seq<Byte>, s: nat, b: seq<Byte>, a: nat): Byte
    requires l.Valid() && |disk| == l.volumeSize && a < |disk|
  {
    var o := if a < l.fatPos then 0 else Rest(a - l.fatPos, l.fatSize);
    if l.fatPos <= a < l.rootPos && s <= o < s + |b| then b[o - s] else disk[a]
  }

  /** What writing `b` to every copy of the FAT, `s` bytes into it, does to the byte at `a`. */
  lemma FatCopiesByte(l: Layout, disk: seq<Byte>, s: nat, b: seq<Byte>, a: nat)
    requires l.Valid() && |disk| == l.volumeSize && s + |b| <= l.fatSize && a < |disk|
    ensures l.fatPos + s + Start(l.numFats - 1, l.fatSize) + |b| <= |disk|
    ensures CopiesWritten(disk, l.fatPos + s, l.fatSize, l.numFats, b)[a] == CopyByte(l, disk, s, b, a)
  {
    hide Unit, Rest, CopiesWritten, Start;
    StartStep(l.numFats - 1, l.fatSize);
    CopiesBytes(disk, l.fatPos + s, l.fatSize, l.numFats, b, a);
    if l.fatPos <= a {
      ShiftRest(a - l.fatPos, l.fatSize, s, |b|);
      UnitsOfCopies(l, a, s, |b|);
    }
  }

  lemma UnitsOfCopies(l: Layout, a: nat, s: nat, n: nat)
    requires l.Valid() && l.fatPos <= a && s + n <= l.fatSize
    ensures a < l.rootPos <==> Unit(a - l.fatPos, l.fatSize) < l.numFats
  {
    hide Start;
    LocateRange(a - l.fatPos, l.fatSize, 0, l.numFats);
    assert Start(0, l.fatSize) == 0 by {
      StartIsProduct(0, l.fatSize);
    }
  }

  /** Equal copies stay equal. */
  lemma MirroredByCopies(l: Layout, disk: seq<Byte>, s: nat, b: seq<Byte>)
    requires l.Valid() && |disk| == l.volumeSize && s + |b| <= l.fatSize && l.Mirrored(disk)
    requires l.fatPos + s + Start(l.numFats - 1, l.fatSize) + |b| <= |disk|
    ensures l.Mirrored(CopiesWritten(disk, l.fatPos + s, l.fatSize, l.numFats, b))
  {
    hide Unit, Rest, Start, CopiesWritten;
    var disk' := CopiesWritten(disk, l.fatPos + s, l.fatSize, l.numFats, b);
    forall a | l.fatPos <= a < l.rootPos
      ensures l.MirroredAt(disk', a)
    {
      var o := Rest(a - l.fatPos, l.fatSize);
      FirstUnit(o, l.fatSize);
      FatCopiesByte(l, disk, s, b, a);
      FatCopiesByte(l, disk, s, b, l.fatPos + o);
      assert l.MirroredAt(disk, a);
    }
  }

  lemma StretchIs(disk: seq<Byte>, at: nat, b: seq<Byte>)
    requires at + |b| <= |disk| && forall a {:trigger disk[a]} :: at <= a < at + |b| ==> disk[a] == b[a - at]
    ensures Stretch(disk, at, |b|) == b
  {
    var s := Stretch(disk, at, |b|);
    forall i | 0 <= i < |b|
      ensures s[i] == b[i]
    {
      assert s[i] == disk[at + i];
    }
  }

  /** After the copies of the page of slot `k` are out, the FAT cache sees its page stored. */
  lemma FatPageStored(l: Layout, g: Geometry, im: Image, disk: seq<Byte>, k: nat)
    requires l.Valid() && |disk| == l.volumeSize
    requires Consistent(g, im, disk) && k < g.groups && im.tags[k].realSize > 0 && SlotOk(g, im, disk, k)
    requires g.base == l.fatPos && g.limit == l.fatPos + l.fatSize
    ensures var s := Start(im.tags[k].pageNo, g.pageSize);
      l.fatPos + s + Start(l.numFats - 1, l.fatSize) + im.tags[k].realSize <= |disk|
    ensures var s := Start(im.tags[k].pageNo, g.pageSize);
      var disk' := CopiesWritten(disk, l.fatPos + s, l.fatSize, l.numFats, im.pages[k][..im.tags[k].realSize]);
      && Stored(g, im, disk, disk', k)
      && (forall a {:trigger disk'[a]} :: 0 <= a < |disk| && !(l.fatPos <= a < l.rootPos) ==> disk'[a] == disk[a])
      && (l.Mirrored(disk) ==> l.Mirrored(disk'))
  {
    hide Start, Rest, Unit, CopiesWritten;
    var s, b := Start(im.tags[k].pageNo, g.pageSize), im.pages[k][..im.tags[k].realSize];
    FatCopiesByte(l, disk, s, b, 0);
    var disk' := CopiesWritten(disk, l.fatPos + s, l.fatSize, l.numFats, b);
    forall a | 0 <= a < |disk| && (a < l.fatPos + l.fatSize || l.rootPos <= a)
      ensures disk'[a] == if l.fatPos + s <= a < l.fatPos + s + |b| then b[a - l.fatPos - s] else disk[a]
    {
      FatCopiesByte(l, disk, s, b, a);
      if l.fatPos <= a < l.rootPos {
        FirstUnit(a - l.fatPos, l.fatSize);
      }
    }
    StretchIs(disk', l.fatPos + s, b);
    if l.Mirrored(disk) {
      MirroredByCopies(l, disk, s, b);
    }
  }

  /** A page of the data cache is written once. */
  lemma DataPageStored(l: Layout, g: Geometry, im: Image, disk: seq<Byte>, k: nat)
    requires l.Valid() && |disk| == l.volumeSize
    requires Consistent(g, im, disk) && k < g.groups && im.tags[k].realSize > 0 && SlotOk(g, im, disk, k)
    requires g.base == l.rootPos
    ensures Start(0, l.fatSize) == 0
    ensures var b := im.pages[k][..im.tags[k].realSize];
      var disk' := Splice(disk, g.base + Start(im.tags[k].pageNo, g.pageSize), b);
      && CopiesWritten(disk, g.base + Start(im.tags[k].pageNo, g.pageSize), l.fatSize, 1, b) == disk'
      && Stored(g, im, disk, disk', k)
      && (l.Mirrored(disk) ==> l.Mirrored(disk'))
  {
    var b := im.pages[k][..im.tags[k].realSize];
    var s := g.base + Start(im.tags[k].pageNo, g.pageSize);
    assert CopiesWritten(disk, s, l.fatSize, 0, b) == disk;
    if l.Mirrored(disk) {
      DataWriteKeepsMirrors(l, disk, s, b);
    }
  }

  lemma DataWriteKeepsMirrors(l: Layout, disk: seq<Byte>, at: nat, b: seq<Byte>)
    requires l.Valid() && |disk| == l.volumeSize && l.Mirrored(disk)
    requires at + |b| <= |disk| && (l.rootPos <= at || at + |b| <= l.fatPos)
    ensures l.Mirrored(Splice(disk, at, b))
  {
    var disk' := Splice(disk, at, b);
    forall a | l.fatPos <= a < l.rootPos
      ensures l.MirroredAt(disk', a)
    {
      assert disk'[a] == disk[a];
      assert l.MirroredAt(disk, a);
    }
  }

  /** The windows of the two caches: the first FAT, and all from the root directory on. */
  ghost predicate Windows(l: Layout, geo: seq<Geometry>) {
    && l.Valid()
    && |geo| == 2 && geo[FAT].Valid() && geo[DATA].Valid()
    && 4 < geo[FAT].pageSize
    && geo[FAT].base == l.fatPos && geo[FAT].limit == l.fatPos + l.fatSize
    && geo[DATA].base == l.rootPos && geo[DATA].limit == l.volumeSize
  }

  /** How often FatExchangeCachePage writes a page, and where first. */
  function WriteCount(l: Layout, c: Which): nat {
    if c == FAT then l.numFats else 1
  }

  function EntryPos(g: Geometry, im: Image, k: nat): nat
    requires k < |im.tags|
  {
    g.base + Start(im.tags[k].pageNo, g.pageSize)
  }

  /** A write-back of slot `k` of cache `c` keeps both caches, and keeps equal FAT copies
      equal; nothing of it reaches beyond the window and its copies. */
  lemma WriteBack(l: Layout, geo: seq<Geometry>, images: seq<Image>, disk: seq<Byte>, view: seq<seq<Byte>>, c: Which,
      k: nat)
    requires Windows(l, geo) && |disk| == l.volumeSize && |images| == |view| == 2
    requires Represents(geo[c], images[c], disk, view[c])
    requires Represents(geo[1 - c], images[1 - c], disk, view[1 - c])
    requires k < geo[c].groups && images[c].tags[k].realSize > 0
    ensures images[c].tags[k].realSize <= |images[c].pages[k]|
    ensures WriteCount(l, c) > 0
      && EntryPos(geo[c], images[c], k) + Start(WriteCount(l, c) - 1, l.fatSize) + images[c].tags[k].realSize <= |disk|
    ensures var disk' := CopiesWritten(disk, EntryPos(geo[c], images[c], k), l.fatSize, WriteCount(l, c),
                                       images[c].pages[k][..images[c].tags[k].realSize]);
      && Represents(geo[c], Cleaned(images[c], k), disk', view[c])
      && Represents(geo[1 - c], images[1 - c], disk', view[1 - c])
      && (l.Mirrored(disk) ==> l.Mirrored(disk'))
      && Stretch(disk', 0, l.fatPos) == Stretch(disk, 0, l.fatPos)
  {
    hide Start, Rest, Unit, CopiesWritten, Represents;
    if c == FAT {
      WriteBackFat(l, geo[FAT], images[FAT], view[FAT], geo[DATA], images[DATA], view[DATA], disk, k);
    } else {
      WriteBackData(l, geo[DATA], images[DATA], view[DATA], geo[FAT], images[FAT], view[FAT], disk, k);
    }
  }

  lemma WriteBackFat(l: Layout, g: Geometry, im: Image, v: seq<Byte>, g1: Geometry, im1: Image, v1: seq<Byte>,
                     disk: seq<Byte>, k: nat)
    requires l.Valid() && |disk| == l.volumeSize && Represents(g, im, disk, v) && Represents(g1, im1, disk, v1)
    requires g.base == l.fatPos && g.limit == l.fatPos + l.fatSize && g1.base == l.rootPos && g1.limit == l.volumeSize
    requires k < g.groups && im.tags[k].realSize > 0
    ensures im.tags[k].realSize <= |im.pages[k]|
    ensures EntryPos(g, im, k) + Start(l.numFats - 1, l.fatSize) + im.tags[k].realSize <= |disk|
    ensures var disk' := CopiesWritten(disk, EntryPos(g, im, k), l.fatSize, l.numFats,
      im.pages[k][..im.tags[k].realSize]);
      Represents(g, Cleaned(im, k), disk', v) && Represents(g1, im1, disk', v1)
          && (l.Mirrored(disk) ==> l.Mirrored(disk'))
      && Stretch(disk', 0, l.fatPos) == Stretch(disk, 0, l.fatPos)
  {
    hide Start, Rest, Unit, CopiesWritten, ViewAt;
    SlotInPlace(g, im, disk, v, k);
    FatPageStored(l, g, im, disk, k);
    var disk' := CopiesWritten(disk, EntryPos(g, im, k), l.fatSize, l.numFats, im.pages[k][..im.tags[k].realSize]);
    StoreKeeps(g, im, disk, disk', v, k);
    ForeignWrite(g1, im1, disk, disk', v1);
  }

  lemma WriteBackData(l: Layout, g: Geometry, im: Image, v: seq<Byte>, g1: Geometry, im1: Image, v1: seq<Byte>,
                      disk: seq<Byte>, k: nat)
    requires l.Valid() && |disk| == l.volumeSize && Represents(g, im, disk, v) && Represents(g1, im1, disk, v1)
    requires g1.base == l.fatPos && g1.limit == l.fatPos + l.fatSize && g.base == l.rootPos && g.limit == l.volumeSize
    requires k < g.groups && im.tags[k].realSize > 0
    ensures im.tags[k].realSize <= |im.pages[k]| && Start(0, l.fatSize) == 0
    ensures EntryPos(g, im, k) + im.tags[k].realSize <= |disk|
    ensures var disk' := CopiesWritten(disk, EntryPos(g, im, k), l.fatSize, 1, im.pages[k][..im.tags[k].realSize]);
      Represents(g, Cleaned(im, k), disk', v) && Represents(g1, im1, disk', v1)
          && (l.Mirrored(disk) ==> l.Mirrored(disk'))
      && Stretch(disk', 0, l.fatPos) == Stretch(disk, 0, l.fatPos)
  {
    hide Start, Rest, Unit, CopiesWritten, ViewAt;
    SlotInPlace(g, im, disk, v, k);
    DataPageStored(l, g, im, disk, k);
    var b := im.pages[k][..im.tags[k].realSize];
    StoreKeeps(g, im, disk, Splice(disk, EntryPos(g, im, k), b), v, k);
    hide Represents, Layout.Mirrored;
    AboveFats(l, g1, im1, v1, disk, EntryPos(g, im, k), b);
  }

  /** A write above the FATs is nothing to the FAT cache and to what lies below it. */
  lemma AboveFats(l: Layout, g: Geometry, im: Image, v: seq<Byte>, disk: seq<Byte>, at: nat, b: seq<Byte>)
    requires l.Valid() && |disk| == l.volumeSize && Represents(g, im, disk, v)
    requires g.base == l.fatPos && g.limit == l.fatPos + l.fatSize && l.rootPos <= at && at + |b| <= |disk|
    ensures Represents(g, im, Splice(disk, at, b), v)
    ensures Stretch(Splice(disk, at, b), 0, l.fatPos) == Stretch(disk, 0, l.fatPos)
  {
    hide Start, Rest, Unit, ViewAt, Represents;
    ForeignWrite(g, im, disk, Splice(disk, at, b), v);
  }

  /** A write into the data window is nothing to the FAT cache and its copies. */
  lemma DataWriteElsewhere(l: Layout, geo: seq<Geometry>, images: seq<Image>, disk: seq<Byte>, view: seq<seq<Byte>>,
                           at: nat, b: seq<Byte>)
    requires Windows(l, geo) && |disk| == l.volumeSize && |images| == |view| == 2
    requires Represents(geo[FAT], images[FAT], disk, view[FAT])
    requires l.rootPos <= at && at + |b| <= |disk|
    ensures Represents(geo[FAT], images[FAT], Splice(disk, at, b), view[FAT])
    ensures l.Mirrored(disk) ==> l.Mirrored(Splice(disk, at, b))
    ensures Stretch(Splice(disk, at, b), 0, l.fatPos) == Stretch(disk, 0, l.fatPos)
  {
    hide Rest, Unit, Start;
    ForeignWrite(geo[FAT], images[FAT], disk, Splice(disk, at, b), view[FAT]);
    if l.Mirrored(disk) {
      DataWriteKeepsMirrors(l, disk, at, b);
    }
  }

  /** A raw write below the FAT is nothing to either cache. */
  lemma ReservedWriteElsewhere(l: Layout, geo: seq<Geometry>, images: seq<Image>, disk: seq<Byte>, view: seq<seq<Byte>>,
                               at: nat, b: seq<Byte>)
    requires Windows(l, geo) && |disk| == l.volumeSize && |images| == |view| == 2
    requires Represents(geo[FAT], images[FAT], disk, view[FAT]) && Represents(geo[DATA], images[DATA], disk, view[DATA])
    requires at + |b| <= l.fatPos
    ensures Represents(geo[FAT], images[FAT], Splice(disk, at, b), view[FAT])
    ensures Represents(geo[DATA], images[DATA], Splice(disk, at, b), view[DATA])
    ensures l.Mirrored(disk) ==> l.Mirrored(Splice(disk, at, b))
    ensures Stretch(Splice(disk, at, b), 0, l.fatPos) == Splice(Stretch(disk, 0, l.fatPos), at, b)
  {
    hide Rest, Unit, Start, ViewAt;
    ForeignWrite(geo[FAT], images[FAT], disk, Splice(disk, at, b), view[FAT]);
    ForeignWrite(geo[DATA], images[DATA], disk, Splice(disk, at, b), view[DATA]);
    if l.Mirrored(disk) {
      DataWriteKeepsMirrors(l, disk, at, b);
    }
  }
}

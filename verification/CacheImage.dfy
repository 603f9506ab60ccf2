/** One direct-mapped write-back cache seen as a value: its tags, its pages and
    the flat bytes the pair (cache, disk) stands for.  The methods in DiskCache
    update the real arrays and are proved against the lemmas of this module. */
module CacheImage {
  import opened Bytes

  /** CACHE_TAG: which page a slot holds, how many of its bytes are real (0 marks
      an empty slot), and whether they still have to be written back. */
  datatype Tag = Tag(pageNo: nat, realSize: nat, dirty: bool)

  /** The constant part of DISK_CACHE.  Page and group counts are powers of two in
      the driver, so `x & GroupMask` is `Rest(x, groups)` and `x >> PageAlignment` is
      `Unit(x, pageSize)`; nothing below needs them to be powers of two. */
  datatype Geometry = Geometry(base: nat, limit: nat, pageSize: nat, groups: nat) {
    predicate Valid() {
      base <= limit && pageSize > 0 && groups > 0
    }

    function Size(): nat
      requires Valid()
    {
      limit - base
    }

    predicate HasPage(p: nat)
      requires Valid()
    {
      Start(p, pageSize) < Size()
    }

    /** `PageNo & GroupMask`: the only slot page `p` may occupy. */
    function Slot(p: nat): (k: nat)
      requires Valid()
      ensures k < groups
    {
      Rest(p, groups)
    }

    /** Number of bytes of page `p` before the limit: the last page may be short. */
    function PageLen(p: nat): (n: nat)
      requires Valid() && HasPage(p)
      ensures 0 < n <= pageSize && Start(p, pageSize) + n <= Size()
    {
      if Size() - Start(p, pageSize) < pageSize then Size() - Start(p, pageSize) else pageSize
    }
  }

  /** Each page has one slot, pages in a row have slots in a row. */
  lemma SlotIsRemainder(g: Geometry, p: nat)
    requires g.Valid()
    ensures g.Slot(p) == p % g.groups
  {
    UnitsAreDivision(p, g.groups);
  }

  /** No page is left to write back. */
  ghost predicate AllClean(tags: seq<Tag>) {
    forall k {:trigger tags[k]} :: 0 <= k < |tags| && tags[k].realSize > 0 ==> !tags[k].dirty
  }

  datatype Image = Image(tags: seq<Tag>, pages: seq<seq<Byte>>)

  predicate Shaped(g: Geometry, im: Image) {
    && g.Valid()
    && |im.tags| == |im.pages| == g.groups
    && forall k :: 0 <= k < g.groups ==> |im.pages[k]| == g.pageSize
  }

  /** The slot page `p` maps to holds page `p`. */
  predicate Holds(g: Geometry, im: Image, p: nat)
    requires Shaped(g, im)
  {
    im.tags[g.Slot(p)].realSize > 0 && im.tags[g.Slot(p)].pageNo == p
  }

  /** A used slot sits where its page maps to, covers the whole of its page, and,
      unless dirty, agrees with the disk. */
  ghost predicate SlotOk(g: Geometry, im: Image, disk: seq<Byte>, k: nat)
    requires Shaped(g, im) && g.limit <= |disk| && k < g.groups
  {
    var t := im.tags[k];
    t.realSize > 0 ==>
      && g.Slot(t.pageNo) == k
      && g.HasPage(t.pageNo)
      && t.realSize == g.PageLen(t.pageNo)
      && (!t.dirty ==> Stretch(disk, g.base + Start(t.pageNo, g.pageSize), t.realSize) == im.pages[k][..t.realSize])
  }

  ghost predicate Consistent(g: Geometry, im: Image, disk: seq<Byte>) {
    && Shaped(g, im)
    && g.limit <= |disk|
    && forall k :: 0 <= k < g.groups ==> SlotOk(g, im, disk, k)
  }

  /** The byte a reader must see at distance `i` from the base. */
  ghost function ViewAt(g: Geometry, im: Image, disk: seq<Byte>, i: nat): Byte
    requires Shaped(g, im) && g.limit <= |disk| && i < g.Size()
  {
    var p := Unit(i, g.pageSize);
    if Holds(g, im, p) then im.pages[g.Slot(p)][Rest(i, g.pageSize)] else disk[g.base + i]
  }

  /** Cache and disk together stand for the flat bytes `v`. */
  ghost predicate Represents(g: Geometry, im: Image, disk: seq<Byte>, v: seq<Byte>) {
    && Consistent(g, im, disk)
    && |v| == g.Size()
    && forall i {:trigger v[i]} :: 0 <= i < |v| ==> v[i] == ViewAt(g, im, disk, i)
  }

  /** Where a used slot's page lies. */
  lemma SlotInPlace(g: Geometry, im: Image, disk: seq<Byte>, v: seq<Byte>, k: nat)
    requires Represents(g, im, disk, v) && k < g.groups && im.tags[k].realSize > 0
    ensures Consistent(g, im, disk) && SlotOk(g, im, disk, k)
    ensures im.tags[k].realSize <= g.pageSize && Start(im.tags[k].pageNo, g.pageSize) + im.tags[k].realSize <= g.Size()
    ensures |im.pages[k]| == g.pageSize
  {
    assert SlotOk(g, im, disk, k);
  }

  /** Only bytes outside the cached window changed on the disk. */
  lemma ForeignWrite(g: Geometry, im: Image, disk: seq<Byte>, disk': seq<Byte>, v: seq<Byte>)
    requires Represents(g, im, disk, v)
    requires |disk'| == |disk| && forall a :: g.base <= a < g.limit ==> disk'[a] == disk[a]
    ensures Represents(g, im, disk', v)
  {
    hide Start, Unit, Rest, Geometry.Slot;
    forall k | 0 <= k < g.groups
      ensures SlotOk(g, im, disk', k)
    {
      assert SlotOk(g, im, disk, k);
    }
  }

  /** A byte of page `p` is found in the slot of `p`, or else on the disk. */
  lemma ByteOfPage(g: Geometry, im: Image, disk: seq<Byte>, v: seq<Byte>, p: nat, i: nat)
    requires Represents(g, im, disk, v) && g.HasPage(p)
    requires Start(p, g.pageSize) <= i < Start(p, g.pageSize) + g.PageLen(p)
    ensures i < |v| && v[i] == if Holds(g, im, p) then im.pages[g.Slot(p)][i - Start(p, g.pageSize)]
      else disk[g.base + i]
    ensures !Holds(g, im, p) || !im.tags[g.Slot(p)].dirty ==> v[i] == disk[g.base + i]
  {
    hide Start, Unit, Rest, Geometry.Slot;
    assert v[i] == ViewAt(g, im, disk, i);
    assert Unit(i, g.pageSize) == p by {
      Locate(i, g.pageSize, p);
    }
    assert SlotOk(g, im, disk, g.Slot(p));
    if Holds(g, im, p) && !im.tags[g.Slot(p)].dirty {
      var o := i - Start(p, g.pageSize);
      assert im.pages[g.Slot(p)][..g.PageLen(p)][o] == Stretch(disk, g.base + Start(p, g.pageSize), g.PageLen(p))[o];
    }
  }

  lemma StretchOfPage(g: Geometry, im: Image, disk: seq<Byte>, v: seq<Byte>, p: nat, off: nat, n: nat)
    requires Represents(g, im, disk, v) && g.HasPage(p) && Holds(g, im, p) && off + n <= g.PageLen(p)
    ensures Stretch(v, Start(p, g.pageSize) + off, n) == Stretch(im.pages[g.Slot(p)], off, n)
  {
    hide Start, Rest, Unit;
    var r := Stretch(v, Start(p, g.pageSize) + off, n);
    forall o | 0 <= o < n
      ensures r[o] == im.pages[g.Slot(p)][off + o]
    {
      ByteOfPage(g, im, disk, v, p, Start(p, g.pageSize) + off + o);
    }
  }

  /** Writing the page of slot `k` back and marking it clean changes nothing visible.
      `disk'` may differ outside the window of this cache. */
  lemma StoreKeeps(g: Geometry, im: Image, disk: seq<Byte>, disk': seq<Byte>, v: seq<Byte>, k: nat)
    requires Represents(g, im, disk, v)
    requires k < g.groups && im.tags[k].realSize > 0 && SlotOk(g, im, disk, k)
    requires Stored(g, im, disk, disk', k)
    ensures Represents(g, Cleaned(im, k), disk', v)
  {
    hide Start, Unit, Rest, Geometry.Slot;
    var im' := Cleaned(im, k);
    forall j | 0 <= j < g.groups
      ensures SlotOk(g, im', disk', j)
    {
      StoredSlot(g, im, disk, disk', k, j);
    }
    forall i | 0 <= i < |v|
      ensures v[i] == ViewAt(g, im', disk', i)
    {
      assert v[i] == ViewAt(g, im, disk, i);
      Locate(i, g.pageSize, im.tags[k].pageNo);
    }
  }

  function Cleaned(im: Image, k: nat): Image
    requires k < |im.tags|
  {
    im.(tags := im.tags[k := im.tags[k].(dirty := false)])
  }

  /** `disk'` is `disk` with the page of slot `k` written at its place. */
  ghost predicate Stored(g: Geometry, im: Image, disk: seq<Byte>, disk': seq<Byte>, k: nat)
    requires Consistent(g, im, disk) && k < g.groups && im.tags[k].realSize > 0 && SlotOk(g, im, disk, k)
  {
    var s := g.base + Start(im.tags[k].pageNo, g.pageSize);
    && |disk'| == |disk|
    && Stretch(disk', s, im.tags[k].realSize) == im.pages[k][..im.tags[k].realSize]
    && forall a {:trigger disk'[a]} ::
      g.base <= a < g.limit && !(s <= a < s + im.tags[k].realSize) ==> disk'[a] == disk[a]
  }

  lemma StoredSlot(g: Geometry, im: Image, disk: seq<Byte>, disk': seq<Byte>, k: nat, j: nat)
    requires Consistent(g, im, disk) && k < g.groups && im.tags[k].realSize > 0 && SlotOk(g, im, disk, k)
    requires Stored(g, im, disk, disk', k) && j < g.groups
    ensures SlotOk(g, Cleaned(im, k), disk', j)
  {
    hide Start, Unit, Rest, Geometry.Slot;
    assert SlotOk(g, im, disk, j);
    var u, t := im.tags[j], im.tags[k];
    if j != k && u.realSize > 0 && !u.dirty {
      StartMono(u.pageNo, t.pageNo, g.pageSize);
      StartMono(t.pageNo, u.pageNo, g.pageSize);
      assert Stretch(disk', g.base + Start(u.pageNo, g.pageSize), u.realSize) ==
          Stretch(disk, g.base + Start(u.pageNo, g.pageSize), u.realSize);
    }
  }

  /** Refilling a clean or empty slot with another page changes nothing visible. */
  lemma LoadKeeps(g: Geometry, im: Image, disk: seq<Byte>, v: seq<Byte>, p: nat, page: seq<Byte>)
    requires Represents(g, im, disk, v) && g.HasPage(p)
    requires im.tags[g.Slot(p)].realSize > 0 ==> !im.tags[g.Slot(p)].dirty
    requires |page| == g.pageSize
    requires page[..g.PageLen(p)] == Stretch(disk, g.base + Start(p, g.pageSize), g.PageLen(p))
    ensures Represents(g, Loaded(g, im, p, page), disk, v)
  {
    hide Start, Unit, Rest, Geometry.Slot;
    var im' := Loaded(g, im, p, page);
    forall j | 0 <= j < g.groups
      ensures SlotOk(g, im', disk, j)
    {
      assert SlotOk(g, im, disk, j);
    }
    forall i | 0 <= i < |v|
      ensures v[i] == ViewAt(g, im', disk, i)
    {
      LoadedByte(g, im, disk, v, p, page, i);
    }
  }

  function Loaded(g: Geometry, im: Image, p: nat, page: seq<Byte>): Image
    requires Shaped(g, im) && g.HasPage(p)
  {
    Image(im.tags[g.Slot(p) := Tag(p, g.PageLen(p), false)], im.pages[g.Slot(p) := page])
  }

  lemma LoadedByte(g: Geometry, im: Image, disk: seq<Byte>, v: seq<Byte>, p: nat, page: seq<Byte>, i: nat)
    requires Represents(g, im, disk, v) && g.HasPage(p) && i < |v|
    requires im.tags[g.Slot(p)].realSize > 0 ==> !im.tags[g.Slot(p)].dirty
    requires |page| == g.pageSize
    requires page[..g.PageLen(p)] == Stretch(disk, g.base + Start(p, g.pageSize), g.PageLen(p))
    ensures v[i] == ViewAt(g, Loaded(g, im, p, page), disk, i)
  {
    hide Start, Unit, Rest, Geometry.Slot;
    var q := Unit(i, g.pageSize);
    ByteOfPage(g, im, disk, v, q, i);
    if q == p {
      var o := i - Start(p, g.pageSize);
      assert page[o] == page[..g.PageLen(p)][o];
    }
  }

  /** Overwriting part of a held page is overwriting the flat bytes. */
  lemma SlotWrite(g: Geometry, im: Image, disk: seq<Byte>, v: seq<Byte>, p: nat, off: nat, b: seq<Byte>)
    requires Represents(g, im, disk, v) && g.HasPage(p) && Holds(g, im, p)
    requires off + |b| <= g.PageLen(p)
    ensures var k := g.Slot(p);
      Represents(g, Image(im.tags[k := im.tags[k].(dirty := true)], im.pages[k := Splice(im.pages[k], off, b)]), disk,
                 Splice(v, Start(p, g.pageSize) + off, b))
  {
    hide Start, Unit, Rest, Geometry.Slot;
    var k := g.Slot(p);
    var im' := Image(im.tags[k := im.tags[k].(dirty := true)], im.pages[k := Splice(im.pages[k], off, b)]);
    var v' := Splice(v, Start(p, g.pageSize) + off, b);
    forall j | 0 <= j < g.groups
      ensures SlotOk(g, im', disk, j)
    {
      assert SlotOk(g, im, disk, j);
    }
    forall i | 0 <= i < |v'|
      ensures v'[i] == ViewAt(g, im', disk, i)
    {
      var q := Unit(i, g.pageSize);
      Locate(i, g.pageSize, q);
      Locate(i, g.pageSize, p);
      assert v[i] == ViewAt(g, im, disk, i);
    }
  }

  /** The tags after every page of `first..last` held by the cache was dropped. */
  function Dropped(g: Geometry, tags: seq<Tag>, first: nat, last: nat): (r: seq<Tag>)
    requires g.Valid() && |tags| == g.groups
    ensures |r| == |tags|
    ensures forall k {:trigger r[k]} :: 0 <= k < |r| ==>
      r[k] == if tags[k].realSize > 0 && g.Slot(tags[k].pageNo) == k && first <= tags[k].pageNo < last
              then tags[k].(realSize := 0) else tags[k]
    decreases last - first
  {
    if first >= last then tags
    else
      var k := g.Slot(first);
      var rest := Dropped(g, tags, first + 1, last);
      if tags[k].realSize > 0 && tags[k].pageNo == first then rest[k := tags[k].(realSize := 0)] else rest
  }

  /** One round of the loop that drops pages. */
  lemma DropStep(g: Geometry, tags: seq<Tag>, p: nat, last: nat)
    requires g.Valid() && |tags| == g.groups && p < last
    ensures var k := g.Slot(p);
      Dropped(g, tags, p, last) ==
      Dropped(g, if tags[k].realSize > 0 && tags[k].pageNo == p then tags[k := tags[k].(realSize := 0)]
          else tags, p + 1, last)
  {
    hide Rest, Unit;
    var k := g.Slot(p);
    var tags' := if tags[k].realSize > 0 && tags[k].pageNo == p then tags[k := tags[k].(realSize := 0)] else tags;
    var r, r' := Dropped(g, tags, p, last), Dropped(g, tags', p + 1, last);
    hide Dropped;
    assert forall j :: 0 <= j < g.groups ==> r[j] == r'[j];
  }

  lemma DroppedStaysClean(g: Geometry, tags: seq<Tag>, first: nat, last: nat)
    requires g.Valid() && |tags| == g.groups
    ensures AllClean(tags) ==> AllClean(Dropped(g, tags, first, last))
  {
  }

  /** Whole pages written straight to the disk, the cache forgetting them. */
  lemma DirectWrite(g: Geometry, im: Image, disk: seq<Byte>, v: seq<Byte>, first: nat, last: nat, b: seq<Byte>)
    requires Represents(g, im, disk, v)
    requires first <= last && Start(last, g.pageSize) <= g.Size()
    requires Start(first, g.pageSize) + |b| == Start(last, g.pageSize)
    ensures Represents(g, im.(tags := Dropped(g, im.tags, first, last)),
      Splice(disk, g.base + Start(first, g.pageSize), b),
                       Splice(v, Start(first, g.pageSize), b))
  {
    hide Start, Unit, Rest, Geometry.Slot;
    var im' := im.(tags := Dropped(g, im.tags, first, last));
    var s := Start(first, g.pageSize);
    var disk' := Splice(disk, g.base + s, b);
    var v' := Splice(v, s, b);
    forall j | 0 <= j < g.groups
      ensures SlotOk(g, im', disk', j)
    {
      assert SlotOk(g, im, disk, j);
      DirectWriteSlot(g, im, disk, first, last, b, j);
    }
    forall i | 0 <= i < |v'|
      ensures v'[i] == ViewAt(g, im', disk', i)
    {
      DirectWriteByte(g, im, disk, v, first, last, b, i);
    }
  }

  lemma DirectWriteSlot(g: Geometry, im: Image, disk: seq<Byte>, first: nat, last: nat, b: seq<Byte>, j: nat)
    requires Consistent(g, im, disk) && j < g.groups
    requires first <= last && Start(last, g.pageSize) <= g.Size()
    requires Start(first, g.pageSize) + |b| == Start(last, g.pageSize)
    ensures SlotOk(g, im.(tags := Dropped(g, im.tags, first, last)),
      Splice(disk, g.base + Start(first, g.pageSize), b), j)
  {
    hide Start, Unit, Rest, Geometry.Slot;
    assert SlotOk(g, im, disk, j);
    var u := Dropped(g, im.tags, first, last)[j];
    if u.realSize > 0 {
      StartMono(u.pageNo, first, g.pageSize);
      StartMono(last, u.pageNo, g.pageSize);
      StretchElsewhere(disk, g.base + Start(first, g.pageSize), b, g.base + Start(u.pageNo, g.pageSize), u.realSize);
    }
  }

  lemma DirectWriteByte(g: Geometry, im: Image, disk: seq<Byte>, v: seq<Byte>, first: nat, last: nat, b: seq<Byte>,
      i: nat)
    requires Represents(g, im, disk, v) && i < |v|
    requires first <= last && Start(last, g.pageSize) <= g.Size()
    requires Start(first, g.pageSize) + |b| == Start(last, g.pageSize)
    ensures Splice(v, Start(first, g.pageSize), b)[i] ==
            ViewAt(g, im.(tags := Dropped(g, im.tags, first, last)),
                Splice(disk, g.base + Start(first, g.pageSize), b), i)
  {
    hide Start, Unit, Rest, Geometry.Slot;
    var q := Unit(i, g.pageSize);
    LocateRange(i, g.pageSize, first, last);
    assert SlotOk(g, im, disk, g.Slot(q));
    ByteOfPage(g, im, disk, v, q, i);
  }

  /** A buffer of `n` bytes read straight from the disk at page `first`, once the pages
      before `p` have been reconciled with the cache. */
  ghost function Reconciled(g: Geometry, disk: seq<Byte>, v: seq<Byte>, first: nat, p: nat, n: nat): (r: seq<Byte>)
    requires g.Valid() && g.limit <= |disk| && |v| == g.Size()
    requires Start(first, g.pageSize) <= Start(p, g.pageSize) <= Start(first, g.pageSize) + n <= g.Size()
    ensures |r| == n
  {
    var s, e := Start(first, g.pageSize), Start(p, g.pageSize);
    Stretch(v, s, e - s) + Stretch(disk, g.base + e, s + n - e)
  }

  lemma ReconciledNone(g: Geometry, disk: seq<Byte>, v: seq<Byte>, first: nat, last: nat, n: nat)
    requires g.Valid() && g.limit <= |disk| && |v| == g.Size()
    requires Start(first, g.pageSize) + n == Start(last, g.pageSize) <= g.Size()
    ensures Reconciled(g, disk, v, first, first, n) == Stretch(disk, g.base + Start(first, g.pageSize), n)
    ensures Reconciled(g, disk, v, first, last, n) == Stretch(v, Start(first, g.pageSize), n)
  {
    hide Start;
  }

  /** A full page of the flat bytes is the slot's if that is dirty, else the disk's. */
  lemma PageOfView(g: Geometry, im: Image, disk: seq<Byte>, v: seq<Byte>, p: nat)
    requires Represents(g, im, disk, v) && Start(p, g.pageSize) + g.pageSize <= g.Size()
    ensures Stretch(v, Start(p, g.pageSize), g.pageSize) ==
      if Holds(g, im, p) && im.tags[g.Slot(p)].dirty then im.pages[g.Slot(p)]
      else Stretch(disk, g.base + Start(p, g.pageSize), g.pageSize)
  {
    hide Start, Rest, Unit;
    var e := Start(p, g.pageSize);
    var page := Stretch(v, e, g.pageSize);
    if Holds(g, im, p) && im.tags[g.Slot(p)].dirty {
      StretchOfPage(g, im, disk, v, p, 0, g.pageSize);
    } else {
      forall o | 0 <= o < g.pageSize
        ensures page[o] == disk[g.base + e + o]
      {
        ByteOfPage(g, im, disk, v, p, e + o);
      }
    }
  }

  /** Copying a dirty held page over its part, and nothing otherwise, reconciles page `p`. */
  lemma ReconcilePage(g: Geometry, im: Image, disk: seq<Byte>, v: seq<Byte>, first: nat, p: nat, n: nat)
    requires Represents(g, im, disk, v)
    requires Start(first, g.pageSize) <= Start(p, g.pageSize)
    requires Start(p, g.pageSize) + g.pageSize == Start(p + 1, g.pageSize) <= Start(first, g.pageSize) + n <= g.Size()
    ensures var b := Reconciled(g, disk, v, first, p, n);
      Reconciled(g, disk, v, first, p + 1, n) ==
      if Holds(g, im, p) && im.tags[g.Slot(p)].dirty
      then Splice(b, Start(p, g.pageSize) - Start(first, g.pageSize), im.pages[g.Slot(p)]) else b
  {
    hide Start, Rest, Unit, Geometry.Slot, Stretch, Splice;
    PageOfView(g, im, disk, v, p);
    hide Represents;
    var s, e, z := Start(first, g.pageSize), Start(p, g.pageSize), g.pageSize;
    var A, P, D, C := Stretch(v, s, e - s), Stretch(v, e, z), Stretch(disk, g.base + e, z),
        Stretch(disk, g.base + e + z, s + n - e - z);
    StretchPlus(v, s, e - s, z);
    StretchPlus(disk, g.base + e, z, s + n - e - z);
    ReplaceMiddle(A, D, C, P);
    assert Reconciled(g, disk, v, first, p, n) == A + (D + C);
    assert Stretch(v, s, e + z - s) == A + P;
    assert Reconciled(g, disk, v, first, p + 1, n) == (A + P) + C;
    assert |A| == e - s;
    if Holds(g, im, p) && im.tags[g.Slot(p)].dirty {
      assert P == im.pages[g.Slot(p)];
      assert Splice(A + (D + C), e - s, P) == (A + P) + C;
    } else {
      assert P == D;
      assert A + (D + C) == (A + P) + C;
    }
  }

  function EmptyImage(g: Geometry): Image {
    Image(seq(g.groups, _ => Tag(0, 0, false)), seq(g.groups, _ => seq(g.pageSize, _ => 0)))
  }

  /** Empty slots: the cache as AllocateZeroPool leaves it. */
  lemma FreshRepresents(g: Geometry, im: Image, disk: seq<Byte>)
    requires Shaped(g, im) && g.limit <= |disk|
    requires forall k :: 0 <= k < g.groups ==> im.tags[k].realSize == 0
    ensures Represents(g, im, disk, disk[g.base..g.limit])
  {
  }

  /** With no dirty page left, the disk itself holds the flat bytes. */
  lemma CleanIsDisk(g: Geometry, im: Image, disk: seq<Byte>, v: seq<Byte>)
    requires Represents(g, im, disk, v)
    requires AllClean(im.tags)
    ensures disk[g.base..g.limit] == v
  {
    hide Start, Unit, Rest, Geometry.Slot;
    forall i | 0 <= i < |v|
      ensures disk[g.base + i] == v[i]
    {
      var p := Unit(i, g.pageSize);
      Locate(i, g.pageSize, p);
      assert SlotOk(g, im, disk, g.Slot(p));
      assert v[i] == ViewAt(g, im, disk, i);
    }
  }
}

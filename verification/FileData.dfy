/** Where the bytes of a cluster chain lie in the data area, and what overwriting a
    stretch of the data area does to one file and to all others. */
module FileData {
  import opened Bytes
  import opened FatTable
  import opened Lists

  /** The data area: `first` is the position of cluster 2. */
  datatype DataArea = DataArea(first: nat, clusterSize: nat, maxCluster: nat) {
    predicate Valid() {
      clusterSize > 0
    }

    predicate Fits(data: seq<Byte>) {
      Valid() && first + Start(maxCluster, clusterSize) <= |data|
    }

    predicate Has(c: nat) {
      MIN_CLUSTER <= c <= maxCluster + 1
    }

    function ClusterPos(c: nat): nat
      requires Has(c)
    {
      first + Start(c - MIN_CLUSTER, clusterSize)
    }

    ghost predicate Holds(ch: seq<nat>) {
      forall k :: 0 <= k < |ch| ==> Has(ch[k])
    }

    /** Position on the disk of byte `p` of the file with chain `ch`. */
    function Where(ch: seq<nat>, p: nat): nat
      requires Valid() && Unit(p, clusterSize) < |ch| && Has(ch[Unit(p, clusterSize)])
    {
      ClusterPos(ch[Unit(p, clusterSize)]) + Rest(p, clusterSize)
    }
  }

  /** A byte of the file lies on the disk, in its own cluster. */
  lemma WhereInside(g: DataArea, data: seq<Byte>, ch: seq<nat>, p: nat)
    requires g.Fits(data) && g.Holds(ch) && p < Start(|ch|, g.clusterSize)
    ensures Unit(p, g.clusterSize) < |ch| && g.Where(ch, p) < |data|
  {
    hide Start, Unit, Rest;
    LocateRange(p, g.clusterSize, 0, |ch|);
    StartStep(0, g.clusterSize);
    var c := ch[Unit(p, g.clusterSize)];
    StartMono(c - MIN_CLUSTER, g.maxCluster, g.clusterSize);
  }

  /** All bytes of the clusters of `ch`, in file order. */
  ghost function Contents(g: DataArea, data: seq<Byte>, ch: seq<nat>): (r: seq<Byte>)
    requires g.Fits(data) && g.Holds(ch)
    ensures |r| == Start(|ch|, g.clusterSize)
  {
    seq(Start(|ch|, g.clusterSize),
        p requires 0 <= p < Start(|ch|, g.clusterSize) => (WhereInside(g, data, ch, p); data[g.Where(ch, p)]))
  }

  lemma ContentsAt(g: DataArea, data: seq<Byte>, ch: seq<nat>, p: nat)
    requires g.Fits(data) && g.Holds(ch) && p < Start(|ch|, g.clusterSize)
    ensures Unit(p, g.clusterSize) < |ch| && g.Where(ch, p) < |data|
    ensures Contents(g, data, ch)[p] == data[g.Where(ch, p)]
  {
    WhereInside(g, data, ch, p);
  }

  /** Different clusters do not overlap: a disk position tells cluster and offset. */
  lemma ClusterApart(g: DataArea, c: nat, o: nat, d: nat, q: nat)
    requires g.Valid() && g.Has(c) && g.Has(d) && o < g.clusterSize && q < g.clusterSize
    requires g.ClusterPos(c) + o == g.ClusterPos(d) + q
    ensures c == d && o == q
  {
    hide Start;
    StartMono(c - MIN_CLUSTER, d - MIN_CLUSTER, g.clusterSize);
    StartMono(d - MIN_CLUSTER, c - MIN_CLUSTER, g.clusterSize);
  }

  /** No two bytes of a file share a disk position. */
  lemma WhereInjective(g: DataArea, ch: seq<nat>, p: nat, q: nat)
    requires g.Valid() && g.Holds(ch) && NoRepeats(ch)
    requires Unit(p, g.clusterSize) < |ch| && Unit(q, g.clusterSize) < |ch|
    requires g.Where(ch, p) == g.Where(ch, q)
    ensures p == q
  {
    hide Start, Unit, Rest;
    var u, v := Unit(p, g.clusterSize), Unit(q, g.clusterSize);
    ClusterApart(g, ch[u], Rest(p, g.clusterSize), ch[v], Rest(q, g.clusterSize));
    assert u == v;
  }

  /** From position `p` on the next `n` bytes of the file are consecutive on the disk. */
  ghost predicate Straight(g: DataArea, ch: seq<nat>, p: nat, n: nat)
    requires g.Valid() && g.Holds(ch) && p + n <= Start(|ch|, g.clusterSize)
  {
    forall d :: 0 <= d < n ==> StraightAt(g, ch, p, d)
  }

  ghost predicate StraightAt(g: DataArea, ch: seq<nat>, p: nat, d: nat)
    requires g.Valid() && g.Holds(ch) && p + d < Start(|ch|, g.clusterSize)
  {
    && Unit(p, g.clusterSize) < |ch| && Unit(p + d, g.clusterSize) < |ch|
    && g.Where(ch, p + d) == g.Where(ch, p) + d
  }

  /** Consecutive clusters make a straight run up to the end of the last of them. */
  lemma ConsecutiveIsStraight(g: DataArea, ch: seq<nat>, p: nat, j: nat)
    requires g.Valid() && g.Holds(ch) && Unit(p, g.clusterSize) + j < |ch|
    requires var u := Unit(p, g.clusterSize); forall v {:trigger ch[v]} :: u <= v <= u + j ==> ch[v] == ch[u] + (v - u)
    ensures var u := Unit(p, g.clusterSize);
      && p <= Start(u + j + 1, g.clusterSize) <= Start(|ch|, g.clusterSize)
      && Straight(g, ch, p, Start(u + j + 1, g.clusterSize) - p)
  {
    hide Start, Unit, Rest;
    var s, u := g.clusterSize, Unit(p, g.clusterSize);
    StartMono(u + 1, u + j + 1, s);
    StartMono(u + j + 1, |ch|, s);
    StartStep(u, s);
    forall d | 0 <= d < Start(u + j + 1, s) - p
      ensures StraightAt(g, ch, p, d)
    {
      var v := Unit(p + d, s);
      LocateRange(p + d, s, u, u + j + 1);
      var i := v - u;
      StartPlus(ch[u] - MIN_CLUSTER, i, s);
      StartPlus(u, i, s);
      assert ch[v] - MIN_CLUSTER == ch[u] - MIN_CLUSTER + i;
    }
  }

  /** Reading a straight run of the disk reads the file. */
  lemma StraightRead(g: DataArea, data: seq<Byte>, ch: seq<nat>, p: nat, n: nat)
    requires g.Fits(data) && g.Holds(ch) && p + n <= Start(|ch|, g.clusterSize) && 0 < n
    requires Straight(g, ch, p, n)
    ensures Unit(p, g.clusterSize) < |ch| && g.Where(ch, p) + n <= |data|
    ensures Stretch(data, g.Where(ch, p), n) == Stretch(Contents(g, data, ch), p, n)
  {
    hide Start, Unit, Rest, Contents, DataArea.Where;
    WhereInside(g, data, ch, p);
    WhereInside(g, data, ch, p + (n - 1));
    assert StraightAt(g, ch, p, n - 1);
    var a, b := Stretch(data, g.Where(ch, p), n), Stretch(Contents(g, data, ch), p, n);
    forall d | 0 <= d < n
      ensures a[d] == b[d]
    {
      StraightReadByte(g, data, ch, p, n, d);
    }
  }

  lemma StraightReadByte(g: DataArea, data: seq<Byte>, ch: seq<nat>, p: nat, n: nat, d: nat)
    requires g.Fits(data) && g.Holds(ch) && p + n <= Start(|ch|, g.clusterSize) && d < n
    requires Straight(g, ch, p, n)
    ensures Unit(p, g.clusterSize) < |ch| && g.Where(ch, p) + d < |data|
    ensures data[g.Where(ch, p) + d] == Contents(g, data, ch)[p + d]
  {
    hide Start, Unit, Rest, Contents, DataArea.Where;
    assert StraightAt(g, ch, p, d);
    ContentsAt(g, data, ch, p + d);
  }

  /** Overwriting a straight run of the disk overwrites that stretch of the file only. */
  lemma StraightWrite(g: DataArea, data: seq<Byte>, ch: seq<nat>, p: nat, b: seq<Byte>)
    requires g.Fits(data) && g.Holds(ch) && NoRepeats(ch) && p + |b| <= Start(|ch|, g.clusterSize) && 0 < |b|
    requires Straight(g, ch, p, |b|)
    ensures Unit(p, g.clusterSize) < |ch| && g.Where(ch, p) + |b| <= |data|
    ensures Contents(g, Splice(data, g.Where(ch, p), b), ch) == Splice(Contents(g, data, ch), p, b)
  {
    StraightRead(g, data, ch, p, |b|);
    hide Start, Unit, Rest, Contents, DataArea.Where, Straight;
    var r, e := Contents(g, Splice(data, g.Where(ch, p), b), ch), Splice(Contents(g, data, ch), p, b);
    forall q | 0 <= q < |r|
      ensures r[q] == e[q]
    {
      StraightWriteByte(g, data, ch, p, b, q);
    }
  }

  lemma StraightWriteByte(g: DataArea, data: seq<Byte>, ch: seq<nat>, p: nat, b: seq<Byte>, q: nat)
    requires g.Fits(data) && g.Holds(ch) && NoRepeats(ch) && p + |b| <= Start(|ch|, g.clusterSize) && 0 < |b|
    requires Straight(g, ch, p, |b|) && q < Start(|ch|, g.clusterSize)
    requires Unit(p, g.clusterSize) < |ch| && g.Where(ch, p) + |b| <= |data|
    ensures Contents(g, Splice(data, g.Where(ch, p), b), ch)[q] == if p <= q < p + |b| then b[q - p]
      else Contents(g, data, ch)[q]
  {
    hide Start, Unit, Rest, Contents, DataArea.Where;
    var at := g.Where(ch, p);
    ContentsAt(g, Splice(data, at, b), ch, q);
    ContentsAt(g, data, ch, q);
    if p <= q < p + |b| {
      assert StraightAt(g, ch, p, q - p);
    } else if at <= g.Where(ch, q) < at + |b| {
      var d := g.Where(ch, q) - at;
      assert StraightAt(g, ch, p, d);
      WhereInjective(g, ch, q, p + d);
    }
  }

  /** Bytes of no cluster outside `ch` differ. */
  ghost predicate OnlyIn(g: DataArea, data: seq<Byte>, data': seq<Byte>, ch: seq<nat>)
    requires g.Fits(data)
  {
    && |data'| == |data|
    && forall c :: g.Has(c) && c !in ch ==> SameCluster(g, data, data', c)
  }

  ghost predicate SameCluster(g: DataArea, data: seq<Byte>, data': seq<Byte>, c: nat)
    requires g.Fits(data) && |data'| == |data| && g.Has(c)
  {
    forall i {:trigger data'[i]} ::
        g.ClusterPos(c) <= i < g.ClusterPos(c) + g.clusterSize && i < |data| ==> data'[i] == data[i]
  }

  lemma StraightWriteElsewhere(g: DataArea, data: seq<Byte>, ch: seq<nat>, p: nat, b: seq<Byte>)
    requires g.Fits(data) && g.Holds(ch) && p + |b| <= Start(|ch|, g.clusterSize) && 0 < |b|
    requires Straight(g, ch, p, |b|)
    ensures Unit(p, g.clusterSize) < |ch| && g.Where(ch, p) + |b| <= |data|
    ensures OnlyIn(g, data, Splice(data, g.Where(ch, p), b), ch)
  {
    StraightRead(g, data, ch, p, |b|);
    hide Start, Unit, Rest, Contents;
    var at, data' := g.Where(ch, p), Splice(data, g.Where(ch, p), b);
    forall c | g.Has(c) && c !in ch
      ensures SameCluster(g, data, data', c)
    {
      forall i | g.ClusterPos(c) <= i < g.ClusterPos(c) + g.clusterSize && i < |data|
        ensures data'[i] == data[i]
      {
        if at <= i < at + |b| {
          assert StraightAt(g, ch, p, i - at);
          var v := Unit(p + (i - at), g.clusterSize);
          ClusterApart(g, c, i - g.ClusterPos(c), ch[v], Rest(p + (i - at), g.clusterSize));
          assert false;
        }
      }
    }
  }

  /** A file that shares no cluster with `ch` keeps its contents. */
  lemma OtherContents(g: DataArea, data: seq<Byte>, data': seq<Byte>, ch: seq<nat>, other: seq<nat>)
    requires g.Fits(data) && OnlyIn(g, data, data', ch) && g.Holds(other)
    requires forall k :: 0 <= k < |other| ==> other[k] !in ch
    ensures Contents(g, data', other) == Contents(g, data, other)
  {
    hide Start, Unit, Rest, Contents;
    var r, e := Contents(g, data', other), Contents(g, data, other);
    forall p | 0 <= p < |r|
      ensures r[p] == e[p]
    {
      ContentsAt(g, data, other, p);
      ContentsAt(g, data', other, p);
      assert SameCluster(g, data, data', other[Unit(p, g.clusterSize)]);
    }
  }

  lemma OnlyInTrans(g: DataArea, data: seq<Byte>, data1: seq<Byte>, data2: seq<Byte>, ch: seq<nat>)
    requires g.Fits(data) && OnlyIn(g, data, data1, ch) && OnlyIn(g, data1, data2, ch)
    ensures OnlyIn(g, data, data2, ch)
  {
    hide DataArea.ClusterPos;
    forall c | g.Has(c) && c !in ch
      ensures SameCluster(g, data, data2, c)
    {
      assert SameCluster(g, data, data1, c) && SameCluster(g, data1, data2, c);
    }
  }

  /** A prefix of the chain holds a prefix of the contents. */
  lemma ContentsPrefix(g: DataArea, data: seq<Byte>, ch: seq<nat>, n: nat)
    requires g.Fits(data) && g.Holds(ch) && n <= |ch|
    ensures Start(n, g.clusterSize) <= Start(|ch|, g.clusterSize)
    ensures Contents(g, data, ch[..n]) == Stretch(Contents(g, data, ch), 0, Start(n, g.clusterSize))
  {
    hide Start, Unit, Rest, Contents;
    StartMono(n, |ch|, g.clusterSize);
    var r, e := Contents(g, data, ch[..n]), Stretch(Contents(g, data, ch), 0, Start(n, g.clusterSize));
    forall p | 0 <= p < |r|
      ensures r[p] == e[p]
    {
      ContentsAt(g, data, ch[..n], p);
      ContentsAt(g, data, ch, p);
    }
  }

  /** What an open file's bytes are made of: the fixed root directory of FAT12 and FAT16
      at the start of the data area, or a cluster chain. */
  datatype Extent = Fixed(size: nat) | Chained(ch: seq<nat>)

  ghost predicate ExtentOk(g: DataArea, e: Extent) {
    match e
    case Fixed(size) => size <= g.first
    case Chained(ch) => g.Holds(ch) && NoRepeats(ch)
  }

  function Capacity(g: DataArea, e: Extent): nat {
    match e
    case Fixed(size) => size
    case Chained(ch) => Start(|ch|, g.clusterSize)
  }

  /** The file as a flat byte sequence. */
  ghost function View(g: DataArea, data: seq<Byte>, e: Extent): (r: seq<Byte>)
    requires g.Fits(data) && ExtentOk(g, e)
    ensures |r| == Capacity(g, e)
  {
    match e
    case Fixed(size) => Stretch(data, 0, size)
    case Chained(ch) => Contents(g, data, ch)
  }

  /** The clusters a write to the file may change. */
  function Own(e: Extent): seq<nat> {
    match e
    case Fixed(_) => []
    case Chained(ch) => ch
  }

  /** The `n` bytes at disk position `at` are bytes `p..p+n` of the file. */
  ghost predicate RunAt(g: DataArea, e: Extent, p: nat, n: nat, at: nat)
    requires g.Valid() && ExtentOk(g, e)
  {
    && 0 < n && p + n <= Capacity(g, e)
    && match e
       case Fixed(_) => at == p
       case Chained(ch) => Unit(p, g.clusterSize) < |ch| && at == g.Where(ch, p) && Straight(g, ch, p, n)
  }

  lemma RunShorter(g: DataArea, e: Extent, p: nat, n: nat, at: nat, m: nat)
    requires g.Valid() && ExtentOk(g, e) && RunAt(g, e, p, n, at) && 0 < m <= n
    ensures RunAt(g, e, p, m, at)
  {
    hide Start, Unit;
  }

  lemma RunRead(g: DataArea, data: seq<Byte>, e: Extent, p: nat, n: nat, at: nat)
    requires g.Fits(data) && ExtentOk(g, e) && RunAt(g, e, p, n, at)
    ensures at + n <= |data| && Stretch(data, at, n) == Stretch(View(g, data, e), p, n)
  {
    hide Start, Unit, Rest, Straight, Contents, DataArea.Where;
    match e
    case Fixed(size) => StretchOfStretch(data, 0, size, p, n);
    case Chained(ch) => StraightRead(g, data, ch, p, n);
  }

  lemma RunWrite(g: DataArea, data: seq<Byte>, e: Extent, p: nat, b: seq<Byte>, at: nat)
    requires g.Fits(data) && ExtentOk(g, e) && RunAt(g, e, p, |b|, at)
    ensures at + |b| <= |data|
    ensures View(g, Splice(data, at, b), e) == Splice(View(g, data, e), p, b)
    ensures OnlyIn(g, data, Splice(data, at, b), Own(e))
  {
    hide Start, Unit, Rest, Straight, Contents, DataArea.Where;
    match e
    case Fixed(size) =>
      StretchOfSplice(data, 0, size, at, b);
      forall c | g.Has(c)
        ensures SameCluster(g, data, Splice(data, at, b), c)
      {
      }
    case Chained(ch) =>
      StraightWrite(g, data, ch, p, b);
      StraightWriteElsewhere(g, data, ch, p, b);
  }
}

/** Appending, inserting and removing an entry, as seen by a scan of the directory. */
module DirChange {
  import opened Bytes
  import opened DirSlots
  import opened DirScan

  /** Only end marks from slot `n` on. */
  ghost predicate Clean(slots: seq<Slot>, n: nat) {
    forall i :: n <= i < |slots| ==> Ends(slots[i])
  }

  /** A cluster of zero bytes as slots. */
  function ZeroSlots(n: nat): (r: seq<Slot>)
    ensures |r| == n && forall i :: 0 <= i < n ==> Ends(r[i])
  {
    seq(n, _ => ZeroSlot())
  }

  function ZeroSlot(): (s: Slot)
    ensures Ends(s)
  {
    seq(32, _ => 0)
  }

  /** The slots a stored entry uses: long-name slots, and the entry behind them. */
  lemma StoredRange(slots: seq<Slot>, e: DirEnt, deleted: bool)
    requires e.pos < |slots| && 0 < e.count && 0 <= e.First() && Attributes(e.entry) != LFN
    ensures var r := Stored(slots, e, deleted);
      && r[e.pos] == e.entry && (forall i :: e.First() <= i < e.pos ==> Skipped(r[i]))
      && (forall i :: 0 <= i < |slots| && !(e.First() <= i <= e.pos) ==> r[i] == slots[i])
    ensures (forall i :: e.First() <= i < e.pos ==> !Live(slots[i])) ==>
      Rewritten(slots, Stored(slots, e, deleted), e.First(), e.pos)
  {
    hide LfnSlot, LfnBuffer, CheckSum, Stored;
    var r := Stored(slots, e, deleted);
    forall i | e.First() <= i < e.pos
      ensures Skipped(r[i])
    {
      var o := e.pos - i;
      var k := e.count - 1;
      assert r[i] == SlotOf(e, deleted, o);
      LfnRoundTrip(if deleted then DELETED else if o == k then (o + 0x40) % 0x100 else o % 0x100,
                   CheckSum(ShortName(e.entry)), LfnBuffer(e.name, k)[LFN_CHARS * (o - 1)..LFN_CHARS * o]);
    }
  }

  /** Slots added at the end do not change what is found before. */
  lemma GrownScan(slots: seq<Slot>, more: seq<Slot>, n: nat)
    requires n <= |slots|
    ensures Between(slots + more, 0, n) == Between(slots, 0, n)
  {
    hide Load, Live;
    forall q | 0 <= q < n
      ensures SameAt(slots, slots + more, q)
    {
      LoadLocal(slots, slots + more, q);
    }
    BetweenSame(slots, slots + more, 0, n);
  }

  /** Appending: the entry follows all others. */
  lemma AppendScan(slots: seq<Slot>, n: nat, e: DirEnt)
    requires n <= |slots| && Clean(slots, n) && Storable(e) && e.First() == n && e.pos < |slots| && NoEnds(slots, n)
    ensures var r := Stored(slots, e, false);
      && NoEnds(r, e.pos + 1) && Clean(r, e.pos + 1)
      && (!Mistaken(slots, e) ==> Between(r, 0, e.pos + 1) == Between(slots, 0, n) + [e])
  {
    hide Load, Storable, Stored, Mistaken;
    StorableFacts(e);
    StoredRange(slots, e, false);
    var r := Stored(slots, e, false);
    RewrittenScan(slots, r, n, e.pos, e.pos + 1);
    StoreLoad(slots, e);
    assert Between(slots, e.pos + 1, e.pos + 1) == [];
  }

  lemma StorableFacts(e: DirEnt)
    requires Storable(e)
    ensures 0 < e.count && 0 <= e.First() && Live(e.entry) && Attributes(e.entry) != LFN
  {
  }

  /** The gap between two neighbours of an ordered listing. */
  ghost predicate InGap(list: seq<DirEnt>, i: nat, e: DirEnt) {
    && i <= |list| && 0 < e.count && 0 <= e.First()
    && (i > 0 ==> list[i - 1].pos < e.First()) && (i < |list| ==> e.pos < list[i].First())
  }

  /** No live slot lies in a gap. */
  lemma GapIsFree(slots: seq<Slot>, n: nat, i: nat, e: DirEnt, q: nat)
    requires n <= |slots| && InGap(Between(slots, 0, n), i, e) && e.First() <= q <= e.pos && q < n
    ensures !Live(slots[q])
  {
    hide Load, Live, Between;
    if Live(slots[q]) {
      ScanIsOrdered(slots, n);
      var j := IndexOfLive(slots, n, q);
      assert false;
    }
  }

  lemma IndexOfLive(slots: seq<Slot>, n: nat, q: nat) returns (j: nat)
    requires q < n <= |slots| && Live(slots[q])
    ensures j < |Between(slots, 0, n)| && Between(slots, 0, n)[j].pos == q && Between(slots, 0, n)[j] == Load(slots, q)
  {
    hide Load, Live, Between;
    LiveIsFound(slots, 0, n, q);
    j :| j < |Between(slots, 0, n)| && Between(slots, 0, n)[j] == Load(slots, q);
  }

  /** Inserting into a gap: the listing gets the entry at that place. */
  lemma InsertScan(slots: seq<Slot>, n: nat, i: nat, e: DirEnt)
    requires n <= |slots| && Storable(e) && e.pos < n && InGap(Between(slots, 0, n), i, e) && NoEnds(slots, n)
    ensures var r := Stored(slots, e, false);
      && NoEnds(r, n)
      && (!Mistaken(slots, e) ==> Between(r, 0, n) == Between(slots, 0, n)[..i] + [e] + Between(slots, 0, n)[i..])
  {
    hide Load, Live, Between, Storable, Stored, Ends, Mistaken, Ordered;
    StorableFacts(e);
    var r := Stored(slots, e, false);
    forall q | e.First() <= q <= e.pos
      ensures !Live(slots[q])
    {
      GapIsFree(slots, n, i, e, q);
    }
    StoredRange(slots, e, false);
    StoredNoEnd(slots, e, n);
    forall q | e.pos < q < n && Live(slots[q])
      ensures e.pos < Load(slots, q).First()
    {
      BehindGap(slots, n, i, e, q);
    }
    RewrittenScan(slots, r, e.First(), e.pos, n);
    StoreLoad(slots, e);
    SplitAtGap(slots, n, i, e);
  }

  lemma StoredNoEnd(slots: seq<Slot>, e: DirEnt, n: nat)
    requires n <= |slots| && Storable(e) && e.pos < n && NoEnds(slots, n)
    ensures 0 < e.count && 0 <= e.First() && NoEnds(Stored(slots, e, false), n)
  {
    hide Stored;
    StorableFacts(e);
    StoredRange(slots, e, false);
  }

  /** Entries behind a gap begin behind it. */
  lemma BehindGap(slots: seq<Slot>, n: nat, i: nat, e: DirEnt, q: nat)
    requires n <= |slots| && InGap(Between(slots, 0, n), i, e) && e.pos < q < n && Live(slots[q])
    ensures e.pos < Load(slots, q).First()
  {
    hide Load, Live, Between;
    ScanIsOrdered(slots, n);
    var j := IndexOfLive(slots, n, q);
  }

  /** The gap splits the listing at `i`. */
  lemma SplitAtGap(slots: seq<Slot>, n: nat, i: nat, e: DirEnt)
    requires n <= |slots| && e.pos < n && InGap(Between(slots, 0, n), i, e)
    ensures Between(slots, 0, e.First()) == Between(slots, 0, n)[..i]
    ensures Between(slots, e.pos + 1, n) == Between(slots, 0, n)[i..]
  {
    hide Load, Live;
    forall q | e.First() <= q <= e.pos
      ensures !Live(slots[q])
    {
      GapIsFree(slots, n, i, e, q);
    }
    ScanParts(slots, e.First(), e.pos, n);
    var list, a, b := Between(slots, 0, n), Between(slots, 0, e.First()), Between(slots, e.pos + 1, n);
    hide Between, InGap;
    assert list == a + b;
    PosBounds(slots, 0, e.First());
    PosBounds(slots, e.pos + 1, n);
    ScanIsOrdered(slots, n);
    GapBounds(list, i, e);
    hide Ordered;
    SplitUnique(list, a, b, i, e.First());
  }

  lemma PosBounds(slots: seq<Slot>, lo: nat, hi: nat)
    requires lo <= hi <= |slots|
    ensures forall k {:trigger Between(slots, lo, hi)[k]} ::
      0 <= k < |Between(slots, lo, hi)| ==> lo <= Between(slots, lo, hi)[k].pos < hi
  {
    hide Load, Live, Between;
    BetweenIs(slots, lo, hi);
  }

  lemma GapBounds(list: seq<DirEnt>, i: nat, e: DirEnt)
    requires Ordered(list) && InGap(list, i, e)
    ensures forall k :: 0 <= k < i ==> list[k].pos < e.First()
    ensures forall k :: i <= k < |list| ==> list[k].pos >= e.First()
  {
  }

  /** There is one place to split a listing at a slot. */
  lemma SplitUnique(list: seq<DirEnt>, a: seq<DirEnt>, b: seq<DirEnt>, i: nat, x: int)
    requires list == a + b && i <= |list|
    requires (forall k :: 0 <= k < |a| ==> a[k].pos < x) && (forall k :: 0 <= k < |b| ==> b[k].pos >= x)
    requires (forall k :: 0 <= k < i ==> list[k].pos < x) && (forall k :: i <= k < |list| ==> list[k].pos >= x)
    ensures |a| == i && a == list[..i] && b == list[i..]
  {
    assert |a| < |list| ==> list[|a|] == b[0];
    assert forall k :: 0 <= k < |a| ==> list[k] == a[k];
    assert i < |list| ==> list[i].pos >= x;
  }

  /** Removing: the listing loses the entry. */
  lemma RemoveScan(slots: seq<Slot>, n: nat, i: nat)
    requires n <= |slots| && i < |Between(slots, 0, n)| && NoEnds(slots, n)
    ensures var list := Between(slots, 0, n);
      var e := list[i];
      && e.pos < n && 0 < e.count && 0 <= e.First()
      && var r := Stored(slots, e.(entry := Gone(e.entry)), true);
         && Between(r, 0, n) == list[..i] + list[i + 1..]
         && NoEnds(r, n)
         && (forall j :: n <= j < |slots| ==> r[j] == slots[j])
  {
    hide Load, Between, Stored;
    var list := Between(slots, 0, n);
    var e := list[i];
    BetweenIs(slots, 0, n);
    assert FoundIn(slots, 0, n, e);
    LoadedFacts(slots, e.pos);
    var g := e.(entry := Gone(e.entry));
    var r := Stored(slots, g, true);
    StoredRange(slots, g, true);
    assert Skipped(g.entry);
    forall q | e.pos < q < n && Live(slots[q])
      ensures e.pos < Load(slots, q).First()
    {
      LoadAfterLive(slots, e.pos, q);
    }
    RewrittenScan(slots, r, e.First(), e.pos, n);
    assert EntryAt(r, e.pos) == [] && EntryAt(slots, e.pos) == [e];
    PlaceOf(slots, n, i, e.First());
  }

  /** ... and every slot of the entry is skipped from then on. */
  lemma RemovedSlots(slots: seq<Slot>, n: nat, i: nat)
    requires n <= |slots| && i < |Between(slots, 0, n)|
    ensures var e := Between(slots, 0, n)[i];
      && e.pos < n && 0 < e.count && 0 <= e.First()
      && var r := Stored(slots, e.(entry := Gone(e.entry)), true);
         && (forall q :: e.First() <= q <= e.pos ==> Skipped(r[q]))
         && (forall q :: 0 <= q < |slots| && !(e.First() <= q <= e.pos) ==> r[q] == slots[q])
  {
    hide Load, Between, Stored;
    var e := Between(slots, 0, n)[i];
    BetweenIs(slots, 0, n);
    assert FoundIn(slots, 0, n, e);
    LoadedFacts(slots, e.pos);
    StoredRange(slots, e.(entry := Gone(e.entry)), true);
  }

  /** A loaded entry: what its own slots are like. */
  lemma LoadedFacts(slots: seq<Slot>, p: nat)
    requires p < |slots| && Live(slots[p])
    ensures var e := Load(slots, p);
      && Attributes(Gone(e.entry)) != LFN && forall q :: e.First() <= q < p ==> !Live(slots[q])
  {
    var e := Load(slots, p);
    var sum := CheckSum(ShortName(slots[p]));
    hide Chain, CheckSum, Continues;
    forall q | e.First() <= q < p
      ensures !Live(slots[q])
    {
      ChainContinues(slots, p, sum, 1, [], p - q);
      LfnNotLive(slots[q], sum, p - q);
    }
  }

  lemma LfnNotLive(s: Slot, sum: Byte, o: nat)
    requires Continues(s, sum, o)
    ensures !Live(s)
  {
  }

  /** What lies before and behind the `i`-th entry. */
  lemma PlaceOf(slots: seq<Slot>, n: nat, i: nat, a: nat)
    requires n <= |slots| && i < |Between(slots, 0, n)| && a == Between(slots, 0, n)[i].First()
    requires var e := Between(slots, 0, n)[i];
      e.pos < n && a <= e.pos && Between(slots, 0, n) == Between(slots, 0, a) + [e] + Between(slots, e.pos + 1, n)
    ensures var e := Between(slots, 0, n)[i];
      Between(slots, 0, a) == Between(slots, 0, n)[..i] && Between(slots, e.pos + 1, n) == Between(slots, 0, n)[i + 1..]
  {
    hide Load, Between;
    var list := Between(slots, 0, n);
    var e, x, y := list[i], Between(slots, 0, a), Between(slots, list[i].pos + 1, n);
    BetweenIs(slots, 0, a);
    BetweenIs(slots, e.pos + 1, n);
    ScanIsOrdered(slots, n);
    assert list == x + ([e] + y);
    SplitUnique(list, x, [e] + y, i, a);
    assert list[i + 1..] == list[i..][1..];
  }

  // ---- the same, for the method that does it ----

  /** Appending, perhaps after a cluster of zeroes was added. */
  lemma AppendPlaced(slots: seq<Slot>, grown: seq<Slot>, cluster: nat, n: nat, e: DirEnt)
    requires n <= |slots| && Clean(slots, n) && NoEnds(slots, n)
      && (grown == slots || grown == slots + ZeroSlots(cluster))
    requires Storable(e) && e.First() == n && e.pos < |grown|
    ensures e !in Between(slots, 0, n) && 0 < e.count && 0 <= e.First()
    ensures var r := Stored(grown, e, false);
      && NoEnds(r, e.pos + 1) && Clean(r, e.pos + 1)
      && (!Mistaken(r, e) ==> Between(r, 0, e.pos + 1) == Between(slots, 0, n) + [e])
  {
    hide Load, Storable, Stored, Mistaken, Between, Ends;
    StorableFacts(e);
    GrownScan(slots, ZeroSlots(cluster), n);
    BetweenIs(slots, 0, n);
    AppendScan(grown, n, e);
    MistakenSame(grown, e);
  }

  lemma MistakenSame(slots: seq<Slot>, e: DirEnt)
    requires Storable(e) && e.pos < |slots|
    ensures 0 < e.count && 0 <= e.First() && Mistaken(Stored(slots, e, false), e) == Mistaken(slots, e)
  {
    hide Stored, Continues, CheckSum;
  }

  /** Inserting into a gap. */
  lemma InsertPlaced(slots: seq<Slot>, n: nat, i: nat, e: DirEnt)
    requires n <= |slots| && Clean(slots, n) && NoEnds(slots, n)
    requires Storable(e) && e.pos < n && InGap(Between(slots, 0, n), i, e)
    ensures e !in Between(slots, 0, n) && 0 < e.count && 0 <= e.First()
    ensures var r := Stored(slots, e, false);
      && NoEnds(r, n) && Clean(r, n)
      && (!Mistaken(r, e) ==> Between(r, 0, n) == Between(slots, 0, n)[..i] + [e] + Between(slots, 0, n)[i..])
  {
    hide Load, Storable, Stored, Mistaken, Between, Ends;
    StorableFacts(e);
    ScanIsOrdered(slots, n);
    InsertScan(slots, n, i, e);
    MistakenSame(slots, e);
    StoredRange(slots, e, false);
  }
}

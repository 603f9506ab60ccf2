/** What a scan of a directory finds, and how writing and removing an entry changes it. */
module DirScan {
  import opened Bytes
  import opened FatNames
  import opened DirSlots

  /** The entries at positions `lo .. hi`. */
  function Between(slots: seq<Slot>, lo: nat, hi: nat): seq<DirEnt>
    requires lo <= hi <= |slots|
    decreases hi - lo
  {
    if lo == hi then []
    else Between(slots, lo, hi - 1) + if Live(slots[hi - 1]) then [Load(slots, hi - 1)] else []
  }

  lemma {:induction false} BetweenSplit(slots: seq<Slot>, lo: nat, mid: nat, hi: nat)
    requires lo <= mid <= hi <= |slots|
    ensures Between(slots, lo, hi) == Between(slots, lo, mid) + Between(slots, mid, hi)
    decreases hi - mid
  {
    if mid < hi {
      BetweenSplit(slots, lo, mid, hi - 1);
    }
  }

  lemma {:induction false} BetweenNone(slots: seq<Slot>, lo: nat, hi: nat)
    requires lo <= hi <= |slots| && forall q :: lo <= q < hi ==> !Live(slots[q])
    ensures Between(slots, lo, hi) == []
    decreases hi - lo
  {
    if lo < hi {
      BetweenNone(slots, lo, hi - 1);
    }
  }

  /** The directory does not end before slot `n`. */
  ghost predicate NoEnds(slots: seq<Slot>, n: nat)
    requires n <= |slots|
  {
    forall i :: 0 <= i < n ==> !Ends(slots[i])
  }

  /** The same entry lies at `q` in both directories. */
  ghost predicate SameAt(slots: seq<Slot>, slots': seq<Slot>, q: nat)
    requires q < |slots| && q < |slots'|
  {
    Live(slots[q]) == Live(slots'[q]) && (Live(slots[q]) ==> Load(slots, q) == Load(slots', q))
  }

  lemma {:induction false} BetweenSame(slots: seq<Slot>, slots': seq<Slot>, lo: nat, hi: nat)
    requires lo <= hi <= |slots| && hi <= |slots'| && forall q :: lo <= q < hi ==> SameAt(slots, slots', q)
    ensures Between(slots, lo, hi) == Between(slots', lo, hi)
    decreases hi - lo
  {
    if lo < hi {
      BetweenSame(slots, slots', lo, hi - 1);
      assert SameAt(slots, slots', hi - 1);
    }
  }

  /** Every entry found is where it says, as loaded there. */
  lemma {:induction false} BetweenIs(slots: seq<Slot>, lo: nat, hi: nat)
    requires lo <= hi <= |slots|
    ensures AllFound(slots, lo, hi, Between(slots, lo, hi))
    decreases hi - lo
  {
    hide Load, Live;
    if lo < hi {
      BetweenIs(slots, lo, hi - 1);
    }
  }

  /** Every live slot is found. */
  lemma {:induction false} LiveIsFound(slots: seq<Slot>, lo: nat, hi: nat, q: nat)
    requires lo <= q < hi <= |slots| && Live(slots[q])
    ensures Load(slots, q) in Between(slots, lo, hi)
    decreases hi - lo
  {
    hide Load, Live;
    if q < hi - 1 {
      LiveIsFound(slots, lo, hi - 1, q);
    }
  }

  ghost predicate AllFound(slots: seq<Slot>, lo: nat, hi: nat, b: seq<DirEnt>)
    requires hi <= |slots|
  {
    forall i :: 0 <= i < |b| ==> FoundIn(slots, lo, hi, b[i])
  }

  ghost predicate FoundIn(slots: seq<Slot>, lo: nat, hi: nat, e: DirEnt)
    requires hi <= |slots|
  {
    lo <= e.pos < hi && Live(slots[e.pos]) && e == Load(slots, e.pos)
  }

  /** The long-name slots an entry counts do continue it, so none of them is live. */
  lemma {:induction false} ChainContinues(slots: seq<Slot>, pos: nat, sum: Byte, o: nat, buffer: seq<Char>, i: nat)
    requires pos < |slots| && 0 < o <= i < Chain(slots, pos, sum, o, buffer).1
    ensures i <= pos && Continues(slots[pos - i], sum, i)
    decreases pos + 1 - o
  {
    hide Continues, Chars;
    if i > o {
      ChainContinues(slots, pos, sum, o + 1, buffer + Chars(slots[pos - o]), i);
    }
  }

  /** Slots of two entries do not overlap. */
  lemma LoadAfterLive(slots: seq<Slot>, p: nat, q: nat)
    requires p < q < |slots| && Live(slots[p])
    ensures p < Load(slots, q).First()
  {
    hide Chain;
    if p >= Load(slots, q).First() {
      ChainContinues(slots, q, CheckSum(ShortName(slots[q])), 1, [], q - p);
      assert false;
    }
  }

  /** Entries in the order of their slots, no slot belonging to two. */
  ghost predicate Ordered(list: seq<DirEnt>) {
    && (forall i :: 0 <= i < |list| ==> 0 <= list[i].First() <= list[i].pos)
    && (forall i, j :: 0 <= i < j < |list| ==> list[i].pos < list[j].First())
  }

  /** Whatever the slots hold, a scan finds entries in order with disjoint slot ranges. */
  lemma {:induction false} ScanIsOrdered(slots: seq<Slot>, n: nat)
    requires n <= |slots|
    ensures Ordered(Between(slots, 0, n))
      && forall i :: 0 <= i < |Between(slots, 0, n)| ==> Between(slots, 0, n)[i].pos < n
  {
    hide Load, Live;
    if n > 0 {
      ScanIsOrdered(slots, n - 1);
      BetweenIs(slots, 0, n - 1);
      var b := Between(slots, 0, n - 1);
      forall i | 0 <= i < |b|
        ensures Live(slots[n - 1]) ==> b[i].pos < Load(slots, n - 1).First()
      {
        assert FoundIn(slots, 0, n - 1, b[i]);
        LoadAfterLive(slots, b[i].pos, n - 1);
      }
    }
  }

  /** An entry depends on its own slots, and on the one in front of them only while that
      looks like a long-name slot. */
  lemma LoadLocal(slots: seq<Slot>, slots': seq<Slot>, q: nat)
    requires q < |slots| && q < |slots'|
    requires var e := Load(slots, q);
      && (forall i :: e.First() <= i <= q ==> slots'[i] == slots[i])
      && (e.First() > 0 ==> slots'[e.First() - 1] == slots[e.First() - 1] || Attributes(slots'[e.First() - 1]) != LFN)
    ensures Load(slots', q) == Load(slots, q)
  {
    hide Chain;
    ChainLocal(slots, slots', q, CheckSum(ShortName(slots[q])), 1, []);
  }

  lemma {:induction false} ChainLocal(slots: seq<Slot>, slots': seq<Slot>, q: nat, sum: Byte, o: nat, buffer: seq<Char>)
    requires q < |slots| && q < |slots'| && o > 0
    requires var n := Chain(slots, q, sum, o, buffer).1;
      && (forall i :: q - n + 1 <= i <= q && i >= 0 ==> slots'[i] == slots[i])
      && (n <= q ==> slots'[q - n] == slots[q - n] || Attributes(slots'[q - n]) != LFN)
    ensures Chain(slots', q, sum, o, buffer) == Chain(slots, q, sum, o, buffer)
    decreases q + 1 - o
  {
    hide Chars, Ordinal, IsLast;
    if o <= q && Continues(slots[q - o], sum, o) && !IsLast(slots[q - o][0]) {
      ChainLocal(slots, slots', q, sum, o + 1, buffer + Chars(slots[q - o]));
    }
  }

  // ---- rewriting a range of slots ----

  /** `slots'` differs from `slots` only in `a .. p` and beyond the old end; slot `p` is
      the entry proper and those in front of it are none. */
  ghost predicate Rewritten(slots: seq<Slot>, slots': seq<Slot>, a: nat, p: nat) {
    && |slots| <= |slots'| && a <= p < |slots'|
    && (forall i :: 0 <= i < |slots| && !(a <= i <= p) ==> slots'[i] == slots[i])
    && Attributes(slots'[p]) != LFN
    && (forall i :: a <= i < p ==> !Live(slots'[i])) && (forall i :: a <= i < p && i < |slots| ==> !Live(slots[i]))
  }

  /** Entries outside the range are loaded as before. */
  lemma OthersLoad(slots: seq<Slot>, slots': seq<Slot>, a: nat, p: nat, q: nat)
    requires Rewritten(slots, slots', a, p) && q < |slots| && (q < a || p < q)
    requires Live(slots[q]) && p < q ==> p < Load(slots, q).First()
    ensures SameAt(slots, slots', q)
  {
    hide Chain, Live;
    if Live(slots[q]) {
      LoadLocal(slots, slots', q);
    }
  }

  function EntryAt(slots: seq<Slot>, p: nat): seq<DirEnt>
    requires p < |slots|
  {
    if Live(slots[p]) then [Load(slots, p)] else []
  }

  /** A scan after the change finds what it found before, except at `p`. */
  lemma RewrittenScan(slots: seq<Slot>, slots': seq<Slot>, a: nat, p: nat, n: nat)
    requires Rewritten(slots, slots', a, p) && p < n <= |slots|
    requires forall q :: p < q < n && Live(slots[q]) ==> p < Load(slots, q).First()
    ensures Between(slots, 0, n) == Between(slots, 0, a) + EntryAt(slots, p) + Between(slots, p + 1, n)
    ensures Between(slots', 0, n) == Between(slots, 0, a) + EntryAt(slots', p) + Between(slots, p + 1, n)
  {
    hide Load, Live, EntryAt, Between;
    ScanParts(slots, a, p, n);
    ScanParts(slots', a, p, n);
    hide Rewritten, SameAt;
    forall q | 0 <= q < n && (q < a || p < q)
      ensures SameAt(slots, slots', q)
    {
      OthersLoad(slots, slots', a, p, q);
    }
    BetweenSame(slots, slots', 0, a);
    BetweenSame(slots, slots', p + 1, n);
  }

  lemma ScanParts(slots: seq<Slot>, a: nat, p: nat, n: nat)
    requires a <= p < n <= |slots| && forall i :: a <= i < p ==> !Live(slots[i])
    ensures Between(slots, 0, n) == Between(slots, 0, a) + EntryAt(slots, p) + Between(slots, p + 1, n)
  {
    hide Load;
    BetweenSplit(slots, 0, a, n);
    BetweenSplit(slots, a, p, n);
    BetweenSplit(slots, p, p + 1, n);
    BetweenNone(slots, a, p);
    assert Between(slots, p, p) == [];
  }
}

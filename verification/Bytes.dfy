/** Bytes, in-place overwriting of a stretch of a sequence, and the little
    arithmetic about pages that every layer above needs. */
module Bytes {

  type Byte = x: int | 0 <= x < 256

  /** CopyMem into the middle of a buffer: `s` with `b` written at `at`. */
  function Splice<T>(s: seq<T>, at: nat, b: seq<T>): (r: seq<T>)
    requires at + |b| <= |s|
    ensures |r| == |s|
    ensures forall i {:trigger r[i]} :: 0 <= i < |s| ==> r[i] == if at <= i < at + |b| then b[i - at] else s[i]
  {
    s[..at] + b + s[at + |b|..]
  }

  /** The `n` elements from position `at` on. */
  function Stretch<T>(s: seq<T>, at: nat, n: nat): (r: seq<T>)
    requires at + n <= |s|
    ensures |r| == n
  {
    s[at..at + n]
  }

  lemma StretchElsewhere<T>(s: seq<T>, at: nat, b: seq<T>, from: nat, n: nat)
    requires at + |b| <= |s| && from + n <= |s|
    requires from + n <= at || at + |b| <= from
    ensures Stretch(Splice(s, at, b), from, n) == Stretch(s, from, n)
  {
  }

  /** Two adjacent overwrites are one. */
  lemma SplicePlus<T>(s: seq<T>, at: nat, b: seq<T>, c: seq<T>)
    requires at + |b| + |c| <= |s|
    ensures Splice(Splice(s, at, b), at + |b|, c) == Splice(s, at, b + c)
  {
  }

  lemma StretchPlus<T>(s: seq<T>, at: nat, m: nat, n: nat)
    requires at + m + n <= |s|
    ensures Stretch(s, at, m) + Stretch(s, at + m, n) == Stretch(s, at, m + n)
  {
  }

  /** A stretch inside a stretch. */
  lemma StretchOfStretch<T>(s: seq<T>, at: nat, n: nat, from: nat, m: nat)
    requires at + n <= |s|
    ensures at <= from && from + m <= at + n ==> Stretch(Stretch(s, at, n), from - at, m) == Stretch(s, from, m)
  {
    if at <= from && from + m <= at + n {
      var t := Stretch(s, at, n);
      var u := Stretch(t, from - at, m);
      forall i | 0 <= i < m
        ensures u[i] == s[from + i]
      {
        assert u[i] == t[from - at + i];
      }
    }
  }

  /** A stretch sees an overwrite inside it, and none beside it. */
  lemma StretchOfSplice<T>(s: seq<T>, at: nat, n: nat, from: nat, b: seq<T>)
    requires at + n <= |s| && from + |b| <= |s|
    ensures at <= from && from + |b| <= at + n ==>
      Stretch(Splice(s, from, b), at, n) == Splice(Stretch(s, at, n), from - at, b)
    ensures from + |b| <= at || at + n <= from ==> Stretch(Splice(s, from, b), at, n) == Stretch(s, at, n)
  {
  }

  lemma StretchNone<T>(s: seq<T>, at: nat)
    requires at <= |s|
    ensures Stretch(s, at, 0) == []
  {
  }

  /** Three adjacent overwrites, some of them perhaps empty, are one. */
  lemma SpliceParts<T>(s: seq<T>, at: nat, a: seq<T>, b: seq<T>, c: seq<T>)
    requires at + |a| + |b| + |c| <= |s|
    ensures var s1 := Splice(s, at, a);
      var s2 := Splice(s1, at + |a|, b);
      && Splice(s2, at + |a| + |b|, c) == Splice(s, at, a + b + c)
      && (a == [] ==> s1 == s) && (b == [] ==> s2 == s1) && (c == [] ==> Splice(s2, at + |a| + |b|, c) == s2)
  {
  }

  lemma ReplaceMiddle<T>(a: seq<T>, m: seq<T>, c: seq<T>, m': seq<T>)
    requires |m| == |m'|
    ensures Splice(a + (m + c), |a|, m') == (a + m') + c
    ensures m' == m ==> a + (m + c) == (a + m') + c
  {
  }

  /** `p << alignment`: where unit `p` (a page or a cluster) of `size` bytes starts. */
  function Start(p: nat, size: nat): nat {
    if p == 0 then 0 else Start(p - 1, size) + size
  }

  /** `i >> alignment`: the unit that position `i` lies in. */
  function Unit(i: nat, size: nat): (p: nat)
    requires size > 0
    ensures Start(p, size) <= i < Start(p, size) + size
    decreases i
  {
    if i < size then 0 else Unit(i - size, size) + 1
  }

  /** `i & (size - 1)`: the position inside its unit. */
  function Rest(i: nat, size: nat): (o: nat)
    requires size > 0
    ensures o < size && Start(Unit(i, size), size) + o == i
  {
    i - Start(Unit(i, size), size)
  }

  lemma StartStep(p: nat, size: nat)
    ensures Start(0, size) == 0 && Start(p + 1, size) == Start(p, size) + size
  {
  }

  lemma {:induction false} StartMono(a: nat, b: nat, size: nat)
    ensures a <= b ==> Start(a, size) <= Start(b, size)
    ensures a < b ==> Start(a, size) + size <= Start(b, size)
    decreases b
  {
    if a < b {
      StartMono(a, b - 1, size);
    }
  }

  /** Exactly one unit contains a position. */
  lemma Locate(i: nat, size: nat, p: nat)
    requires size > 0
    ensures Start(p, size) <= i < Start(p, size) + size <==> Unit(i, size) == p
  {
    StartMono(Unit(i, size), p, size);
    StartMono(p, Unit(i, size), size);
  }

  /** A stretch of whole units contains a position exactly when it contains its unit. */
  lemma LocateRange(i: nat, size: nat, first: nat, last: nat)
    requires size > 0
    ensures Start(first, size) <= i < Start(last, size) <==> first <= Unit(i, size) < last
  {
    var p := Unit(i, size);
    StartMono(first, p, size);
    StartMono(p, first, size);
    StartMono(last, p, size);
    StartMono(p, last, size);
  }

  lemma UnitOfStart(p: nat, size: nat)
    requires size > 0
    ensures Unit(Start(p, size), size) == p && Rest(Start(p, size), size) == 0
  {
    Locate(Start(p, size), size, p);
  }

  lemma InCapacity(i: nat, size: nat, n: nat)
    requires size > 0
    ensures i < Start(n, size) <==> Unit(i, size) < n
  {
    LocateRange(i, size, 0, n);
  }

  lemma LocateUp(i: nat, j: nat, size: nat)
    requires size > 0
    ensures i <= j ==> Unit(i, size) <= Unit(j, size)
  {
    StartMono(Unit(j, size), Unit(i, size), size);
  }

  lemma FirstUnit(o: nat, size: nat)
    requires o < size
    ensures Unit(o, size) == 0 && Rest(o, size) == o
  {
  }

  /** Shifting a position back by `s` stays in its unit exactly when the rest allows it. */
  lemma ShiftRest(x: nat, size: nat, s: nat, len: nat)
    requires size > 0 && s + len <= size
    ensures s <= Rest(x, size) < s + len <==> s <= x && Rest(x - s, size) < len
    ensures s <= Rest(x, size) ==>
      x >= s && Rest(x - s, size) == Rest(x, size) - s && Unit(x - s, size) == Unit(x, size)
  {
    var u, r := Unit(x, size), Rest(x, size);
    if s <= r {
      Locate(x - s, size, u);
    } else if s <= x {
      StartMono(1, u, size);
      Locate(x - s, size, u - 1);
    }
  }

  /** The three functions are multiplication, division and remainder. */
  lemma {:induction false} UnitsAreDivision(i: nat, size: nat)
    requires size > 0
    ensures Start(i, size) == i * size
    ensures Unit(i, size) == i / size && Rest(i, size) == i % size
  {
    StartIsProduct(i, size);
    var q := i / size;
    StartIsProduct(q, size);
    assert i == q * size + i % size;
    Locate(i, size, q);
  }

  lemma {:induction false} StartIsProduct(p: nat, size: nat)
    ensures Start(p, size) == p * size
  {
    if p != 0 {
      StartIsProduct(p - 1, size);
    }
  }

  lemma {:induction false} StartPlus(a: nat, b: nat, size: nat)
    ensures Start(a + b, size) == Start(a, size) + Start(b, size)
  {
    if b != 0 {
      StartPlus(a, b - 1, size);
    }
  }
}

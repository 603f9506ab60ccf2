/** The FAT as the sequence of its entry values: cluster chains, free clusters and
    what freeing, cutting and extending a chain mean. */
module Clusters {
  import opened FatTable
  import opened Lists

  /** Cluster numbers run from 2 up to the last entry, MaxCluster + 1. */
  predicate InRange(t: seq<nat>, c: nat) {
    MIN_CLUSTER <= c < |t|
  }

  /** `ch` are the clusters met when walking `t` from `first`. */
  ghost predicate IsPath(t: seq<nat>, first: nat, ch: seq<nat>) {
    && (forall k :: 0 <= k < |ch| ==> InRange(t, ch[k]))
    && (|ch| > 0 ==> ch[0] == first)
    && (forall k :: 0 <= k < |ch| - 1 ==> Links(t, ch, k))
  }

  /** The entry of the `k`-th cluster names the next one. */
  ghost predicate Links(t: seq<nat>, ch: seq<nat>, k: nat)
    requires k + 1 < |ch| && InRange(t, ch[k])
  {
    t[ch[k]] == ch[k + 1]
  }

  /** The value the walk meets after `ch`. */
  ghost function Stop(t: seq<nat>, first: nat, ch: seq<nat>): nat
    requires IsPath(t, first, ch)
  {
    if ch == [] then first else t[ch[|ch| - 1]]
  }

  /** `ch` is the whole cluster chain of a file that starts at `first`; 0 is no chain. */
  ghost predicate IsChain(t: seq<nat>, first: nat, ch: seq<nat>) {
    && IsPath(t, first, ch)
    && (if ch == [] then first == FREE else EndOfChain(Stop(t, first, ch)))
  }

  /** A walk that has stopped never met a cluster twice. */
  lemma {:induction false} PathDistinct(t: seq<nat>, first: nat, ch: seq<nat>, i: nat, j: nat)
    requires IsPath(t, first, ch) && !InRange(t, Stop(t, first, ch))
    requires i < j < |ch|
    ensures ch[i] != ch[j]
    decreases |ch| - j
  {
    if j < |ch| - 1 {
      PathDistinct(t, first, ch, i + 1, j + 1);
      assert Links(t, ch, i) && Links(t, ch, j);
    } else {
      assert Links(t, ch, i);
    }
  }

  lemma ChainDistinct(t: seq<nat>, first: nat, ch: seq<nat>)
    requires IsChain(t, first, ch) && |t| <= SPECIAL
    ensures NoRepeats(ch)
  {
    forall i, j | 0 <= i < j < |ch|
      ensures ch[i] != ch[j]
    {
      PathDistinct(t, first, ch, i, j);
    }
  }

  /** Two chains from the same cluster are the same chain. */
  lemma {:induction false} ChainUnique(t: seq<nat>, first: nat, a: seq<nat>, b: seq<nat>)
    requires IsChain(t, first, a) && IsChain(t, first, b) && |t| <= SPECIAL
    ensures a == b
  {
    var n := if |a| < |b| then |a| else |b|;
    SamePrefix(t, first, a, b, n);
    PathPrefix(t, first, a, n);
    PathPrefix(t, first, b, n);
    assert Stop(t, first, a[..n]) == Stop(t, first, b[..n]);
  }

  lemma {:induction false} SamePrefix(t: seq<nat>, first: nat, a: seq<nat>, b: seq<nat>, n: nat)
    requires IsPath(t, first, a) && IsPath(t, first, b) && n <= |a| && n <= |b|
    ensures a[..n] == b[..n]
  {
    if n > 0 {
      SamePrefix(t, first, a, b, n - 1);
      if n > 1 {
        assert a[..n - 1][n - 2] == b[..n - 1][n - 2];
        assert Links(t, a, n - 2) && Links(t, b, n - 2);
      }
    }
  }

  /** Only the entries of its own clusters matter to a chain. */
  lemma ChainFrame(t: seq<nat>, t': seq<nat>, first: nat, ch: seq<nat>)
    requires IsPath(t, first, ch) && |t'| == |t|
    requires forall k :: 0 <= k < |ch| ==> t'[ch[k]] == t[ch[k]]
    ensures IsPath(t', first, ch) && Stop(t', first, ch) == Stop(t, first, ch)
  {
    forall k | 0 <= k < |ch| - 1
      ensures Links(t', ch, k)
    {
      assert Links(t, ch, k);
    }
  }

  /** The rest of a path is a path. */
  lemma PathTail(t: seq<nat>, first: nat, ch: seq<nat>, n: nat)
    requires IsPath(t, first, ch) && n <= |ch|
    ensures var next := if n < |ch| then ch[n] else Stop(t, first, ch);
      IsPath(t, next, ch[n..]) && Stop(t, next, ch[n..]) == Stop(t, first, ch)
  {
    forall k | 0 <= k < |ch[n..]| - 1
      ensures Links(t, ch[n..], k)
    {
      assert Links(t, ch, n + k);
    }
  }

  /** A prefix of a path is a path. */
  lemma PathPrefix(t: seq<nat>, first: nat, ch: seq<nat>, n: nat)
    requires IsPath(t, first, ch) && n <= |ch|
    ensures IsPath(t, first, ch[..n])
    ensures Stop(t, first, ch[..n]) == if n < |ch| then ch[n] else Stop(t, first, ch)
  {
    forall k | 0 <= k < n - 1
      ensures Links(t, ch[..n], k)
    {
      assert Links(t, ch, k);
    }
    if 0 < n < |ch| {
      assert Links(t, ch, n - 1);
    }
  }

  /** `t` with the clusters of `s` marked free. */
  ghost function Freed(t: seq<nat>, s: seq<nat>): (r: seq<nat>)
    ensures |r| == |t|
    ensures forall i {:trigger r[i]} :: 0 <= i < |t| ==> r[i] == if i in s then FREE else t[i]
  {
    seq(|t|, i requires 0 <= i < |t| => if i in s then FREE else t[i])
  }

  /** Number of free clusters among the first `n` entries. */
  ghost function CountFree(t: seq<nat>, n: nat): nat
    requires n <= |t|
  {
    if n <= MIN_CLUSTER then 0 else CountFree(t, n - 1) + if t[n - 1] == FREE then 1 else 0
  }

  ghost function FreeCount(t: seq<nat>): nat {
    CountFree(t, |t|)
  }

  lemma {:induction false} CountFreeBound(t: seq<nat>, n: nat)
    requires n <= |t|
    ensures CountFree(t, n) <= n
  {
    if n > MIN_CLUSTER {
      CountFreeBound(t, n - 1);
    }
  }

  lemma {:induction false} CountFreeUpdate(t: seq<nat>, i: nat, v: nat, n: nat)
    requires InRange(t, i) && n <= |t|
    ensures CountFree(t[i := v], n) ==
      CountFree(t, n) + (if i < n && v == FREE then 1 else 0) - (if i < n && t[i] == FREE then 1 else 0)
  {
    if n > MIN_CLUSTER {
      CountFreeUpdate(t, i, v, n - 1);
    }
  }

  /** The count is zero exactly when no cluster is free. */
  lemma {:induction false} CountFreeZero(t: seq<nat>, n: nat)
    requires n <= |t|
    ensures CountFree(t, n) == 0 <==> forall i :: MIN_CLUSTER <= i < n ==> t[i] != FREE
  {
    if n > MIN_CLUSTER {
      CountFreeZero(t, n - 1);
    }
  }

  /** Number of entries in use among the first `n`: what freeing uses up. */
  ghost function CountLive(t: seq<nat>, n: nat): nat
    requires n <= |t|
  {
    if n <= MIN_CLUSTER then 0 else CountLive(t, n - 1) + if t[n - 1] == FREE then 0 else 1
  }

  lemma {:induction false} CountLiveFreed(t: seq<nat>, i: nat, n: nat)
    requires InRange(t, i) && n <= |t|
    ensures CountLive(t[i := FREE], n) == CountLive(t, n) - if i < n && t[i] != FREE then 1 else 0
  {
    if n > MIN_CLUSTER {
      CountLiveFreed(t, i, n - 1);
    }
  }

  /** No entry equals 1, the one value that makes the freeing loop run in place. */
  ghost predicate NoOnes(t: seq<nat>) {
    forall i :: MIN_CLUSTER <= i < |t| ==> t[i] != 1
  }

  /** What freeing from `c` does on any FAT: follow and free entries until the walk leaves
      the clusters; cycles and cross-links end at an entry that is already free. */
  ghost function FreeWalk(t: seq<nat>, c: nat): (r: (seq<nat>, nat))
    ensures |r.0| == |t| && !InRange(t, r.1)
    decreases CountLive(t, |t|), c
  {
    if !InRange(t, c) then (t, c)
    else
      CountLiveFreed(t, c, |t|);
      FreeWalk(t[c := FREE], t[c])
  }

  lemma FreeWalkStep(t: seq<nat>, c: nat)
    ensures !InRange(t, c) ==> FreeWalk(t, c) == (t, c)
    ensures InRange(t, c) ==>
      && FreeWalk(t, c) == FreeWalk(t[c := FREE], t[c])
      && Remaining(t[c := FREE], t[c]) < Remaining(t, c)
  {
    if InRange(t, c) {
      CountLiveFreed(t, c, |t|);
    }
  }

  /** How much of the freeing walk is left at most. */
  ghost function Remaining(t: seq<nat>, c: nat): nat {
    if InRange(t, c) then 2 + CountLive(t, |t|) else if EndOfChain(c) then 0 else 1
  }

  /** On a well-formed chain the walk frees exactly the chain. */
  lemma {:induction false} FreeWalkOnPath(t: seq<nat>, c: nat, ch: seq<nat>)
    requires IsPath(t, c, ch) && !InRange(t, Stop(t, c, ch))
    ensures FreeWalk(t, c) == (Freed(t, ch), Stop(t, c, ch))
    decreases |ch|
  {
    if ch == [] {
      assert Freed(t, ch) == t;
    } else {
      var t', rest := t[c := FREE], ch[1..];
      forall k | 0 <= k < |rest|
        ensures rest[k] != c
      {
        PathDistinct(t, c, ch, 0, k + 1);
      }
      PathTail(t, c, ch, 1);
      assert |ch| > 1 ==> Links(t, ch, 0);
      ChainFrame(t, t', t[c], rest);
      FreeWalkOnPath(t', t[c], rest);
      assert Freed(t', rest) == Freed(t, ch);
    }
  }

  /** On any FAT the walk only frees: every entry it changes becomes free. */
  lemma {:induction false} FreeWalkOnlyFrees(t: seq<nat>, c: nat, i: nat)
    requires i < |t|
    ensures FreeWalk(t, c).0[i] == t[i] || FreeWalk(t, c).0[i] == FREE
    decreases CountLive(t, |t|), c
  {
    if InRange(t, c) {
      CountLiveFreed(t, c, |t|);
      FreeWalkOnlyFrees(t[c := FREE], t[c], i);
    }
  }

  /** Free, a cluster, or one of the special values. */
  ghost predicate SaneValue(t: seq<nat>, v: nat) {
    v == FREE || InRange(t, v) || v >= SPECIAL
  }

  /** The cluster `n` steps behind `c`, or the value the walk stopped at before that. */
  ghost function Follow(t: seq<nat>, c: nat, n: nat): nat {
    if n == 0 then c
    else var prev := Follow(t, c, n - 1);
      if InRange(t, prev) then t[prev] else prev
  }

  /** Following a path visits its clusters and then stays at its stop. */
  lemma {:induction false} FollowPath(t: seq<nat>, first: nat, ch: seq<nat>, n: nat)
    requires IsPath(t, first, ch) && !InRange(t, Stop(t, first, ch))
    ensures Follow(t, first, n) == if n < |ch| then ch[n] else Stop(t, first, ch)
  {
    if n > 0 {
      FollowPath(t, first, ch, n - 1);
      if n < |ch| {
        assert Links(t, ch, n - 1);
      }
    }
  }

  lemma {:induction false} FollowStays(t: seq<nat>, c: nat, m: nat, n: nat)
    requires m <= n && !InRange(t, Follow(t, c, m))
    ensures Follow(t, c, n) == Follow(t, c, m)
  {
    if m < n {
      FollowStays(t, c, m, n - 1);
    }
  }

  /** Every value met when following `t` from `c` is sane. */
  ghost predicate SaneWalk(t: seq<nat>, c: nat) {
    forall n: nat :: SaneValue(t, Follow(t, c, n))
  }

  lemma {:induction false} FollowPlus(t: seq<nat>, c: nat, m: nat, n: nat)
    ensures Follow(t, Follow(t, c, m), n) == Follow(t, c, m + n)
  {
    if n > 0 {
      FollowPlus(t, c, m, n - 1);
    }
  }

  /** Setting one entry to a value the walk stops at can only make the walk stop there. */
  lemma {:induction false} FollowSet(t: seq<nat>, k: nat, v: nat, c: nat, n: nat)
    requires k < |t| && !InRange(t, v)
    ensures Follow(t[k := v], c, n) == Follow(t, c, n) || Follow(t[k := v], c, n) == v
  {
    if n > 0 {
      FollowSet(t, k, v, c, n - 1);
    }
  }

  lemma SaneLater(t: seq<nat>, k: nat, v: nat, c: nat, m: nat)
    requires SaneWalk(t, c) && k < |t| && !InRange(t, v) && SaneValue(t, v)
    ensures SaneWalk(t[k := v], Follow(t, c, m)) && SaneWalk(t, Follow(t, c, m))
  {
    var next, t' := Follow(t, c, m), t[k := v];
    forall n: nat
      ensures SaneValue(t, Follow(t, next, n))
    {
      FollowPlus(t, c, m, n);
    }
    forall n: nat
      ensures SaneValue(t', Follow(t', next, n))
    {
      FollowSet(t, k, v, next, n);
      assert SaneValue(t, Follow(t, next, n));
    }
  }

  /** A number beyond the last entry. */
  ghost predicate Beyond(t: seq<nat>, v: nat) {
    |t| <= v < SPECIAL && v > 1
  }

  /** The `n`-th value of the walk is the first beyond the last entry. */
  ghost predicate EndsBeyond(t: seq<nat>, c: nat, n: nat)
    requires n > 0
  {
    Beyond(t, Follow(t, c, n - 1)) && (n == 1 || InRange(t, Follow(t, c, n - 2)))
  }

  /** Following `t` from `c` does not meet a 1. */
  ghost predicate NoOneMet(t: seq<nat>, c: nat) {
    forall n: nat :: Follow(t, c, n) != 1
  }

  lemma NotOne(t: seq<nat>, c: nat, n: nat)
    requires NoOneMet(t, c)
    ensures Follow(t, c, n) != 1 && Follow(t, c, 0) == c
  {
  }

  lemma SaneIsNoOne(t: seq<nat>, c: nat)
    requires SaneWalk(t, c)
    ensures NoOneMet(t, c)
  {
    forall n: nat
      ensures Follow(t, c, n) != 1
    {
      assert SaneValue(t, Follow(t, c, n));
    }
  }

  lemma NoOneLater(t: seq<nat>, k: nat, v: nat, c: nat, m: nat)
    requires NoOneMet(t, c) && k < |t| && !InRange(t, v) && v != 1
    ensures NoOneMet(t[k := v], Follow(t, c, m)) && NoOneMet(t, Follow(t, c, m))
  {
    var next, t' := Follow(t, c, m), t[k := v];
    forall n: nat
      ensures Follow(t, next, n) != 1
    {
      FollowPlus(t, c, m, n);
    }
    forall n: nat
      ensures Follow(t', next, n) != 1
    {
      FollowSet(t, k, v, next, n);
    }
  }

  /** ... nor does the freeing walk, although it changes the FAT on its way. */
  lemma {:induction false} FreeWalkNotOne(t: seq<nat>, c: nat)
    requires NoOneMet(t, c)
    ensures FreeWalk(t, c).1 != 1
    decreases CountLive(t, |t|), c
  {
    assert Follow(t, c, 0) != 1;
    if InRange(t, c) {
      CountLiveFreed(t, c, |t|);
      assert Follow(t, c, 0) == c && Follow(t, c, 1) == t[c];
      NoOneLater(t, c, FREE, c, 1);
      FreeWalkNotOne(t[c := FREE], t[c]);
    }
  }

  /** What FatShrinkEof's freeing comes to after the end mark was set at the `n`-th value. */
  lemma CutWalk(t: seq<nat>, last: nat, c: nat, n: nat)
    requires NoOneMet(t, c) && (n > 0 ==> InRange(t, last)) && |t| <= SPECIAL
    ensures var cut := if n == 0 then t else t[last := LAST];
      && FreeWalk(cut, Follow(t, c, n)).1 != 1
      && (SaneWalk(t, c) ==> FreeWalk(cut, Follow(t, c, n)).1 == FREE || FreeWalk(cut, Follow(t, c, n)).1 >= SPECIAL)
  {
    hide FreeWalk;
    var cut := if n == 0 then t else t[last := LAST];
    if n > 0 {
      NoOneLater(t, last, LAST, c, n);
      if SaneWalk(t, c) {
        SaneLater(t, last, LAST, c, n);
      }
    } else {
      assert Follow(t, c, 0) == c;
    }
    FreeWalkNotOne(cut, Follow(t, c, n));
    if SaneWalk(t, c) {
      FreeWalkSane(cut, Follow(t, c, n));
    }
  }

  lemma PathNoOne(t: seq<nat>, first: nat, ch: seq<nat>)
    requires IsPath(t, first, ch) && !InRange(t, Stop(t, first, ch)) && Stop(t, first, ch) != 1
    ensures NoOneMet(t, first) && (SaneValue(t, Stop(t, first, ch)) ==> SaneWalk(t, first))
    ensures SaneValue(t, Stop(t, first, ch)) ==> forall n: nat :: n > 0 ==> !EndsBeyond(t, first, n)
  {
    forall n: nat
      ensures Follow(t, first, n) != 1 && (SaneValue(t, Stop(t, first, ch)) ==> !Beyond(t, Follow(t, first, n)))
    {
      FollowPath(t, first, ch, n);
    }
    if SaneValue(t, Stop(t, first, ch)) {
      PathIsSane(t, first, ch);
    }
  }

  lemma EndsBeyondIs(t: seq<nat>, c: nat, n: nat)
    requires n > 0
    ensures EndsBeyond(t, c, n) ==> Beyond(t, Follow(t, c, n - 1))
    ensures SaneWalk(t, c) ==> !Beyond(t, Follow(t, c, n - 1)) && !EndsBeyond(t, c, n)
  {
    if SaneWalk(t, c) {
      assert SaneValue(t, Follow(t, c, n - 1));
    }
  }

  /** A walk that stopped after `k` steps has not come to a cluster after more. */
  lemma StoppedBefore(t: seq<nat>, first: nat, k: nat, n: nat)
    requires k < n
    ensures (Follow(t, first, k) == FREE || Follow(t, first, k) >= SPECIAL) && |t| <= SPECIAL ==>
      !InRange(t, Follow(t, first, n - 1)) && !EndsBeyond(t, first, n)
    ensures k > 0 && Beyond(t, Follow(t, first, k - 1)) ==>
      !InRange(t, Follow(t, first, n - 1)) && !EndsBeyond(t, first, n)
  {
    if (Follow(t, first, k) == FREE || Follow(t, first, k) >= SPECIAL) && |t| <= SPECIAL {
      FollowStays(t, first, k, n - 1);
    }
    if k > 0 && Beyond(t, Follow(t, first, k - 1)) {
      FollowStays(t, first, k - 1, n - 1);
      FollowStays(t, first, k - 1, n - 2);
    }
  }

  /** Freeing along a sane walk ends at a free entry or at a special value. */
  lemma {:induction false} FreeWalkSane(t: seq<nat>, c: nat)
    requires SaneWalk(t, c)
    ensures FreeWalk(t, c).1 == FREE || FreeWalk(t, c).1 >= SPECIAL
    decreases CountLive(t, |t|), c
  {
    assert SaneValue(t, Follow(t, c, 0));
    if InRange(t, c) {
      CountLiveFreed(t, c, |t|);
      assert Follow(t, c, 0) == c && Follow(t, c, 1) == t[c];
      SaneLater(t, c, FREE, c, 1);
      FreeWalkSane(t[c := FREE], t[c]);
    }
  }

  /** Without an entry of 1 the freeing walk does not come to 1. */
  lemma {:induction false} FreeWalkNoOnes(t: seq<nat>, c: nat)
    requires NoOnes(t) && c != 1
    ensures FreeWalk(t, c).1 != 1
    decreases CountLive(t, |t|), c
  {
    if InRange(t, c) {
      CountLiveFreed(t, c, |t|);
      FreeWalkNoOnes(t[c := FREE], t[c]);
    }
  }

  lemma PathIsSane(t: seq<nat>, first: nat, ch: seq<nat>)
    requires IsPath(t, first, ch) && !InRange(t, Stop(t, first, ch)) && SaneValue(t, Stop(t, first, ch))
    ensures SaneWalk(t, first)
  {
    forall n: nat
      ensures SaneValue(t, Follow(t, first, n))
    {
      FollowPath(t, first, ch, n);
    }
  }

  /** `t` with the chain `ch` cut after its first `n` clusters and the others freed. */
  ghost function Cut(t: seq<nat>, ch: seq<nat>, n: nat): (r: seq<nat>)
    requires n <= |ch| && forall k :: 0 <= k < |ch| ==> InRange(t, ch[k])
    ensures |r| == |t|
  {
    Freed(if n == 0 then t else assert InRange(t, ch[n - 1]); t[ch[n - 1] := LAST], ch[n..])
  }

  /** Cutting leaves a prefix as the chain and touches nothing but the chain. */
  lemma CutIsPrefix(t: seq<nat>, first: nat, ch: seq<nat>, n: nat)
    requires IsPath(t, first, ch) && !InRange(t, Stop(t, first, ch)) && n <= |ch| && |t| <= SPECIAL
    ensures n > 0 ==> IsChain(Cut(t, ch, n), first, ch[..n])
    ensures forall i :: 0 <= i < |t| && i !in ch ==> Cut(t, ch, n)[i] == t[i]
    ensures forall k :: n <= k < |ch| ==> Cut(t, ch, n)[ch[k]] == FREE
  {
    var r := Cut(t, ch, n);
    forall i, j | 0 <= i < j < |ch|
      ensures ch[i] != ch[j]
    {
      PathDistinct(t, first, ch, i, j);
    }
    forall k | 0 <= k < n
      ensures r[ch[k]] == if k == n - 1 then LAST else t[ch[k]]
    {
      assert ch[k] !in ch[n..];
    }
    forall k | n <= k < |ch|
      ensures r[ch[k]] == FREE
    {
      assert ch[n..][k - n] == ch[k];
    }
    forall k | 0 <= k < n - 1
      ensures Links(r, ch[..n], k)
    {
      assert Links(t, ch, k);
    }
  }

  /** Walking from the `n`-th cluster on after the cut mark was set frees what Cut frees. */
  lemma FreeWalkAfterCut(t: seq<nat>, first: nat, ch: seq<nat>, n: nat)
    requires IsPath(t, first, ch) && !InRange(t, Stop(t, first, ch)) && n <= |ch| && |t| <= SPECIAL
    ensures var t1 := if n == 0 then t else t[ch[n - 1] := LAST];
      FreeWalk(t1, Follow(t, first, n)) == (Cut(t, ch, n), Stop(t, first, ch))
  {
    FollowPath(t, first, ch, n);
    var next := Follow(t, first, n);
    var t1 := if n == 0 then t else t[ch[n - 1] := LAST];
    PathTail(t, first, ch, n);
    if n < |ch| {
      forall k | 0 <= k < |ch[n..]|
        ensures t1[ch[n..][k]] == t[ch[n..][k]]
      {
        if n > 0 {
          PathDistinct(t, first, ch, n - 1, n + k);
        }
      }
      ChainFrame(t, t1, next, ch[n..]);
      FreeWalkOnPath(t1, next, ch[n..]);
    } else {
      FreeWalkStep(t1, next);
      assert ch[n..] == [] && Freed(t1, []) == t1;
    }
  }

  /** One more cluster at the end of a chain. */
  ghost function Append(t: seq<nat>, ch: seq<nat>, c: nat): (r: seq<nat>)
    requires InRange(t, c) && (ch != [] ==> InRange(t, ch[|ch| - 1]))
    ensures |r| == |t|
  {
    (if ch == [] then t else t[ch[|ch| - 1] := c])[c := LAST]
  }

  lemma AppendIsChain(t: seq<nat>, first: nat, ch: seq<nat>, c: nat)
    requires IsChain(t, first, ch) && InRange(t, c) && t[c] == FREE && |t| <= SPECIAL
    ensures c !in ch
    ensures IsChain(Append(t, ch, c), if ch == [] then c else first, ch + [c])
    ensures FreeCount(Append(t, ch, c)) == FreeCount(t) - 1
    ensures forall i :: 0 <= i < |t| && i != c && (ch == [] || i != ch[|ch| - 1]) ==> Append(t, ch, c)[i] == t[i]
  {
    var r := Append(t, ch, c);
    forall k | 0 <= k < |ch|
      ensures ch[k] != c && t[ch[k]] != FREE
    {
      if k < |ch| - 1 {
        assert Links(t, ch, k);
      }
    }
    ChainDistinct(t, first, ch);
    forall k | 0 <= k < |ch|
      ensures Links(r, ch + [c], k)
    {
      if k < |ch| - 1 {
        assert Links(t, ch, k);
      }
    }
    if ch != [] {
      CountFreeUpdate(t, ch[|ch| - 1], c, |t|);
      CountFreeUpdate(t[ch[|ch| - 1] := c], c, LAST, |t|);
    } else {
      CountFreeUpdate(t, c, LAST, |t|);
    }
  }

  ghost function Tail(ch: seq<nat>): nat {
    if ch == [] then FREE else ch[|ch| - 1]
  }

  /** `t` grew out of `base`: the clusters `added`, all free before, now follow the chain
      `ch`, and of the others only the last cluster of `ch` may have changed. */
  ghost predicate Grown(base: seq<nat>, t: seq<nat>, ch: seq<nat>, added: seq<nat>) {
    && |t| == |base|
    && (forall c :: c in added ==> InRange(base, c) && base[c] == FREE)
    && (forall i :: 0 <= i < |t| && i !in added && (ch == [] || i != Tail(ch)) ==> t[i] == base[i])
    && FreeCount(t) == FreeCount(base) - |added|
  }

  lemma GrowthStart(t: seq<nat>, first: nat, ch: seq<nat>)
    requires IsChain(t, first, ch) && |t| <= SPECIAL
    ensures Grown(t, t, ch, [])
  {
  }

  lemma TailInRange(t: seq<nat>, first: nat, ch: seq<nat>)
    requires IsChain(t, first, ch)
    ensures ch == [] <==> Tail(ch) == FREE
    ensures ch != [] ==> InRange(t, Tail(ch)) && EndOfChain(t[Tail(ch)])
  {
  }

  /** The end mark set once more when the volume is full. */
  lemma GrowthMarked(base: seq<nat>, t: seq<nat>, first: nat, ch: seq<nat>, added: seq<nat>)
    requires Grown(base, t, ch, added) && IsChain(t, first, ch + added) && ch + added != [] && |t| <= SPECIAL
    ensures InRange(t, Tail(ch + added))
    ensures Grown(base, t[Tail(ch + added) := LAST], ch, added)
    ensures IsChain(t[Tail(ch + added) := LAST], first, ch + added)
  {
    var all := ch + added;
    var t' := t[Tail(all) := LAST];
    ChainDistinct(t, first, all);
    forall k | 0 <= k < |all| - 1
      ensures Links(t', all, k)
    {
      assert Links(t, all, k);
    }
    CountFreeUpdate(t, Tail(all), LAST, |t|);
    assert added != [] ==> Tail(all) == Tail(added) && Tail(added) in added;
  }

  /** What a chain becomes when `added` is allocated one by one behind it.  Its last
      cluster may itself be marked free; then the first one allocated may be that cluster. */
  ghost function Joined(ch: seq<nat>, added: seq<nat>): seq<nat> {
    if ch != [] && added != [] && added[0] == Tail(ch) then ch + added[1..] else ch + added
  }

  /** `t` is `base` with the clusters `cur` linked up to the `n`-th and the others free. */
  ghost predicate Laid(base: seq<nat>, t: seq<nat>, cur: seq<nat>, n: nat)
    requires n <= |cur|
  {
    && |t| == |base| && (forall k :: 0 <= k < |cur| ==> InRange(t, cur[k]))
    && (forall i {:trigger t[i]} :: 0 <= i < |t| && i !in cur ==> t[i] == base[i])
    && (forall k :: 0 <= k < |cur| ==> LaidAt(t, cur, n, k))
  }

  ghost predicate LaidAt(t: seq<nat>, cur: seq<nat>, n: nat, k: nat)
    requires n <= |cur| && k < |cur| && InRange(t, cur[k])
  {
    t[cur[k]] == if k >= n then FREE else if k == n - 1 then LAST else cur[k + 1]
  }

  /** The clusters of `ch` in use: all of them, but for a last one marked free. */
  ghost function InUse(t: seq<nat>, ch: seq<nat>): nat
    requires forall k :: 0 <= k < |ch| ==> InRange(t, ch[k])
  {
    if ch != [] && (assert InRange(t, ch[|ch| - 1]); t[ch[|ch| - 1]] == FREE) then |ch| - 1 else |ch|
  }

  /** The free clusters that linking `added` behind `ch` takes. */
  ghost function Taken(t: seq<nat>, ch: seq<nat>, added: seq<nat>): nat
    requires forall k :: 0 <= k < |ch| ==> InRange(t, ch[k])
  {
    if added == [] then 0 else |Joined(ch, added)| - InUse(t, ch)
  }

  /** A whole chain laid out is a chain without repetition. */
  lemma LaidIsChain(base: seq<nat>, t: seq<nat>, cur: seq<nat>, n: nat)
    requires 0 < n <= |cur| && Laid(base, t, cur, n) && |t| <= SPECIAL
    ensures IsChain(t, cur[0], cur[..n])
    ensures n == |cur| ==> NoRepeats(cur) && cur[..n] == cur && Stop(t, cur[0], cur) == LAST
  {
    forall k | 0 <= k < n - 1
      ensures Links(t, cur[..n], k)
    {
      assert LaidAt(t, cur, n, k);
    }
    assert LaidAt(t, cur, n, n - 1);
    if n == |cur| {
      assert cur[..n] == cur;
      ChainDistinct(t, cur[0], cur);
    }
  }

  /** A path on which the walk stops, with the end mark set: the volume was full at once. */
  lemma LayNone(t: seq<nat>, first: nat, ch: seq<nat>)
    requires IsPath(t, first, ch) && !InRange(t, Stop(t, first, ch)) && ch != []
    ensures InRange(t, Tail(ch)) && Laid(t, t[Tail(ch) := LAST], ch, |ch|)
  {
    var t' := t[Tail(ch) := LAST];
    forall k | 0 <= k < |ch|
      ensures LaidAt(t', ch, |ch|, k)
    {
      if k < |ch| - 1 {
        PathDistinct(t, first, ch, k, |ch| - 1);
        assert Links(t, ch, k);
      }
    }
  }

  /** The first cluster allocated. */
  lemma LayFirst(t: seq<nat>, first: nat, ch: seq<nat>, c: nat)
    requires IsPath(t, first, ch) && !InRange(t, Stop(t, first, ch)) && InRange(t, c) && t[c] == FREE && |t| <= SPECIAL
    ensures ch != [] ==> InRange(t, Tail(ch))
    ensures var t', cur := Append(t, ch, c), Joined(ch, [c]);
      Laid(t, t', cur, |cur|) && Tail(cur) == c && FreeCount(t') == FreeCount(t) - Taken(t, ch, [c])
  {
    hide CountFree, Laid;
    assert [c][1..] == [];
    if ch == [] {
      CountFreeUpdate(t, c, LAST, |t|);
    } else {
      CountFreeUpdate(t, Tail(ch), c, |t|);
      CountFreeUpdate(t[Tail(ch) := c], c, LAST, |t|);
    }
    FirstIsLaid(t, first, ch, c);
  }

  lemma FirstIsLaid(t: seq<nat>, first: nat, ch: seq<nat>, c: nat)
    requires IsPath(t, first, ch) && !InRange(t, Stop(t, first, ch)) && InRange(t, c) && t[c] == FREE && |t| <= SPECIAL
    ensures ch != [] ==> InRange(t, Tail(ch))
    ensures Laid(t, Append(t, ch, c), Joined(ch, [c]), |Joined(ch, [c])|)
  {
    assert [c][1..] == [] && ch + [] == ch;
    if ch != [] {
      LayNone(t, first, ch);
      var marked := t[Tail(ch) := LAST];
      if c == Tail(ch) {
        assert Append(t, ch, c) == marked;
      } else {
        LayOn(t, marked, ch, c);
        assert Append(marked, ch, c) == Append(t, ch, c);
      }
    }
  }

  /** One more cluster behind a chain that is laid out. */
  lemma LayOn(base: seq<nat>, t: seq<nat>, cur: seq<nat>, c: nat)
    requires cur != [] && Laid(base, t, cur, |cur|) && |t| <= SPECIAL && InRange(t, c) && t[c] == FREE
    ensures InRange(t, Tail(cur)) && base[c] == FREE
    ensures Laid(base, Append(t, cur, c), cur + [c], |cur| + 1)
    ensures FreeCount(Append(t, cur, c)) == FreeCount(t) - 1
  {
    hide CountFree;
    LaidIsChain(base, t, cur, |cur|);
    AppendIsChain(t, cur[0], cur, c);
    var t', next := Append(t, cur, c), cur + [c];
    forall k | 0 <= k < |next|
      ensures InRange(t', next[k]) && LaidAt(t', next, |next|, k)
    {
      if k < |cur| {
        assert LaidAt(t, cur, |cur|, k);
        assert next[k] == cur[k];
      }
    }
  }

  /** Each further one. */
  lemma LayNext(base: seq<nat>, t: seq<nat>, ch: seq<nat>, added: seq<nat>, c: nat)
    requires added != [] && |t| <= SPECIAL && InRange(t, c) && t[c] == FREE
    requires var cur := Joined(ch, added); Laid(base, t, cur, |cur|)
    requires forall k :: 0 <= k < |ch| ==> InRange(base, ch[k])
    ensures var cur, next := Joined(ch, added), Joined(ch, added + [c]);
      && InRange(t, Tail(cur)) && next == cur + [c] && Tail(next) == c && base[c] == FREE
      && Laid(base, Append(t, cur, c), next, |next|)
      && FreeCount(Append(t, cur, c)) == FreeCount(t) - 1
      && Taken(base, ch, added + [c]) == Taken(base, ch, added) + 1
  {
    JoinedMore(ch, added, c);
    hide FreeCount, Laid, Joined, InUse, Append;
    LayOn(base, t, Joined(ch, added), c);
  }

  lemma JoinedMore(ch: seq<nat>, added: seq<nat>, c: nat)
    requires added != []
    ensures Joined(ch, added) != [] && Joined(ch, added + [c]) == Joined(ch, added) + [c]
  {
    assert (added + [c])[1..] == added[1..] + [c];
  }

  /** Cutting what was laid out. */
  lemma LaidCut(base: seq<nat>, t: seq<nat>, cur: seq<nat>, n: nat)
    requires n <= |cur| && Laid(base, t, cur, |cur|) && |t| <= SPECIAL
    ensures Laid(base, Cut(t, cur, n), cur, n)
  {
    if cur != [] {
      LaidIsChain(base, t, cur, |cur|);
      CutIsPrefix(t, cur[0], cur, n);
      var r := Cut(t, cur, n);
      forall k | 0 <= k < |cur|
        ensures LaidAt(r, cur, n, k)
      {
        assert LaidAt(t, cur, |cur|, k);
        if k < n {
          assert cur[k] !in cur[n..];
        }
      }
    } else {
      assert Cut(t, cur, 0) == t;
    }
  }

  /** A table holds the same free clusters as another. */
  ghost predicate SameFree(t: seq<nat>, t': seq<nat>) {
    |t| == |t'| && forall i :: MIN_CLUSTER <= i < |t| ==> (t[i] == FREE <==> t'[i] == FREE)
  }

  /** After a grow that ran out of space the chain is cut back to the `n` clusters of the
      file size, or, when it is shorter, stays as long as it got.  The same clusters are free
      as before exactly when `n` is the number of clusters the chain had in use, or it had
      fewer and nothing could be allocated. */
  lemma GrowthUndone(base: seq<nat>, first: nat, ch: seq<nat>, added: seq<nat>, t: seq<nat>, n: nat)
    requires IsPath(base, first, ch) && !InRange(base, Stop(base, first, ch))
    requires AddedFree(base, added)
    requires var cur := Joined(ch, added); Laid(base, t, cur, if n <= |cur| then n else |cur|)
    ensures SameFree(base, t) <==> n == InUse(base, ch) || (n > |ch| == InUse(base, ch) && added == [])
  {
    var cur, live := Joined(ch, added), InUse(base, ch);
    var m := if n <= |cur| then n else |cur|;
    forall k | 0 <= k < |cur|
      ensures base[cur[k]] == FREE <==> k >= live
      ensures t[cur[k]] == FREE <==> k >= m
    {
      assert LaidAt(t, cur, m, k);
      if k < |ch| {
        assert cur[k] == ch[k];
        assert k < |ch| - 1 ==> Links(base, ch, k);
      } else {
        assert cur[k] in added;
      }
    }
    if m == live {
      forall i | MIN_CLUSTER <= i < |t|
        ensures t[i] == FREE <==> base[i] == FREE
      {
        assert i in cur || t[i] == base[i];
      }
    } else {
      var k := if m < live then m else live;
      assert (base[cur[k]] == FREE) != (t[cur[k]] == FREE);
    }
  }

  ghost predicate AddedFree(t: seq<nat>, added: seq<nat>) {
    forall c :: c in added ==> InRange(t, c) && t[c] == FREE
  }

  /** What is taken beyond the clusters allocated: a last cluster marked free is used up when
      another one is linked behind it. */
  ghost function Extra(t: seq<nat>, ch: seq<nat>, added: seq<nat>): int
    requires forall k :: 0 <= k < |ch| ==> InRange(t, ch[k])
  {
    Taken(t, ch, added) - |added|
  }

  /** The loop of FatGrowEof between two turns. */
  ghost predicate Linked(base: seq<nat>, t: seq<nat>, first: nat, ch: seq<nat>, added: seq<nat>) {
    && IsPath(base, first, ch) && !InRange(base, Stop(base, first, ch)) && |base| <= SPECIAL
    && AddedFree(base, added) && |t| == |base|
    && (if added == [] then t == base else Laid(base, t, Joined(ch, added), |Joined(ch, added)|))
    && FreeCount(t) == FreeCount(base) - Taken(base, ch, added)
  }

  /** What the loop comes to; `stuck` is the volume's disk error. */
  ghost predicate Extension(base: seq<nat>, t: seq<nat>, ch: seq<nat>, added: seq<nat>, count: nat, full: bool,
      stuck: bool) {
    && (forall k :: 0 <= k < |ch| ==> InRange(base, ch[k]))
    && AddedFree(base, added) && Laid(base, t, Joined(ch, added), |Joined(ch, added)|)
    && full == (stuck || FreeCount(base) < count + Extra(base, ch, added))
    && (full ==> (added == [] <==> stuck || FreeCount(base) == 0))
    && (full && !stuck ==> Taken(base, ch, added) == FreeCount(base))
    && (!full ==> |added| == count && FreeCount(t) == FreeCount(base) - Taken(base, ch, added))
  }

  lemma LinkNone(base: seq<nat>, first: nat, ch: seq<nat>)
    requires IsPath(base, first, ch) && !InRange(base, Stop(base, first, ch)) && |base| <= SPECIAL
    ensures Linked(base, base, first, ch, []) && Joined(ch, []) == ch
  {
    assert ch + [] == ch;
  }

  lemma LinkOne(base: seq<nat>, t: seq<nat>, first: nat, ch: seq<nat>, added: seq<nat>, c: nat)
    requires Linked(base, t, first, ch, added) && InRange(t, c) && t[c] == FREE
    ensures var cur := Joined(ch, added);
      && (Tail(cur) == FREE <==> cur == []) && (cur == [] <==> ch == [] && added == [])
      && (cur != [] ==> InRange(t, Tail(cur)))
      && Linked(base, Append(t, cur, c), first, ch, added + [c]) && Tail(Joined(ch, added + [c])) == c
  {
    hide CountFree, Laid;
    if added == [] {
      assert ch + [] == ch && [] + [c] == [c];
      LayFirst(t, first, ch, c);
    } else {
      LayNext(base, t, ch, added, c);
    }
  }

  lemma OutOfClusters(base: seq<nat>, t: seq<nat>, first: nat, ch: seq<nat>, added: seq<nat>, count: nat, stuck: bool)
    requires Linked(base, t, first, ch, added) && |added| < count && (stuck ==> added == [])
      && (stuck || FreeCount(t) == 0)
    ensures var cur := Joined(ch, added);
      && (Tail(cur) == FREE <==> cur == []) && (cur != [] ==> InRange(t, Tail(cur)))
      && Extension(base, if cur == [] then t else t[Tail(cur) := LAST], ch, added, count, true, stuck)
  {
    hide CountFree;
    var cur := Joined(ch, added);
    if added == [] {
      assert ch + [] == ch;
      if ch != [] {
        LayNone(t, first, ch);
      }
    } else {
      assert LaidAt(t, cur, |cur|, |cur| - 1);
      assert t[Tail(cur) := LAST] == t;
      assert added[0] in added;
      CountFreeZero(base, |base|);
    }
  }

  lemma LinkedAll(base: seq<nat>, t: seq<nat>, first: nat, ch: seq<nat>, added: seq<nat>)
    requires Linked(base, t, first, ch, added) && added != []
    ensures Extension(base, t, ch, added, |added|, false, false)
  {
    hide CountFree, Laid;
  }

  /** What FatShrinkEof, keeping `n` clusters, makes of it. */
  lemma ExtensionShrinks(base: seq<nat>, t: seq<nat>, first: nat, ch: seq<nat>, added: seq<nat>, count: nat,
      stuck: bool, n: nat)
    requires IsPath(base, first, ch) && !InRange(base, Stop(base, first, ch)) && (ch == [] ==> SaneValue(base, first))
    requires Extension(base, t, ch, added, count, true, stuck) && |base| <= SPECIAL
    ensures var cur, now := Joined(ch, added), if ch == [] && added != [] then added[0] else first;
      && IsPath(t, now, cur) && !InRange(t, Stop(t, now, cur)) && SaneValue(t, Stop(t, now, cur))
      && var end := if n <= |cur| then Cut(t, cur, n) else t;
         && Laid(base, end, cur, if n <= |cur| then n else |cur|)
         && (SameFree(base, end) <==>
               n == InUse(base, ch) || (n > |ch| == InUse(base, ch) && (stuck || FreeCount(base) == 0)))
  {
    hide CountFree, Cut, Links;
    var cur := Joined(ch, added);
    if cur != [] {
      LaidIsChain(base, t, cur, |cur|);
    }
    if n <= |cur| {
      LaidCut(base, t, cur, n);
    }
    hide Laid, SameFree, IsPath, Joined;
    GrowthUndone(base, first, ch, added, if n <= |cur| then Cut(t, cur, n) else t, n);
  }

  /** The last cluster of a well-formed chain is not free. */
  lemma NoneExtra(t: seq<nat>, first: nat, ch: seq<nat>, added: seq<nat>)
    requires IsChain(t, first, ch) && AddedFree(t, added)
    ensures Joined(ch, added) == ch + added && Taken(t, ch, added) == |added| && InUse(t, ch) == |ch|
  {
    assert added != [] ==> added[0] in added;
  }

  /** On a well-formed file: what was laid out is the old chain grown by `added`. */
  lemma LaidIsGrown(base: seq<nat>, t: seq<nat>, first: nat, ch: seq<nat>, added: seq<nat>)
    requires IsChain(base, first, ch) && AddedFree(base, added)
    requires var cur := Joined(ch, added); Laid(base, t, cur, |cur|)
    requires FreeCount(t) == FreeCount(base) - Taken(base, ch, added) && |t| <= SPECIAL && added != []
    ensures Joined(ch, added) == ch + added && Grown(base, t, ch, added)
    ensures IsChain(t, if ch == [] then added[0] else first, ch + added)
  {
    hide CountFree;
    var cur := Joined(ch, added);
    LaidIsChain(base, t, cur, |cur|);
    assert added[0] in added;
    forall i | 0 <= i < |t| && i !in added && (ch == [] || i != Tail(ch))
      ensures t[i] == base[i]
    {
      if i in cur {
        var k :| 0 <= k < |cur| && cur[k] == i;
        assert LaidAt(t, cur, |cur|, k);
        assert Links(base, ch, k);
      }
    }
  }

  /** ... and cut back it is the old table, up to which end mark the last cluster carries. */
  lemma LaidIsUndone(base: seq<nat>, t: seq<nat>, first: nat, ch: seq<nat>, added: seq<nat>)
    requires IsChain(base, first, ch) && AddedFree(base, added)
    requires var cur := Joined(ch, added); |ch| <= |cur| && Laid(base, t, cur, |ch|) && |t| <= SPECIAL
    ensures Joined(ch, added) == ch + added
    ensures t == if ch == [] then base else base[Tail(ch) := LAST]
  {
    var cur := Joined(ch, added);
    assert added != [] ==> added[0] in added;
    var e := if ch == [] then base else base[Tail(ch) := LAST];
    forall i | 0 <= i < |t|
      ensures t[i] == e[i]
    {
      if i in cur {
        var k :| 0 <= k < |cur| && cur[k] == i;
        assert LaidAt(t, cur, |ch|, k);
        if k < |ch| - 1 {
          assert Links(base, ch, k);
          PathDistinct(base, first, ch, k, |ch| - 1);
        } else if k >= |ch| {
          assert cur[k] in added;
        }
      }
    }
  }

  /** Cutting a grown chain back to where it was restores the table, up to which end
      mark the last cluster carries. */
  lemma CutUndoesGrowth(base: seq<nat>, t: seq<nat>, first: nat, ch: seq<nat>, added: seq<nat>)
    requires Grown(base, t, ch, added) && IsChain(t, first, ch + added) && |t| <= SPECIAL
    requires ch != [] ==> InRange(base, Tail(ch))
    ensures Cut(t, ch + added, |ch|) == if ch == [] then base else base[Tail(ch) := LAST]
  {
    var r := Cut(t, ch + added, |ch|);
    assert (ch + added)[|ch|..] == added;
    assert ch != [] ==> (ch + added)[|ch| - 1] == Tail(ch);
    ChainDistinct(t, first, ch + added);
    forall c | c in added
      ensures ch == [] || c != Tail(ch)
    {
      var k :| 0 <= k < |added| && added[k] == c;
      assert (ch + added)[|ch| + k] == c;
    }
    var e := if ch == [] then base else base[Tail(ch) := LAST];
    assert forall i :: 0 <= i < |t| ==> r[i] == e[i];
  }

  /** What FatShrinkEof's walk comes to on a path: too short, or cut after `n` clusters. */
  lemma ShrinkOnPath(t: seq<nat>, first: nat, ch: seq<nat>, n: nat)
    requires IsPath(t, first, ch) && !InRange(t, Stop(t, first, ch)) && |t| <= SPECIAL
    ensures n > 0 ==> (InRange(t, Follow(t, first, n - 1)) <==> n <= |ch|)
    ensures Follow(t, first, 0) == first
    ensures n > 0 && n <= |ch| ==>
      && Follow(t, first, n - 1) == ch[n - 1]
      && FreeWalk(t[ch[n - 1] := LAST], Follow(t, first, n)) == (Cut(t, ch, n), Stop(t, first, ch))
    ensures n == 0 ==> FreeWalk(t, Follow(t, first, n)) == (Cut(t, ch, n), Stop(t, first, ch))
  {
    if n > 0 {
      FollowPath(t, first, ch, n - 1);
    }
    if n <= |ch| {
      FreeWalkAfterCut(t, first, ch, n);
    }
  }

  lemma ChainStops(t: seq<nat>, first: nat, ch: seq<nat>)
    requires IsChain(t, first, ch) && |t| <= SPECIAL
    ensures IsPath(t, first, ch) && !InRange(t, Stop(t, first, ch)) && (ch != [] ==> EndOfChain(Stop(t, first, ch)))
    ensures NoRepeats(ch) && SaneValue(t, first) && SaneValue(t, Stop(t, first, ch))
  {
    ChainDistinct(t, first, ch);
  }
}

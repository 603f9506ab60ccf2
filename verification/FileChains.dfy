/** All files of a volume at once: every file has its own well-formed chain of the right
    length, and growing or shrinking one of them keeps that true of all. */
module FileChains {
  import opened Bytes
  import opened FatTypes
  import opened FatTable
  import opened Clusters

  /** FatSizeToClusters: size / clusterSize, rounded up. */
  function ClustersOf(size: nat, clusterSize: nat): (n: nat)
    requires clusterSize > 0
    ensures Start(n, clusterSize) >= size && (n > 0 ==> Start(n - 1, clusterSize) < size)
  {
    Unit(size, clusterSize) + if Rest(size, clusterSize) > 0 then 1 else 0
  }

  lemma ClustersMono(a: nat, b: nat, clusterSize: nat)
    requires clusterSize > 0 && a <= b
    ensures ClustersOf(a, clusterSize) <= ClustersOf(b, clusterSize)
  {
    var m, n := ClustersOf(a, clusterSize), ClustersOf(b, clusterSize);
    if n < m {
      StartMono(n, m - 1, clusterSize);
    }
  }

  /** An open file: where its chain starts, its size, its remembered last cluster (0 when
      not known), and the chain itself. */
  datatype File = File(first: nat, size: nat, last: nat, chain: seq<nat>)

  ghost predicate FileOk(t: seq<nat>, clusterSize: nat, f: File)
    requires clusterSize > 0
  {
    && IsChain(t, f.first, f.chain)
    && |f.chain| == ClustersOf(f.size, clusterSize)
    && (f.last == FREE || f.last == Tail(f.chain))
  }

  ghost predicate Disjoint(a: seq<nat>, b: seq<nat>) {
    forall i :: 0 <= i < |a| ==> a[i] !in b
  }

  /** Every file is well-formed and no cluster belongs to two files. */
  ghost predicate AllOk(t: seq<nat>, clusterSize: nat, files: map<nat, File>)
    requires clusterSize > 0
  {
    && |t| <= SPECIAL
    && (forall a :: a in files ==> FileOk(t, clusterSize, files[a]))
    && (forall a, b :: a in files && b in files && a != b ==> Disjoint(files[a].chain, files[b].chain))
  }

  /** What FatGrowEof does to a well-formed file; `stuck` is the volume's disk error. */
  ghost predicate GrowOutcome(t: seq<nat>, clusterSize: nat, f: File, newSize: nat, stuck: bool,
                              t': seq<nat>, f': File, status: Status)
    requires clusterSize > 0
  {
    var n0, n1 := ClustersOf(f.size, clusterSize), ClustersOf(newSize, clusterSize);
    if newSize >= UINT32 then
      status == Unsupported && t' == t && f' == f
    else if n1 <= n0 then
      status == Success && t' == t && f' == f.(size := newSize)
    else if stuck || FreeCount(t) < n1 - n0 then
      && status == VolumeFull
      && t' == (if f.chain != [] && InRange(t, Tail(f.chain)) then t[Tail(f.chain) := LAST] else t)
      && f' == f.(last := Tail(f.chain))
    else
      && status == Success && |f'.chain| == n1 && f.chain <= f'.chain
      && Grown(t, t', f.chain, f'.chain[|f.chain|..])
      && IsChain(t', f'.first, f'.chain)
      && (f.chain != [] ==> f'.first == f.first) && f'.size == newSize && f'.last == Tail(f'.chain)
  }

  /** What FatTruncateOFile does to a well-formed file. */
  ghost predicate TruncateOutcome(t: seq<nat>, clusterSize: nat, f: File, newSize: nat, t': seq<nat>, f': File,
      status: Status)
    requires clusterSize > 0
  {
    var n := ClustersOf(newSize, clusterSize);
    && n <= |f.chain| && (forall k :: 0 <= k < |f.chain| ==> InRange(t, f.chain[k]))
    && status == Success && t' == Cut(t, f.chain, n)
    && f' == File(if n == 0 then FREE else f.first, newSize, if f.chain == [] then f.last else Tail(f.chain[..n]),
      f.chain[..n])
  }

  /** A chain that shares no cluster with what changed is still the same chain. */
  lemma OtherChainKept(t: seq<nat>, t': seq<nat>, g: File, clusterSize: nat)
    requires clusterSize > 0 && FileOk(t, clusterSize, g) && |t'| == |t|
    requires forall k :: 0 <= k < |g.chain| ==> t'[g.chain[k]] == t[g.chain[k]]
    ensures FileOk(t', clusterSize, g)
  {
    ChainFrame(t, t', g.first, g.chain);
  }

  /** No cluster of a chain is free. */
  lemma ChainNotFree(t: seq<nat>, first: nat, ch: seq<nat>, k: nat)
    requires IsChain(t, first, ch) && k < |ch|
    ensures InRange(t, ch[k]) && t[ch[k]] != FREE
  {
    if k < |ch| - 1 {
      assert Links(t, ch, k);
    }
  }

  /** Growing a file keeps it well-formed. */
  lemma GrowKeepsFile(t: seq<nat>, clusterSize: nat, f: File, newSize: nat, stuck: bool, t': seq<nat>, f': File,
      status: Status)
    requires clusterSize > 0 && |t| <= SPECIAL && FileOk(t, clusterSize, f) && f.size <= newSize
    requires GrowOutcome(t, clusterSize, f, newSize, stuck, t', f', status)
    ensures FileOk(t', clusterSize, f') && |t'| == |t|
    ensures f.chain <= f'.chain
  {
    hide ClustersOf;
    ClustersMono(f.size, newSize, clusterSize);
    if status == VolumeFull && f.chain != [] {
      GrowthStart(t, f.first, f.chain);
      assert f.chain + [] == f.chain;
      GrowthMarked(t, t, f.first, f.chain, []);
    }
  }

  /** Growing a file leaves every other file alone. */
  lemma GrowKeepsOthers(t: seq<nat>, clusterSize: nat, f: File, newSize: nat, stuck: bool, t': seq<nat>, f': File,
      status: Status, g: File)
    requires clusterSize > 0 && |t| <= SPECIAL && FileOk(t, clusterSize, f) && FileOk(t, clusterSize, g)
    requires GrowOutcome(t, clusterSize, f, newSize, stuck, t', f', status) && f.size <= newSize
    requires Disjoint(g.chain, f.chain)
    ensures FileOk(t', clusterSize, g) && Disjoint(g.chain, f'.chain)
  {
    GrowKeepsFile(t, clusterSize, f, newSize, stuck, t', f', status);
    hide ClustersOf;
    forall k | 0 <= k < |g.chain|
      ensures t'[g.chain[k]] == t[g.chain[k]] && g.chain[k] !in f'.chain
    {
      ChainNotFree(t, g.first, g.chain, k);
      assert f.chain != [] ==> Tail(f.chain) in f.chain;
      if status == Success && |f'.chain| > |f.chain| {
        assert f'.chain == f.chain + f'.chain[|f.chain|..];
      }
    }
    OtherChainKept(t, t', g, clusterSize);
  }

  /** Shrinking a file keeps it well-formed and leaves every other file alone. */
  lemma TruncateKeepsFile(t: seq<nat>, clusterSize: nat, f: File, newSize: nat, t': seq<nat>, f': File, status: Status)
    requires clusterSize > 0 && |t| <= SPECIAL && FileOk(t, clusterSize, f)
    requires TruncateOutcome(t, clusterSize, f, newSize, t', f', status)
    ensures FileOk(t', clusterSize, f') && |t'| == |t|
    ensures forall k :: |f'.chain| <= k < |f.chain| ==> t'[f.chain[k]] == FREE
  {
    hide ClustersOf, Cut;
    CutIsPrefix(t, f.first, f.chain, ClustersOf(newSize, clusterSize));
  }

  lemma TruncateKeepsOthers(t: seq<nat>, clusterSize: nat, f: File, newSize: nat, t': seq<nat>, f': File,
      status: Status, g: File)
    requires clusterSize > 0 && |t| <= SPECIAL && FileOk(t, clusterSize, f) && FileOk(t, clusterSize, g)
    requires TruncateOutcome(t, clusterSize, f, newSize, t', f', status)
    requires Disjoint(g.chain, f.chain)
    ensures FileOk(t', clusterSize, g) && Disjoint(g.chain, f'.chain)
  {
    hide ClustersOf, Cut;
    CutIsPrefix(t, f.first, f.chain, ClustersOf(newSize, clusterSize));
    OtherChainKept(t, t', g, clusterSize);
  }

  /** One operation on one file of the volume. */
  datatype FileOp =
    | Grow(id: nat, newSize: nat, stuck: bool, status: Status)
    | Truncate(id: nat, newSize: nat, status: Status)

  datatype Snapshot = Snapshot(table: seq<nat>, files: map<nat, File>)

  /** `s'` is `s` after `op`, which touches one file only. */
  ghost predicate Step(clusterSize: nat, s: Snapshot, op: FileOp, s': Snapshot)
    requires clusterSize > 0
  {
    && op.id in s.files && op.id in s'.files && s'.files == s.files[op.id := s'.files[op.id]]
    && match op
       case Grow(id, newSize, stuck, status) =>
         && s.files[id].size <= newSize
         && GrowOutcome(s.table, clusterSize, s.files[id], newSize, stuck, s'.table, s'.files[id], status)
       case Truncate(id, newSize, status) =>
         TruncateOutcome(s.table, clusterSize, s.files[id], newSize, s'.table, s'.files[id], status)
  }

  lemma StepKeepsOthers(clusterSize: nat, s: Snapshot, op: FileOp, s': Snapshot, a: nat)
    requires clusterSize > 0 && AllOk(s.table, clusterSize, s.files) && Step(clusterSize, s, op, s')
    requires a in s.files && a != op.id
    ensures FileOk(s'.table, clusterSize, s.files[a]) && Disjoint(s.files[a].chain, s'.files[op.id].chain)
  {
    hide ClustersOf, FileOk, GrowOutcome, TruncateOutcome, Disjoint;
    var f, f' := s.files[op.id], s'.files[op.id];
    match op
    case Grow(id, newSize, stuck, status) =>
      GrowKeepsOthers(s.table, clusterSize, f, newSize, stuck, s'.table, f', status, s.files[a]);
    case Truncate(id, newSize, status) =>
      TruncateKeepsOthers(s.table, clusterSize, f, newSize, s'.table, f', status, s.files[a]);
  }

  lemma StepKeepsAll(clusterSize: nat, s: Snapshot, op: FileOp, s': Snapshot)
    requires clusterSize > 0 && AllOk(s.table, clusterSize, s.files) && Step(clusterSize, s, op, s')
    ensures AllOk(s'.table, clusterSize, s'.files) && |s'.table| == |s.table|
  {
    hide ClustersOf, FileOk, GrowOutcome, TruncateOutcome;
    var f, f' := s.files[op.id], s'.files[op.id];
    match op {
      case Grow(id, newSize, stuck, status) =>
        GrowKeepsFile(s.table, clusterSize, f, newSize, stuck, s'.table, f', status);
      case Truncate(id, newSize, status) =>
        TruncateKeepsFile(s.table, clusterSize, f, newSize, s'.table, f', status);
    }
    forall a | a in s.files && a != op.id
      ensures FileOk(s'.table, clusterSize, s.files[a])
      ensures Disjoint(s.files[a].chain, f'.chain) && Disjoint(f'.chain, s.files[a].chain)
    {
      StepKeepsOthers(clusterSize, s, op, s', a);
    }
  }

  /** Over every run of grows and truncates all chains stay in range, acyclic, pairwise
      disjoint and as long as their file's size says. */
  lemma {:induction false} RunKeepsAll(clusterSize: nat, ops: seq<FileOp>, states: seq<Snapshot>)
    requires clusterSize > 0 && |states| == |ops| + 1 && AllOk(states[0].table, clusterSize, states[0].files)
    requires forall i :: 0 <= i < |ops| ==> Step(clusterSize, states[i], ops[i], states[i + 1])
    ensures AllOk(states[|ops|].table, clusterSize, states[|ops|].files)
    decreases |ops|
  {
    if |ops| > 0 {
      var n := |ops| - 1;
      RunKeepsAll(clusterSize, ops[..n], states[..n + 1]);
      assert Step(clusterSize, states[n], ops[n], states[n + 1]);
      StepKeepsAll(clusterSize, states[n], ops[n], states[n + 1]);
    }
  }
}

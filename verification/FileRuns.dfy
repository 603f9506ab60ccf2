/** Any run of reads, writes and seeks through many handles on many files of a volume. */
module FileRuns {
  import opened Bytes
  import opened FatTypes
  import opened Clusters
  import opened FileChains
  import opened FileSpace
  import opened ReadWrite

  /** A call on handle number `h`. */
  datatype Op =
    | Read(h: nat, n: UInt64)
    | Write(h: nat, b: seq<Byte>)
    | Seek(h: nat, to: UInt64)

  datatype Result = Got(status: Status, out: seq<Byte>) | Put(status: Status, done: nat) | Moved

  /** Whether a handle may write: not on a volume that is read-only, nor if it was opened so. */
  datatype Lock = Lock(volumeReadOnly: bool, readOnly: bool)

  /** What no call changes: the file of each handle and whether it may write, the size of a
      cluster, and whether the volume has a disk error. */
  datatype Setting = Setting(owner: seq<nat>, locks: seq<Lock>, clusterSize: nat, stuck: bool)

  /** What callers see of a volume: the bytes of every file, where every handle is, the error
      mark of every open file, and the number of free clusters. */
  datatype Contents = Contents(bytes: map<nat, seq<Byte>>, pos: seq<nat>, errors: map<nat, Status>, free: nat)

  ghost predicate Known(g: Setting, s: Contents) {
    && |s.pos| == |g.owner| == |g.locks| && g.clusterSize > 0
    && forall h :: 0 <= h < |g.owner| ==> g.owner[h] in s.bytes && g.owner[h] in s.errors
  }

  ghost predicate OpOk(g: Setting, op: Op) {
    op.h < |g.owner| && (op.Write? ==> |op.b| < UINT64)
  }

  /** What a call answers and leaves; all but the bytes in front of a write behind the end of
      its file is determined. */
  ghost predicate CallStep(g: Setting, s: Contents, op: Op, r: Result, s': Contents)
    requires Known(g, s) && OpOk(g, op)
  {
    var id, p := g.owner[op.h], s.pos[op.h];
    var file, error := s.bytes[id], s.errors[id];
    && |s'.pos| == |s.pos| && id in s'.bytes && id in s'.errors
    && s' == Contents(s.bytes[id := s'.bytes[id]], s.pos[op.h := s'.pos[op.h]], s.errors[id := s'.errors[id]], s'.free)
    && match op
       case Read(h, n) =>
         && r.Got? && s'.bytes[id] == file && s'.free == s.free
         && ReadOutcome(g.clusterSize, file, p, n, error, r.status, r.out, s'.pos[h], s'.errors[id])
       case Write(h, b) =>
         if g.locks[h].volumeReadOnly then r == Put(WriteProtected, 0) && s' == s
         else if g.locks[h].readOnly then r == Put(AccessDenied, 0) && s' == s
         else if error != Success then r == Put(error, 0) && s' == s
         else
           && r.Put?
           && WriteOutcome(g.clusterSize, g.stuck, s.free, file, p, b,
                r.status, r.done, s'.free, s'.bytes[id], s'.pos[h], s'.errors[id])
       case Seek(h, to) =>
         && r == Moved && s'.bytes[id] == file && s'.errors[id] == error && s'.free == s.free
         && s'.pos[h] == if to == UINT64 - 1 then |file| else to
  }

  /** The end of the request is beyond 64 bits. */
  predicate Wraps(s: Contents, op: Op) {
    op.h < |s.pos| && (match op
      case Read(h, n) => s.pos[h] + n >= UINT64
      case Write(h, b) => s.pos[h] + |b| >= UINT64
      case Seek(_, _) => false)
  }

  /** Unless the end of its request wraps, a call is one on flat bytes: no file gets an error
      mark, a read returns what is there, a write puts all its bytes or changes nothing. */
  lemma FlatStep(g: Setting, s: Contents, op: Op, r: Result, s': Contents)
    requires Known(g, s) && OpOk(g, op) && CallStep(g, s, op, r, s') && !Wraps(s, op)
    ensures Known(g, s') && s'.errors == s.errors
    ensures var id, p := g.owner[op.h], s.pos[op.h];
      match op
      case Read(_, n) => r.status == Success ==> s'.bytes == s.bytes && r.out <= s.bytes[id][p..]
      case Write(h, b) =>
        if r == Put(Success, |b|) then Written(s.bytes[id], p, b, s'.bytes[id]) else s' == s && r.status != Success
      case Seek(_, _) => s'.bytes == s.bytes
  {
    hide Written, Overlaid, GrowStatus, Growth, RoomFor;
    var id := g.owner[op.h];
    assert s.bytes[id := s.bytes[id]] == s.bytes && s.errors[id := s.errors[id]] == s.errors;
    assert s.pos[op.h := s.pos[op.h]] == s.pos;
  }

  /** A run: the states between the calls, and their results. */
  ghost predicate FlatRun(g: Setting, states: seq<Contents>, ops: seq<Op>, results: seq<Result>) {
    && |states| == |ops| + 1 && |results| == |ops|
    && (forall k :: 0 <= k < |states| ==> Known(g, states[k]))
    && forall k :: 0 <= k < |ops| ==> StepAt(g, states, ops, results, k)
  }

  ghost predicate StepAt(g: Setting, states: seq<Contents>, ops: seq<Op>, results: seq<Result>, k: nat)
    requires k < |ops| && k < |results| && k + 1 < |states| && Known(g, states[k])
  {
    OpOk(g, ops[k]) && CallStep(g, states[k], ops[k], results[k], states[k + 1])
  }

  lemma RunNone(g: Setting, s: Contents)
    requires Known(g, s)
    ensures FlatRun(g, [s], [], [])
  {
  }

  lemma RunMore(g: Setting, states: seq<Contents>, ops: seq<Op>, results: seq<Result>, op: Op, r: Result, s: Contents)
    requires FlatRun(g, states, ops, results) && OpOk(g, op) && Known(g, s)
    requires CallStep(g, states[|ops|], op, r, s)
    ensures FlatRun(g, states + [s], ops + [op], results + [r]) && |states| == |ops| + 1
  {
    hide CallStep, Known, OpOk;
    var ops', states', results' := ops + [op], states + [s], results + [r];
    forall k | 0 <= k < |ops'|
      ensures StepAt(g, states', ops', results', k)
    {
      if k < |ops| {
        assert StepAt(g, states, ops, results, k);
      }
    }
  }

  /** In a run without such requests no file is ever marked. */
  lemma {:induction false} NeverMarked(g: Setting, states: seq<Contents>, ops: seq<Op>, results: seq<Result>, n: nat)
    requires FlatRun(g, states, ops, results) && n <= |ops| && forall k :: 0 <= k < n ==> !Wraps(states[k], ops[k])
    ensures states[n].errors == states[0].errors
  {
    hide CallStep;
    if n > 0 {
      NeverMarked(g, states, ops, results, n - 1);
      assert StepAt(g, states, ops, results, n - 1);
      FlatStep(g, states[n - 1], ops[n - 1], results[n - 1], states[n]);
    }
  }

  lemma LockedWrites(g: Setting, states: seq<Contents>, ops: seq<Op>, results: seq<Result>)
    requires FlatRun(g, states, ops, results)
    ensures |results| == |ops| && |states| == |ops| + 1
    ensures forall k :: 0 <= k < |ops| && ops[k].Write? ==>
      && ops[k].h < |g.owner| == |g.locks|
      && (g.locks[ops[k].h].volumeReadOnly || g.locks[ops[k].h].readOnly ==>
            && states[k + 1] == states[k]
            && results[k] == Put(if g.locks[ops[k].h].volumeReadOnly then WriteProtected else AccessDenied, 0))
  {
    hide WriteOutcome, ReadOutcome;
    forall k | 0 <= k < |ops| && ops[k].Write?
      ensures ops[k].h < |g.owner| == |g.locks|
      ensures g.locks[ops[k].h].volumeReadOnly || g.locks[ops[k].h].readOnly ==>
        && states[k + 1] == states[k]
        && results[k] == Put(if g.locks[ops[k].h].volumeReadOnly then WriteProtected else AccessDenied, 0)
    {
      assert StepAt(g, states, ops, results, k);
    }
  }

  lemma OpenKeeps(v: FatVolume, f: OFile, id: nat, files: map<nat, File>, bytes: map<nat, seq<Byte>>)
    requires Open(v, f, id, files, bytes)
    ensures Keeps(v, files, bytes) && id in files
  {
  }

  /** The handles of a volume, all on open files; handles on one file share its OFile. */
  class Handles {
    const v: FatVolume
    const handles: seq<Handle>
    const owner: seq<nat>
    ghost var files: map<nat, File>
    ghost var bytes: map<nat, seq<Byte>>
    ghost var errors: map<nat, Status>

    constructor (v: FatVolume, handles: seq<Handle>, owner: seq<nat>, ghost files: map<nat, File>,
        ghost bytes: map<nat, seq<Byte>>, ghost errors: map<nat, Status>)
      requires v.clusterSize > 0
      requires |owner| == |handles| && forall i, j :: 0 <= i < j < |handles| ==> handles[i] != handles[j]
      requires forall i, j :: 0 <= i < |handles| && 0 <= j < |handles| ==>
        (owner[i] == owner[j] <==> handles[i].file == handles[j].file)
      requires forall i :: 0 <= i < |handles| ==> Open(v, handles[i].file, owner[i], files, bytes)
      requires forall i :: 0 <= i < |handles| ==> owner[i] in errors && errors[owner[i]] == handles[i].file.error
      ensures Valid() && this.v == v && this.handles == handles && this.owner == owner
      ensures this.bytes == bytes && this.errors == errors
    {
      hide Open;
      this.v, this.handles, this.owner, this.files, this.bytes, this.errors := v, handles, owner, files, bytes, errors;
    }

    ghost predicate Valid()
      reads this, v, handles, Objects()
    {
      && |owner| == |handles| && v.clusterSize > 0
      && (forall i, j :: 0 <= i < j < |handles| ==> handles[i] != handles[j])
      && (forall i, j :: 0 <= i < |handles| && 0 <= j < |handles| ==>
            (owner[i] == owner[j] <==> handles[i].file == handles[j].file))
      && (forall i :: 0 <= i < |handles| ==> Open(v, handles[i].file, owner[i], files, bytes))
      && forall i :: 0 <= i < |handles| ==> owner[i] in errors && errors[owner[i]] == handles[i].file.error
    }

    ghost function Objects(): set<OFile> {
      set i | 0 <= i < |handles| :: handles[i].file
    }

    ghost function State(): Contents
      reads this, handles, v
    {
      Contents(bytes, seq(|handles|, i requires 0 <= i < |handles| reads handles => handles[i].position), errors,
        FreeCount(v.table))
    }

    ghost function Settings(): Setting
      reads v
    {
      Setting(owner, seq(|handles|, i requires 0 <= i < |handles| => 
          Lock(handles[i].volumeReadOnly, handles[i].readOnly)), v.clusterSize, v.diskError)
    }

    lemma OpenAll(h: nat)
      requires Valid() && h < |handles|
      ensures Open(v, handles[h].file, owner[h], files, bytes) && owner[h] in bytes && handles[h].file in Objects()
      ensures owner[h] in errors && errors[owner[h]] == handles[h].file.error
      ensures Known(Settings(), State()) && State().pos[h] == handles[h].position
      ensures Settings().locks[h] == Lock(handles[h].volumeReadOnly, handles[h].readOnly)
    {
      hide Keeps, FatVolume.CursorOk, RoomFor;
      OpenRoom(v, handles[h].file, owner[h], files, bytes);
      forall i | 0 <= i < |handles|
        ensures owner[i] in bytes
      {
        OpenSize(v, handles[i].file, owner[i], files, bytes);
      }
    }

    lemma Counted()
      requires Valid()
      ensures |owner| == |handles|
    {
    }

    /** One call on one handle. */
    method Call(op: Op) returns (r: Result)
      requires Valid() && OpOk(Settings(), op) && Known(Settings(), State())
      modifies v, handles, Objects(), this`files, this`bytes, this`errors
      ensures Valid() && Settings() == old(Settings()) && Known(Settings(), State())
      ensures CallStep(Settings(), old(State()), op, r, State())
    {
      hide Valid, CallStep, Known;
      Counted();
      match op {
        case Read(h, n) => r := CallRead(h, n);
        case Write(h, b) => r := CallWrite(h, b);
        case Seek(h, to) => r := CallSeek(h, to);
      }
    }

    method CallRead(h: nat, n: UInt64) returns (r: Result)
      requires Valid() && h < |handles| && Known(Settings(), State())
      modifies v, handles, Objects(), this`errors
      ensures Valid() && Settings() == old(Settings()) && Known(Settings(), State())
      ensures CallStep(Settings(), old(State()), Read(h, n), r, State())
    {
      hide Open, Known, CallStep, ReadOutcome;
      OpenAll(h);
      ghost var before := State();
      var status, out := ReadThrough(h, n);
      r := Got(status, out);
      OpenAll(h);
      assert Settings() == old(Settings());
      assert State() == Contents(bytes, before.pos[h := handles[h].position], errors, before.free);
      ReadIsStep(Settings(), before, h, n, r, State());
    }

    method ReadThrough(h: nat, n: UInt64) returns (status: Status, out: seq<Byte>)
      requires Valid() && h < |handles|
      modifies v`fatEntryPos, v`fatEntryBuffer, handles[h], handles[h].file, this`errors
      ensures Valid() && owner[h] in bytes && owner[h] in errors && owner[h] in old(errors)
      ensures errors == old(errors)[owner[h] := errors[owner[h]]] && v.clusterSize > 0
      ensures ReadOutcome(v.clusterSize, bytes[owner[h]], old(handles[h].position), n, old(errors[owner[h]]),
        status, out, handles[h].position, errors[owner[h]])
    {
      hide Keeps, FatVolume.CursorOk, FatVolume.Valid, FileOf, ReadOutcome;
      status, out := handles[h].Read(v, n, owner[h], files, bytes);
      forall i | 0 <= i < |handles|
        ensures Open(v, handles[i].file, owner[i], files, bytes)
      {
        if handles[i].file != handles[h].file {
          OpenKeeps(v, handles[h].file, owner[h], files, bytes);
        }
      }
      errors := errors[owner[h] := handles[h].file.error];
    }

    method CallWrite(h: nat, b: seq<Byte>) returns (r: Result)
      requires Valid() && h < |handles| && |b| < UINT64 && Known(Settings(), State())
      modifies v, handles, Objects(), this`files, this`bytes, this`errors
      ensures Valid() && Settings() == old(Settings()) && Known(Settings(), State())
      ensures CallStep(Settings(), old(State()), Write(h, b), r, State())
    {
      hide Open, Known, CallStep, WriteOutcome, FreeCount;
      OpenAll(h);
      ghost var before := State();
      var status, done := WriteThrough(h, b);
      r := Put(status, done);
      OpenAll(h);
      assert Settings() == old(Settings());
      assert State() == Contents(bytes, before.pos[h := handles[h].position], errors, FreeCount(v.table));
      WriteIsStep(Settings(), before, h, b, r, State());
    }

    /** The write, and what it leaves of the other files. */
    method WriteThrough(h: nat, b: seq<Byte>) returns (status: Status, done: nat)
      requires Valid() && h < |handles| && |b| < UINT64
      modifies v`fat, v`fatEntryPos, v`fatEntryBuffer, v`info, v`freeInfoValid, v`fatDirty, v`table, v`data
      modifies handles[h], handles[h].file, this`files, this`bytes, this`errors
      ensures Valid() && owner[h] in old(bytes) && owner[h] in bytes && bytes == old(bytes)[owner[h] := bytes[owner[h]]]
      ensures owner[h] in errors && owner[h] in old(errors) && errors == old(errors)[owner[h] := errors[owner[h]]]
      ensures v.clusterSize > 0
      ensures handles[h].volumeReadOnly ==> status == WriteProtected
      ensures !handles[h].volumeReadOnly && handles[h].readOnly ==> status == AccessDenied
      ensures !handles[h].volumeReadOnly && !handles[h].readOnly && old(errors)[owner[h]] != Success ==>
        status == old(errors)[owner[h]]
      ensures handles[h].volumeReadOnly || handles[h].readOnly || old(errors)[owner[h]] != Success ==>
        && done == 0 && handles[h].position == old(handles[h].position) && bytes == old(bytes)
        && errors == old(errors) && FreeCount(v.table) == FreeCount(old(v.table))
      ensures !handles[h].volumeReadOnly && !handles[h].readOnly && old(errors)[owner[h]] == Success ==>
        WriteOutcome(v.clusterSize, v.diskError, FreeCount(old(v.table)), old(bytes)[owner[h]],
            old(handles[h].position), b,
          status, done, FreeCount(v.table), bytes[owner[h]], handles[h].position, errors[owner[h]])
    {
      hide Keeps, FatVolume.CursorOk, FatVolume.Valid, FileOf, WriteOutcome, FreeCount;
      ghost var files', bytes';
      status, done, files', bytes' := handles[h].Write(v, b, owner[h], files, bytes);
      forall i | 0 <= i < |handles|
        ensures Open(v, handles[i].file, owner[i], files', bytes')
      {
        if handles[i].file != handles[h].file {
          OpenKeeps(v, handles[h].file, owner[h], files', bytes');
        }
      }
      files, bytes, errors := files', bytes', errors[owner[h] := handles[h].file.error];
    }

    method CallSeek(h: nat, to: UInt64) returns (r: Result)
      requires Valid() && h < |handles| && Known(Settings(), State())
      modifies handles
      ensures Valid() && Settings() == old(Settings()) && Known(Settings(), State())
      ensures CallStep(Settings(), old(State()), Seek(h, to), r, State())
    {
      hide Keeps, FatVolume.CursorOk, FileOf, Known, CallStep, FreeCount;
      OpenAll(h);
      OpenSize(v, handles[h].file, owner[h], files, bytes);
      ghost var before := State();
      handles[h].SetPosition(to);
      r := Moved;
      OpenAll(h);
      assert Settings() == old(Settings());
      assert State() == before.(pos := before.pos[h := handles[h].position]);
      SeekIsStep(Settings(), before, h, to, r, State());
    }

    lemma OpenNow()
      requires Valid()
      ensures Known(Settings(), State())
    {
      if handles != [] {
        hide Open, Known;
        OpenAll(0);
      }
    }

    /** What the state and the settings show of the objects. */
    lemma Seen()
      requires Valid()
      ensures State().bytes == bytes && State().errors == errors && State().free == FreeCount(v.table)
      ensures |State().pos| == |handles| && forall h :: 0 <= h < |handles| ==> State().pos[h] == handles[h].position
      ensures Settings().owner == owner && |Settings().locks| == |handles| == |owner|
        && forall h :: 0 <= h < |handles| ==>
          Settings().locks[h] == Lock(handles[h].volumeReadOnly, handles[h].readOnly)
    {
    }

    lemma LockedRun(states: seq<Contents>, ops: seq<Op>, results: seq<Result>)
      requires Valid() && FlatRun(Settings(), states, ops, results)
      ensures |results| == |ops| && |states| == |ops| + 1
      ensures forall k :: 0 <= k < |ops| && ops[k].Write? ==>
        && ops[k].h < |handles|
        && (handles[ops[k].h].volumeReadOnly || handles[ops[k].h].readOnly ==>
              && states[k + 1] == states[k]
              && results[k] == Put(if handles[ops[k].h].volumeReadOnly then WriteProtected else AccessDenied, 0))
    {
      hide FlatRun, Open;
      LockedWrites(Settings(), states, ops, results);
      Seen();
      hide Settings;
      forall k | 0 <= k < |ops| && ops[k].Write?
        ensures && ops[k].h < |handles|
          && (handles[ops[k].h].volumeReadOnly || handles[ops[k].h].readOnly ==>
                && states[k + 1] == states[k]
                && results[k] == Put(if handles[ops[k].h].volumeReadOnly then WriteProtected else AccessDenied, 0))
      {
        var lock := Settings().locks[ops[k].h];
        assert lock == Lock(handles[ops[k].h].volumeReadOnly, handles[ops[k].h].readOnly);
      }
    }

    /** Every run is one of the files as byte sequences, and no write through a handle that may
        not write changes anything. */
    method RunAll(ops: seq<Op>) returns (results: seq<Result>, ghost states: seq<Contents>)
      requires Valid() && forall k :: 0 <= k < |ops| ==> OpOk(Settings(), ops[k])
      modifies v, handles, Objects(), this`files, this`bytes, this`errors
      ensures Valid() && Settings() == old(Settings()) && FlatRun(Settings(), states, ops, results)
      ensures states[0] == old(State()) && states[|ops|] == State()
      ensures |results| == |ops| && |states| == |ops| + 1
      ensures forall k :: 0 <= k < |ops| && ops[k].Write? ==>
        && ops[k].h < |handles|
        && (handles[ops[k].h].volumeReadOnly || handles[ops[k].h].readOnly ==>
              && states[k + 1] == states[k]
              && results[k] == Put(if handles[ops[k].h].volumeReadOnly then WriteProtected else AccessDenied, 0))
    {
      hide Valid, CallStep, Known, OpOk, State, Settings, FlatRun, Open, Objects;
      Seen();
      OpenNow();
      RunNone(Settings(), State());
      results, states := [], [State()];
      var k := 0;
      while k < |ops|
        invariant 0 <= k <= |ops| && Valid() && Known(Settings(), State()) && Settings() == old(Settings())
        invariant FlatRun(Settings(), states, ops[..k], results)
        invariant |states| == k + 1 && states[0] == old(State()) && states[k] == State()
      {
        var r := Call(ops[k]);
        RunMore(Settings(), states, ops[..k], results, ops[k], r, State());
        assert ops[..k + 1] == ops[..k] + [ops[k]];
        results, states := results + [r], states + [State()];
        k := k + 1;
      }
      assert ops[..k] == ops;
      LockedRun(states, ops, results);
    }
  }

  lemma ReadIsStep(g: Setting, s: Contents, h: nat, n: UInt64, r: Result, s': Contents)
    requires Known(g, s) && h < |g.owner| && r.Got? && |s'.pos| == |s.pos|
    requires var id := g.owner[h];
      && id in s'.errors && s' == Contents(s.bytes, s.pos[h := s'.pos[h]], s.errors[id := s'.errors[id]], s.free)
      && ReadOutcome(g.clusterSize, s.bytes[id], s.pos[h], n, s.errors[id], r.status, r.out, s'.pos[h], s'.errors[id])
    ensures CallStep(g, s, Read(h, n), r, s')
  {
    hide ReadOutcome;
    assert s.bytes[g.owner[h] := s.bytes[g.owner[h]]] == s.bytes;
  }

  lemma WriteIsStep(g: Setting, s: Contents, h: nat, b: seq<Byte>, r: Result, s': Contents)
    requires Known(g, s) && h < |g.owner| && |b| < UINT64 && r.Put? && |s'.pos| == |s.pos|
    requires var id := g.owner[h];
      && id in s'.bytes && id in s'.errors
      && s' == Contents(s.bytes[id := s'.bytes[id]], s.pos[h := s'.pos[h]], s.errors[id := s'.errors[id]], s'.free)
      && var lock, error := g.locks[h], s.errors[id];
         if lock.volumeReadOnly || lock.readOnly || error != Success then
           && r == Put(if lock.volumeReadOnly then WriteProtected else if lock.readOnly then AccessDenied else error, 0)
           && s'.pos[h] == s.pos[h] && s'.bytes == s.bytes && s'.errors == s.errors && s'.free == s.free
         else
           WriteOutcome(g.clusterSize, g.stuck, s.free, s.bytes[id], s.pos[h], b,
             r.status, r.done, s'.free, s'.bytes[id], s'.pos[h], s'.errors[id])
    ensures CallStep(g, s, Write(h, b), r, s')
  {
    hide WriteOutcome;
    assert s.pos[h := s.pos[h]] == s.pos;
  }

  lemma SeekIsStep(g: Setting, s: Contents, h: nat, to: UInt64, r: Result, s': Contents)
    requires Known(g, s) && h < |g.owner| && r == Moved
    requires s' == s.(pos := s.pos[h := if to == UINT64 - 1 then |s.bytes[g.owner[h]]| else to])
    ensures CallStep(g, s, Seek(h, to), r, s')
  {
    var id := g.owner[h];
    assert s.bytes[id := s.bytes[id]] == s.bytes && s.errors[id := s.errors[id]] == s.errors;
  }
}

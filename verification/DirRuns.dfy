/** Any run of listing, finding, creating and removing in one open directory: it behaves as
    an ordered list of entries. */
module DirRuns {
  import opened Bytes
  import opened FatTypes
  import opened FatNames
  import opened DirSlots
  import opened DirHash
  import opened Directory

  /** A call; `room` tells whether the volume has a free cluster then. */
  datatype Op =
    | List(position: nat, bufferSize: nat)
    | Find(name: seq<Char>)
    | Make(name: seq<Char>, attr: Byte, info: seq<Byte>, room: bool)
    | Drop(name: seq<Char>)

  datatype Result = Result(status: Status, e: Option<DirEnt>)

  ghost predicate OpOk(op: Op) {
    op.Make? ==> ValidName(op.name) && (op.attr / 8) % 2 == 0 && |op.info| == 19
  }

  /** What a call on the directory `d`, then with the slots `slots`, answers and leaves. */
  ghost predicate DirStep(d: ODir, isRoot: bool, slots: seq<Slot>, op: Op, r: Result, after: seq<Slot>)
    requires OpOk(op)
  {
    var list := Listing(slots);
    match op
    case List(position, bufferSize) =>
      && after == slots && IsNext(list, position / 32, r.e)
      && r.status == if r.e.None? || 80 + 2 * (|r.e.value.name| + 1) <= bufferSize then Success
        else BufferTooSmall
    case Find(name) =>
      after == slots && r.status == Success && Chosen(list, name, r.e)
    case Make(name, attr, info, room) =>
      if Has(list, name) then after == slots && r.status == Success && Chosen(list, name, r.e)
      else
        var place := Place(slots, d.isFixedRoot, name, room, isRoot);
        if place.None? then after == slots && r == Result(VolumeFull, None)
        else r.status == Success && r.e.Some? && Made(d, slots, op, place.value.0, place.value.1, r.e.value, after)
    case Drop(name) =>
      && r.status == Success && Chosen(list, name, r.e)
      && if r.e.None? then after == slots
         else Erased(slots, r.e.value, after) && exists i: nat :: Inserted(Listing(after), i, r.e.value, list)
  }

  /** An entry of that name, if the list has one. */
  ghost predicate Chosen(list: seq<DirEnt>, name: seq<Char>, e: Option<DirEnt>) {
    if e.Some? then e.value in list && Matches(name, e.value) else !Has(list, name)
  }

  /** The new entry `e` at slot `pos`, the `i`-th of the list. */
  ghost predicate Made(d: ODir, slots: seq<Slot>, op: Op, pos: nat, i: nat, e: DirEnt, after: seq<Slot>)
    requires op.Make? && OpOk(op)
  {
    var short := ShortName(e.entry);
    && e == DirEnt(pos, SlotCount(op.name), op.name, NewEntry(op.name, op.attr, op.info, short))
    && NewName(Listing(slots), d.crc(op.name), op.name, short)
    && d.Written(slots, after, e) && Inserted(Listing(slots), i, e, Listing(after))
  }

  /** The slots of `e` are skipped from now on, the others are as before. */
  ghost predicate Erased(slots: seq<Slot>, e: DirEnt, after: seq<Slot>) {
    && |after| == |slots| && e.pos < |slots| && 0 <= e.First()
    && (forall q :: e.First() <= q <= e.pos ==> Skipped(after[q]))
    && (forall q :: 0 <= q < |slots| && !(e.First() <= q <= e.pos) ==> after[q] == slots[q])
  }

  /** A run: the slots between the calls, and the results. */
  ghost predicate ListRun(d: ODir, isRoot: bool, states: seq<seq<Slot>>, ops: seq<Op>, results: seq<Result>) {
    && |states| == |ops| + 1 && |results| == |ops|
    && forall k :: 0 <= k < |ops| ==> StepAt(d, isRoot, states, ops, results, k)
  }

  ghost predicate StepAt(d: ODir, isRoot: bool, states: seq<seq<Slot>>, ops: seq<Op>, results: seq<Result>, k: nat)
    requires k < |ops| && k < |results| && k + 1 < |states|
  {
    OpOk(ops[k]) && DirStep(d, isRoot, states[k], ops[k], results[k], states[k + 1])
  }

  lemma RunMore(d: ODir, isRoot: bool, states: seq<seq<Slot>>, ops: seq<Op>, results: seq<Result>, op: Op, r: Result,
      slots: seq<Slot>)
    requires ListRun(d, isRoot, states, ops, results) && OpOk(op) && DirStep(d, isRoot, states[|ops|], op, r, slots)
    ensures ListRun(d, isRoot, states + [slots], ops + [op], results + [r])
  {
    hide DirStep, OpOk;
    var ops', states', results' := ops + [op], states + [slots], results + [r];
    forall k | 0 <= k < |ops'|
      ensures StepAt(d, isRoot, states', ops', results', k)
    {
      if k < |ops| {
        assert StepAt(d, isRoot, states, ops, results, k);
      }
    }
  }

  /** The name is new, needs a generated short name, and all candidates for one are held:
      the first 260, hence all there are. */
  predicate Stuck(list: seq<DirEnt>, crc: seq<int> -> nat, name: seq<Char>) {
    && !Is8Dot3(name) && !Has(list, name)
    && forall k: nat :: k < SPEC_RETRY + 0x100 ==> IsHeld(list, Candidate(crc(name), ShortBytes(name), k))
  }

  /** Unless the search for a short name is endless, a candidate is free. */
  lemma NotStuck(list: seq<DirEnt>, crc: seq<int> -> nat, name: seq<Char>)
    ensures Stuck(list, crc, name) <==>
      !Is8Dot3(name) && !Has(list, name) && forall k: nat :: IsHeld(list, Candidate(crc(name), ShortBytes(name), k))
  {
    hide Is8Dot3, Has, IsHeld, Candidate;
    SearchNeverEnds(list, crc(name), ShortBytes(name));
  }

  /** One call that ends.  Only a new entry that is mistaken for one with a long name breaks
      the agreement of list, tables and slots. */
  method Call(d: ODir, isRoot: bool, op: Op) returns (r: Result, ok: bool)
    requires d.Ready() && OpOk(op) && !(op.Make? && Stuck(Listing(d.slots), d.crc, op.name))
    modifies d
    ensures ok ==> d.Ready() && DirStep(d, isRoot, old(d.slots), op, r, d.slots)
    ensures !ok ==> op.Make? && r.e.Some? && d.Written(old(d.slots), d.slots, r.e.value) && Mistaken(d.slots, r.e.value)
  {
    hide Listing, Matches, Mistaken, IsNext, ODir.Ready, DirStep, Stuck;
    ok := true;
    match op {
      case List(position, bufferSize) =>
        r := CallList(d, isRoot, position, bufferSize);
      case Find(name) =>
        r := CallFind(d, isRoot, name);
      case Make(name, attr, info, room) =>
        r, ok := CallMake(d, isRoot, name, attr, info, room);
      case Drop(name) =>
        r := CallDrop(d, isRoot, name);
    }
  }

  method CallList(d: ODir, isRoot: bool, position: nat, bufferSize: nat) returns (r: Result)
    requires d.Ready()
    modifies d
    ensures d.Ready() && DirStep(d, isRoot, old(d.slots), List(position, bufferSize), r, d.slots)
  {
    hide Listing, Matches, IsNext, EndFrom, ODir.Loaded, ODir.Hashed, ODir.CursorOk, Unique, Tidy;
    var status, e, size, newPosition := d.ReadDir(position, bufferSize);
    r := Result(status, e);
  }

  method CallFind(d: ODir, isRoot: bool, name: seq<Char>) returns (r: Result)
    requires d.Ready()
    modifies d
    ensures d.Ready() && DirStep(d, isRoot, old(d.slots), Find(name), r, d.slots)
  {
    hide Listing, Matches, ODir.Loaded, ODir.Hashed, ODir.CursorOk, Unique, Tidy;
    var e := d.SearchODir(name);
    r := Result(Success, e);
  }

  method CallMake(d: ODir, isRoot: bool, name: seq<Char>, attr: Byte, info: seq<Byte>, room: bool)
      returns (r: Result, ok: bool)
    requires d.Ready() && OpOk(Make(name, attr, info, room)) && !Stuck(Listing(d.slots), d.crc, name)
    modifies d
    ensures ok ==> d.Ready() && DirStep(d, isRoot, old(d.slots), Make(name, attr, info, room), r, d.slots)
    ensures !ok ==> r.e.Some? && d.Written(old(d.slots), d.slots, r.e.value) && Mistaken(d.slots, r.e.value)
  {
    hide Listing, Matches, Mistaken, ODir.Ready, Candidate, Is8Dot3, ODir.Written, Stuck, Has, IsHeld, SlotCount;
    hide NewEntry, NewName, Place;
    ghost var last: nat := 0;
    NotStuck(Listing(d.slots), d.crc, name);
    var known := Has(Listing(d.slots), name);
    if !Is8Dot3(name) && !known {
      last :| !IsHeld(Listing(d.slots), Candidate(d.crc(name), ShortBytes(name), last));
    }
    var status, e;
    ghost var index;
    status, e, index := d.OpenOrCreate(name, attr, info, room, isRoot, last);
    r := Result(status, e);
    ok := known || status != Success || !Mistaken(d.slots, e.value);
  }

  method CallDrop(d: ODir, isRoot: bool, name: seq<Char>) returns (r: Result)
    requires d.Ready()
    modifies d
    ensures d.Ready() && DirStep(d, isRoot, old(d.slots), Drop(name), r, d.slots)
  {
    hide Listing, Matches, ODir.Loaded, ODir.Hashed, ODir.CursorOk, Unique, Tidy, Skipped, DirStep;
    var e := d.SearchODir(name);
    r := Result(Success, e);
    ghost var slots := d.slots;
    if e.None? {
      NoneIsStep(d, isRoot, slots, name);
      return;
    }
    var i: nat :| 0 <= i < |d.childList| && d.childList[i] == e.value;
    d.RemoveDirEnt(i);
    DropIsStep(d, isRoot, slots, name, i, d.slots);
  }

  lemma NoneIsStep(d: ODir, isRoot: bool, slots: seq<Slot>, name: seq<Char>)
    requires !Has(Listing(slots), name)
    ensures DirStep(d, isRoot, slots, Drop(name), Result(Success, None), slots)
  {
  }

  lemma DropIsStep(d: ODir, isRoot: bool, slots: seq<Slot>, name: seq<Char>, i: nat, after: seq<Slot>)
    requires i < |Listing(slots)| && Matches(name, Listing(slots)[i]) && Erased(slots, Listing(slots)[i], after)
    requires Listing(after) == Listing(slots)[..i] + Listing(slots)[i + 1..]
    ensures DirStep(d, isRoot, slots, Drop(name), Result(Success, Some(Listing(slots)[i])), after)
  {
    hide Listing, Matches, Erased;
    assert Inserted(Listing(after), i, Listing(slots)[i], Listing(slots));
  }

  /** How a run ends: after its last call; with a new entry that is mistaken for one with a
      long name; or in a search for a short name that does not end. */
  datatype End = Through | Lost(e: DirEnt) | Endless

  /** Every run is one of an ordered list, whatever the size of the directory. */
  method RunAll(d: ODir, isRoot: bool, ops: seq<Op>)
      returns (results: seq<Result>, ghost states: seq<seq<Slot>>, end: End)
    requires d.Ready() && forall k :: 0 <= k < |ops| ==> OpOk(ops[k])
    modifies d
    ensures |results| <= |ops| && ListRun(d, isRoot, states, ops[..|results|], results) && states[0] == old(d.slots)
    ensures end.Through? ==> |results| == |ops| && d.Ready() && states[|ops|] == d.slots
    ensures !end.Through? ==> |results| < |ops| && ops[|results|].Make?
    ensures end.Endless? ==>
      d.Ready() && states[|results|] == d.slots && Stuck(Listing(d.slots), d.crc, ops[|results|].name)
    ensures end.Lost? ==> d.Written(states[|results|], d.slots, end.e) && Mistaken(d.slots, end.e)
  {
    hide Listing, DirStep, Mistaken, ODir.Ready, OpOk, Stuck;
    results, states := [], [d.slots];
    var k := 0;
    while k < |ops|
      invariant 0 <= k <= |ops| && d.Ready() && ListRun(d, isRoot, states, ops[..k], results)
      invariant states[0] == old(d.slots) && states[k] == d.slots
    {
      if ops[k].Make? && Stuck(Listing(d.slots), d.crc, ops[k].name) {
        return results, states, Endless;
      }
      var r, ok := Call(d, isRoot, ops[k]);
      if !ok {
        return results, states, Lost(r.e.value);
      }
      RunMore(d, isRoot, states, ops[..k], results, ops[k], r, d.slots);
      assert ops[..k + 1] == ops[..k] + [ops[k]];
      results, states := results + [r], states + [d.slots];
      k := k + 1;
    }
    assert ops[..k] == ops;
    end := Through;
  }
}

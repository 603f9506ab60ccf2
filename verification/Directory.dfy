/** An open directory: the entries loaded so far, the cursor all its handles share, the hash
    tables, and creating and removing entries. */
module Directory {
  import opened Bytes
  import opened FatTypes
  import opened FatNames
  import opened DirSlots
  import opened DirScan
  import opened DirHash
  import opened DirChange
  import opened DirPlace

  /** FAT_MAX_DIRENTRY_COUNT, and SIZE_OF_EFI_FILE_INFO. */
  const MAX_ENTRIES: nat := 0xFFFF
  const FILE_INFO: nat := 80

  /** Where a scan of the directory from slot `n` on stops. */
  function EndFrom(slots: seq<Slot>, n: nat): (r: nat)
    requires n <= |slots|
    ensures n <= r <= |slots| && AtEnd(slots, r) && forall i :: n <= i < r ==> !Ends(slots[i])
    decreases |slots| - n
  {
    if AtEnd(slots, n) then n else EndFrom(slots, n + 1)
  }

  predicate AtEnd(slots: seq<Slot>, n: nat)
    requires n <= |slots|
  {
    n == |slots| || Ends(slots[n])
  }

  /** The entries of the directory, found by a linear scan of all of it. */
  function Listing(slots: seq<Slot>): seq<DirEnt> {
    Between(slots, 0, EndFrom(slots, 0))
  }

  lemma EndIs(slots: seq<Slot>, n: nat)
    requires n <= |slots| && NoEnds(slots, n)
    ensures n <= EndFrom(slots, 0) && (AtEnd(slots, n) ==> n == EndFrom(slots, 0))
  {
    assert AtEnd(slots, EndFrom(slots, 0));
  }

  /** `after` is `list` with `e` as its entry number `i`. */
  predicate Inserted(list: seq<DirEnt>, i: nat, e: DirEnt, after: seq<DirEnt>) {
    i <= |list| && after == list[..i] + [e] + list[i..]
  }

  /** What has been loaded is the first part of the directory, the unloaded entries follow. */
  lemma LoadedIsPrefix(slots: seq<Slot>, n: nat)
    requires n <= |slots| && NoEnds(slots, n)
    ensures Ordered(Listing(slots)) && Between(slots, 0, n) <= Listing(slots)
      && |Between(slots, 0, n)| <= |Listing(slots)|
    ensures AtEnd(slots, n) ==> Between(slots, 0, n) == Listing(slots)
  {
    hide Between;
    EndIs(slots, n);
    BetweenSplit(slots, 0, n, EndFrom(slots, 0));
    ScanIsOrdered(slots, EndFrom(slots, 0));
  }

  /** `e` is the first entry of `list` at or behind slot `p`. */
  ghost predicate IsNext(list: seq<DirEnt>, p: nat, e: Option<DirEnt>) {
    match e
    case None => forall i :: 0 <= i < |list| ==> list[i].pos < p
    case Some(d) => d in list && p <= d.pos && forall i :: 0 <= i < |list| && list[i].pos >= p ==> d.pos <= list[i].pos
  }

  /** The label FatFirstFitInsertDirEnt looks out for; 0 when there is none. */
  function LabelPos(slots: seq<Slot>, isRoot: bool): nat {
    if isRoot && LabelFrom(slots, 0).Some? then LabelFrom(slots, 0).value else 0
  }

  /** Slot and list position that FatNewEntryPos finds with the children `list` and the end
      of the directory at `end`. */
  function PlaceFor(slots: seq<Slot>, isFixedRoot: bool, list: seq<DirEnt>, end: nat, count: nat, room: bool,
      isRoot: bool):
      Option<(nat, nat)>
    requires count > 0
  {
    var newEndPos := end + count;
    if newEndPos <= |slots| then Some((newEndPos - 1, |list|))
    else if newEndPos >= (if isFixedRoot then |slots| else MAX_ENTRIES) then
      FitFrom(list, count, LabelPos(slots, isRoot), end, 0)
    else if room then Some((newEndPos - 1, |list|))
    else None
  }

  /** Where a new entry of that name goes, once the whole directory is loaded. */
  function Place(slots: seq<Slot>, isFixedRoot: bool, name: seq<Char>, room: bool, isRoot: bool): Option<(nat, nat)> {
    PlaceFor(slots, isFixedRoot, Listing(slots), EndFrom(slots, 0), SlotCount(name), room, isRoot)
  }

  /** FAT_ODIR with the directory it belongs to. */
  class ODir {
    const isFixedRoot: bool
    const slotsPerCluster: nat
    const crc: seq<int> -> nat
    var slots: seq<Slot>
    var childList: seq<DirEnt>
    var currentEndPos: nat
    var endOfDir: bool
    var cursor: nat // children up to and including the one CurrentCursor points to; 0 is the list head
    var currentPos: nat
    var longTable: Table
    var shortTable: Table

    constructor (isFixedRoot: bool, slotsPerCluster: nat, crc: seq<int> -> nat, slots: seq<Slot>)
      requires |slots| <= 0x1_0000
      ensures Loaded() && CursorOk() && Hashed() && childList == [] && !endOfDir
      ensures this.slots == slots && this.isFixedRoot == isFixedRoot && this.slotsPerCluster == slotsPerCluster
    {
      this.isFixedRoot, this.slotsPerCluster, this.crc, this.slots := isFixedRoot, slotsPerCluster, crc, slots;
      childList, currentEndPos, endOfDir, cursor, currentPos := [], 0, false, 0, 0;
      longTable, shortTable := EmptyTable(), EmptyTable();
      new;
      EmptyIndexes(Long, crc);
      EmptyIndexes(Short, crc);
    }

    /** The child list is what a scan up to CurrentEndPos finds; slot positions have 16 bits. */
    ghost predicate Loaded()
      reads this`slots, this`childList, this`currentEndPos, this`endOfDir
    {
      && |slots| <= 0x1_0000 && currentEndPos <= |slots| && childList == Between(slots, 0, currentEndPos)
      && NoEnds(slots, currentEndPos) && (endOfDir ==> AtEnd(slots, currentEndPos))
    }

    /** The entries up to the cursor lie before CurrentPos. */
    ghost predicate CursorOk()
      reads this`childList, this`cursor, this`currentPos
    {
      cursor <= |childList| && forall i :: 0 <= i < cursor ==> childList[i].pos < currentPos
    }

    /** Both hash tables hold exactly the child list. */
    ghost predicate Hashed()
      reads this`childList, this`longTable, this`shortTable
    {
      Indexes(Long, crc, longTable, childList) && Indexes(Short, crc, shortTable, childList)
    }

    /** FatLoadNextDirEnt. */
    method LoadNext() returns (e: Option<DirEnt>)
      requires Loaded() && Hashed() && !endOfDir
      modifies this`childList, this`currentEndPos, this`endOfDir, this`longTable, this`shortTable
      ensures Loaded() && Hashed()
      ensures e.None? ==> childList == old(childList) && endOfDir
      ensures e.Some? ==> childList == old(childList) + [e.value] && !endOfDir && old(currentEndPos) < currentEndPos
    {
      hide Load, Live, Ends, Skipped, Indexes, EmptyTable, Insert;
      while currentEndPos < |slots| && Skipped(slots[currentEndPos])
        invariant Loaded() && !endOfDir && childList == old(childList) && old(currentEndPos) <= currentEndPos
        modifies this`currentEndPos
        decreases |slots| - currentEndPos
      {
        SkippedIsNothing(slots[currentEndPos]);
        currentEndPos := currentEndPos + 1;
      }
      if currentEndPos < |slots| && slots[currentEndPos][0] != 0 {
        LiveIsEntry(slots[currentEndPos]);
        var d := Load(slots, currentEndPos);
        NotYetListed(slots, currentEndPos);
        AddChild(|childList|, d);
        currentEndPos := currentEndPos + 1;
        return Some(d);
      }
      if currentEndPos < |slots| {
        LiveIsEntry(slots[currentEndPos]);
      }
      endOfDir := true;
      return None;
    }

    /** FatAddDirEnt, before the `i`-th child. */
    method AddChild(i: nat, e: DirEnt)
      requires Hashed() && i <= |childList| && e !in childList
      modifies this`childList, this`longTable, this`shortTable
      ensures childList == old(childList)[..i] + [e] + old(childList)[i..] && Hashed()
    {
      InsertIndexes(Long, crc, longTable, childList, i, e);
      InsertIndexes(Short, crc, shortTable, childList, i, e);
      hide Indexes, Insert;
      childList := childList[..i] + [e] + childList[i..];
      shortTable := Insert(Short, crc, shortTable, e);
      longTable := Insert(Long, crc, longTable, e);
    }

    /** FatResetODirCursor. */
    method ResetCursor()
      requires Loaded() && CursorOk()
      modifies this`cursor, this`currentPos
      ensures CursorOk() && cursor == 0 && currentPos == 0
    {
      cursor, currentPos := 0, 0;
    }

    /** FatGetNextDirEnt: move the cursor to the next child, loading one when it was at the
        last. */
    method GetNext() returns (e: Option<DirEnt>)
      requires Loaded() && CursorOk() && Hashed()
      modifies this`childList, this`currentEndPos, this`endOfDir, this`longTable, this`shortTable, this`cursor
      modifies this`currentPos
      ensures Loaded() && CursorOk() && Hashed() && old(childList) <= childList
      ensures e.None? ==> cursor == old(cursor) == |childList| && endOfDir && currentPos == currentEndPos
      ensures e.Some? ==> cursor == old(cursor) + 1 && childList[cursor - 1] == e.value && currentPos == e.value.pos + 1
    {
      hide Load, Live, Ends, Between, Indexes;
      if cursor == |childList| && !endOfDir {
        var _ := LoadNext();
      }
      ScanIsOrdered(slots, currentEndPos);
      if cursor == |childList| {
        currentPos := currentEndPos;
        return None;
      }
      cursor := cursor + 1;
      currentPos := childList[cursor - 1].pos + 1;
      return Some(childList[cursor - 1]);
    }

    /** FatIFileReadDir for a handle at byte `position` with a buffer of `bufferSize` bytes:
        the entry, the size it needs, and the handle's new position. */
    method ReadDir(position: nat, bufferSize: nat)
        returns (status: Status, e: Option<DirEnt>, size: nat, newPosition: nat)
      requires Loaded() && CursorOk() && Hashed()
      modifies this`childList, this`currentEndPos, this`endOfDir, this`longTable, this`shortTable, this`cursor
      modifies this`currentPos
      ensures Loaded() && CursorOk() && Hashed() && (old(Ready()) ==> Ready())
      ensures IsNext(Listing(slots), position / 32, e)
      ensures e.None? ==> status == Success && size == 0 && newPosition == 32 * EndFrom(slots, 0)
      ensures e.Some? ==>
        && size == FILE_INFO + 2 * (|e.value.name| + 1)
        && if size <= bufferSize then status == Success && newPosition == 32 * (e.value.pos + 1)
           else status == BufferTooSmall && newPosition == position
    {
      hide Load, Live, Ends, Between, Indexes, Listing, EndFrom, IsNext;
      var p := position / 32;
      if p < currentPos {
        ResetCursor();
      }
      e := SkipTo(p);
      if e.None? {
        return Success, None, 0, 32 * currentPos;
      }
      size := FILE_INFO + 2 * (|e.value.name| + 1);
      if bufferSize < size {
        return BufferTooSmall, e, size, position;
      }
      return Success, e, size, 32 * currentPos;
    }

    /** Its loop: on to the first entry at or behind slot `p`. */
    method SkipTo(p: nat) returns (e: Option<DirEnt>)
      requires Loaded() && CursorOk() && Hashed() && forall i :: 0 <= i < cursor ==> childList[i].pos < p
      modifies this`childList, this`currentEndPos, this`endOfDir, this`longTable, this`shortTable, this`cursor
      modifies this`currentPos
      ensures Loaded() && CursorOk() && Hashed() && IsNext(Listing(slots), p, e)
      ensures currentPos == if e.None? then EndFrom(slots, 0) else e.value.pos + 1
    {
      hide Load, Live, Ends, Between, Indexes, Listing, EndFrom;
      ghost var limit := |Listing(slots)|;
      while true
        invariant Loaded() && CursorOk() && Hashed()
        invariant forall i :: 0 <= i < cursor ==> childList[i].pos < p
        modifies this`childList, this`currentEndPos, this`endOfDir, this`longTable, this`shortTable, this`cursor
        modifies this`currentPos
        decreases limit - cursor
      {
        e := GetNext();
        LoadedIsPrefix(slots, currentEndPos);
        if e.None? {
          EndIs(slots, currentEndPos);
          return;
        }
        if p < currentPos {
          FirstBehind(Listing(slots), cursor - 1, p);
          return;
        }
      }
    }

    /** Handles that all start at the beginning read in any order, `order[k]` being the
        handle that makes the `k`-th read: each gets the entries one after the other. */
    method ReadInterleaved(order: seq<nat>, handles: nat, bufferSize: nat) returns (results: seq<Option<DirEnt>>)
      requires Loaded() && CursorOk() && Hashed() && forall k :: 0 <= k < |order| ==> order[k] < handles
      requires forall e :: e in Listing(slots) ==> FILE_INFO + 2 * (|e.name| + 1) <= bufferSize
      modifies this`childList, this`currentEndPos, this`endOfDir, this`longTable, this`shortTable, this`cursor
      modifies this`currentPos
      ensures Loaded() && CursorOk() && Hashed() && |results| == |order|
      ensures forall k :: 0 <= k < |order| ==> results[k] == Nth(Listing(slots), Turns(order, k, order[k]))
    {
      hide Between, Listing, EndFrom, IsNext, Ordered, Loaded, Hashed, CursorOk, PosAfter, Nth, Turns;
      PosStart(slots, order);
      var positions := seq(handles, _ => 0);
      results := [];
      var k := 0;
      while k < |order|
        invariant 0 <= k <= |order| && |results| == k && |positions| == handles
        invariant Loaded() && CursorOk() && Hashed()
        invariant forall h :: 0 <= h < handles ==> positions[h] == 32 * PosAfter(slots, Turns(order, k, h))
        invariant forall i :: 0 <= i < k ==> results[i] == Nth(Listing(slots), Turns(order, i, order[i]))
      {
        var h := order[k];
        var status, e, size, newPosition := ReadDir(positions[h], bufferSize);
        NextIsNth(slots, Turns(order, k, h), e);
        TurnStep(order, k);
        positions := positions[h := newPosition];
        results := results + [e];
        k := k + 1;
      }
    }

    /** FatSearchODir: first the hash tables, then the part not loaded yet. */
    method SearchODir(name: seq<Char>) returns (found: Option<DirEnt>)
      requires Loaded() && CursorOk() && Hashed()
      modifies this`childList, this`currentEndPos, this`endOfDir, this`longTable, this`shortTable
      ensures Loaded() && CursorOk() && Hashed() && old(childList) <= childList && (old(Ready()) ==> Ready())
      ensures found.Some? ==> found.value in childList && found.value in Listing(slots) && Matches(name, found.value)
      ensures found.None? <==> forall e :: e in Listing(slots) ==> !Matches(name, e)
      ensures found.None? ==> endOfDir && childList == Listing(slots)
    {
      hide Load, Between, Indexes, Listing, EndFrom, Matches, Ordered, Ends;
      LoadedIsPrefix(slots, currentEndPos);
      found := SearchLoaded(name);
      if found.Some? {
        return;
      }
      while !endOfDir
        invariant Loaded() && CursorOk() && Hashed() && old(childList) <= childList
        invariant forall e :: e in childList ==> !Matches(name, e)
        modifies this`childList, this`currentEndPos, this`endOfDir, this`longTable, this`shortTable
        decreases |slots| - currentEndPos, !endOfDir
      {
        found := LoadNext();
        if found.Some? {
          assert childList[|childList| - 1] == found.value;
          if Matches(name, found.value) {
            LoadedIsPrefix(slots, currentEndPos);
            return;
          }
        }
      }
      found := None;
      LoadedIsPrefix(slots, currentEndPos);
    }

    /** The first part of FatSearchODir. */
    method SearchLoaded(name: seq<Char>) returns (found: Option<DirEnt>)
      requires Hashed()
      ensures found.Some? ==> found.value in childList && Matches(name, found.value)
      ensures found.None? <==> forall e :: e in childList ==> !Matches(name, e)
    {
      hide Indexes, Matches, Search, Key, UpperAll, ShortBytes;
      SearchFinds(Long, crc, longTable, childList, UpperAll(name));
      SearchFinds(Short, crc, shortTable, childList, ShortBytes(name));
      MatchesKeys(name, childList);
      found := HashSearch(Long, longTable, UpperAll(name));
      if found.None? && Is8Dot3(name) {
        found := HashSearch(Short, shortTable, ShortBytes(name));
      }
    }

    /** FatLongNameHashSearch and FatShortNameHashSearch. */
    method HashSearch(w: Which, table: Table, key: seq<int>) returns (e: Option<DirEnt>)
      requires |table| == TABLE_SIZE
      ensures var chain := table[Hash(crc, key)];
        var i := Search(w, chain, key);
        e == if i < |chain| then Some(chain[i]) else None
    {
      var chain := table[Hash(crc, key)];
      var i := 0;
      while i < |chain| && Key(w, chain[i]) != key
        invariant i <= |chain| && Search(w, chain, key) == i + Search(w, chain[i..], key)
      {
        assert chain[i..][1..] == chain[i + 1..];
        i := i + 1;
      }
      e := if i < |chain| then Some(chain[i]) else None;
    }

    /** A short name that no entry has. */
    ghost predicate Free(short: seq<Byte>)
      reads this`childList
    {
      forall e :: e in childList ==> ShortName(e.entry) != short
    }

    method IsTaken(short: seq<Byte>) returns (taken: bool)
      requires Hashed()
      ensures taken <==> !Free(short)
      ensures taken <==> IsHeld(childList, short)
    {
      hide Indexes, Search;
      SearchFinds(Short, crc, shortTable, childList, short);
      var e := HashSearch(Short, shortTable, short);
      taken := e.Some?;
    }

    /** FatCreate8Dot3Name: the first candidate that no entry has. */
    method CreateShortName(base: seq<Byte>, name: seq<Char>, ghost last: nat) returns (short: seq<Byte>, ghost k: nat)
      requires Hashed() && |base| == 11 && Free(Candidate(crc(name), base, last))
      ensures k <= last && short == Candidate(crc(name), base, k) && Free(short)
      ensures forall j :: 0 <= j < k ==> !Free(Candidate(crc(name), base, j))
      ensures IsFirstFree(childList, crc(name), base, k)
    {
      hide Indexes, Candidate, CounterAt, IsHeld;
      var at: nat, retry := 0, 0;
      k := 0;
      short, at := FirstCandidate(base, crc(name));
      var taken := IsTaken(short);
      while taken
        invariant retry == k <= last && short == Candidate(crc(name), base, k) && at == CounterAt(base, k)
        invariant taken <==> !Free(short)
        invariant taken <==> IsHeld(childList, short)
        invariant forall j :: 0 <= j < k ==> !Free(Candidate(crc(name), base, j))
        invariant forall j: nat :: j < k ==> IsHeld(childList, Candidate(crc(name), base, j))
        decreases last - k
      {
        short, at := NextCandidate(base, crc(name), short, at, retry);
        retry := retry + 1;
        k := k + 1;
        taken := IsTaken(short);
      }
    }

    /** The size of the directory file stays within 16-bit slot positions. */
    ghost predicate SizeOk()
      reads this`slots
    {
      && |slots| <= 0x1_0000
      && (!isFixedRoot ==>
        MAX_LFN + 1 <= slotsPerCluster && Rest(|slots|, slotsPerCluster) == 0 && Rest(0x1_0000, slotsPerCluster) == 0)
    }

    /** FatSetEntryCount: the entry's slots, short name and case flag.  `last` is the number
        of a candidate that is free. */
    method SetEntryCount(name: seq<Char>, attr: Byte, info: seq<Byte>, ghost last: nat)
        returns (count: nat, entry: Slot)
      requires Hashed() && ValidName(name) && (attr / 8) % 2 == 0 && |info| == 19
      requires (Is8Dot3(name) || Free(Candidate(crc(name), ShortBytes(name), last)))
        && forall e :: e in childList ==> !Matches(name, e)
      ensures Free(ShortName(entry)) && Attributes(entry) == attr && entry[13..] == info
      ensures count == SlotCount(name) && entry == NewEntry(name, attr, info, ShortName(entry))
      ensures NewName(childList, crc(name), name, ShortName(entry))
      ensures 0 < count <= MAX_LFN + 1
        && forall pos: nat :: pos + 1 >= count ==> Storable(DirEnt(pos, count, name, entry))
    {
      hide Indexes, Candidate, Storable, Matches, Is8Dot3, CaseFlag, ValidName, IsHeld;
      count := 1;
      var short := ShortBytes(name);
      var flag: Byte := 0;
      if Is8Dot3(name) {
        ShortIsFree(name, childList);
        match CaseFlag(name)
        case Some(f) => flag := f;
        case None => count := count + 1;
      } else {
        ghost var k;
        short, k := CreateShortName(short, name, last);
        ShortBytesAreNames(name);
        CandidateIsName(crc(name), ShortBytes(name), k);
        count := (|name| + LFN_CHARS - 1) / LFN_CHARS + count;
      }
      entry := EntrySlot(short, attr, flag, info);
      NewIsStorable(name, short, attr, flag, info, count);
    }

    /** The place is in a gap between children and, in front of a child, clear of the label. */
    ghost predicate GoodGap(count: nat, pos: nat, index: nat, isRoot: bool)
      reads this`slots, this`childList, this`currentEndPos
    {
      && pos < currentEndPos && index <= |childList| && count <= pos
      && (forall e: DirEnt :: e.pos == pos && e.count == count ==> InGap(childList, index, e))
      && (isRoot && index < |childList| && LabelFrom(slots, 0).Some? ==>
        !(pos - count < LabelFrom(slots, 0).value <= pos))
    }

    /** FatFirstFitInsertDirEnt. */
    method InsertByFirstFit(count: nat, isRoot: bool) returns (status: Status, pos: nat, index: nat)
      requires Loaded() && 0 < count
      ensures var fit := FitFrom(childList, count, LabelPos(slots, isRoot), currentEndPos, 0);
        if fit.None? then status == VolumeFull else status == Success && fit == Some((pos, index))
      ensures status == Success ==> GoodGap(count, pos, index, isRoot)
    {
      hide Between, Load, Ends, IsLabel, LabelFrom, FitFrom, InGap;
      var labelPos := 0;
      if isRoot {
        var found := SeekVolumeId(slots);
        if found.Some? {
          labelPos := found.value;
        }
      }
      var place := FirstFit(childList, count, labelPos, currentEndPos);
      if place.None? {
        return VolumeFull, 0, 0;
      }
      ScanIsOrdered(slots, currentEndPos);
      FitGap(childList, count, labelPos, currentEndPos);
      return Success, place.value.0, place.value.1;
    }

    /** FatNewEntryPos, for an entry of `count` slots: behind all others, in a new cluster if
        need be, or else the first fit; `room` tells whether the volume has a free cluster. */
    method NewEntryPos(count: nat, room: bool, isRoot: bool) returns (status: Status, pos: nat, index: nat)
      requires Loaded() && SizeOk() && 0 < count <= MAX_LFN + 1
      modifies this`slots, this`currentEndPos
      ensures status == Success || (status == VolumeFull && slots == old(slots) && currentEndPos == old(currentEndPos))
      ensures var newEndPos := old(currentEndPos) + count;
        if newEndPos <= |old(slots)| then status == Success && slots == old(slots) && currentEndPos == newEndPos
        else if newEndPos >= (if isFixedRoot then |old(slots)| else 0xFFFF) then
          && slots == old(slots) && currentEndPos == old(currentEndPos)
          && var fit := FitFrom(childList, count, LabelPos(slots, isRoot), currentEndPos, 0);
             if fit.None? then status == VolumeFull else status == Success && fit == Some((pos, index))
        else if room then status == Success && slots == old(slots) + ZeroSlots(slotsPerCluster)
            && currentEndPos == newEndPos
        else status == VolumeFull
      ensures var place := PlaceFor(old(slots), isFixedRoot, old(childList), old(currentEndPos), count, room, isRoot);
        if place.None? then status == VolumeFull else status == Success && place == Some((pos, index))
      ensures SizeOk() && (slots == old(slots) || slots == old(slots) + ZeroSlots(slotsPerCluster))
      ensures status == Success ==>
        if currentEndPos == old(currentEndPos) then slots == old(slots) && GoodGap(count, pos, index, isRoot)
        else currentEndPos == old(currentEndPos) + count <= |slots| && pos == currentEndPos - 1 && index == |childList|
    {
      hide Between, Load, Ends, LabelFrom, InGap, Rest, GoodGap;
      var newEndPos := currentEndPos + count;
      if newEndPos > |slots| {
        if newEndPos >= (if isFixedRoot then |slots| else MAX_ENTRIES) {
          status, pos, index := InsertByFirstFit(count, isRoot);
          if status == Success {
            GapBelow(count, pos, index, isRoot);
            pos := pos % 0x1_0000;
          }
          return;
        }
        if !room {
          return VolumeFull, 0, 0;
        }
        OneClusterMore(|slots|, slotsPerCluster, 0x1_0000);
        slots := slots + ZeroSlots(slotsPerCluster);
      }
      currentEndPos := newEndPos;
      return Success, (currentEndPos - 1) % 0x1_0000, |childList|;
    }

    lemma GapBelow(count: nat, pos: nat, index: nat, isRoot: bool)
      requires GoodGap(count, pos, index, isRoot)
      ensures pos < currentEndPos
    {
    }

    /** The new entry is in its slots and the others are as before, though the directory may
        have got a cluster more; it is read back exactly if it is not mistaken. */
    ghost predicate Written(before: seq<Slot>, after: seq<Slot>, e: DirEnt) {
      && (|after| == |before| || |after| == |before| + slotsPerCluster) && 0 <= e.First() && e.pos < |after|
      && (forall q :: 0 <= q < |after| && !(e.First() <= q <= e.pos) ==>
            after[q] == if q < |before| then before[q] else ZeroSlot())
      && (forall q :: e.First() <= q <= e.pos ==> after[q] == SlotOf(e, false, e.pos - q))
      && (Load(after, e.pos) == e <==> !Mistaken(after, e))
    }

    lemma StoredIsWritten(before: seq<Slot>, grown: seq<Slot>, e: DirEnt)
      requires grown == before || grown == before + ZeroSlots(slotsPerCluster)
      requires e.pos < |grown| && Storable(e)
      ensures Written(before, Stored(grown, e, false), e)
    {
      hide Load, Storable, Continues, CheckSum;
      StorableFacts(e);
      StoreLoad(grown, e);
      var r := Stored(grown, e, false);
      assert e.count == 1 && e.pos > 0 ==> r[e.pos - 1] == grown[e.pos - 1];
      hide SlotOf, Mistaken;
      assert forall q :: 0 <= q < |r| && !(e.First() <= q <= e.pos) ==> r[q] == grown[q];
      assert forall q :: e.First() <= q <= e.pos ==> r[q] == SlotOf(e, false, e.pos - q);
    }

    /** What every call keeps: the list and the tables agree with the slots, names are
        unique, and only end marks follow the end of the directory. */
    ghost predicate Ready()
      reads this
    {
      Loaded() && CursorOk() && Hashed() && SizeOk() && Unique(Listing(slots)) && Tidy(slots)
    }

    /** FatCreateDirEnt, after a search that found nothing.  The directory then holds one
        entry more, also for a scan of its slots, unless the new entry is mistaken for one
        with a long name. */
    method CreateDirEnt(name: seq<Char>, attr: Byte, info: seq<Byte>, room: bool, isRoot: bool, ghost last: nat)
      returns (status: Status, e: Option<DirEnt>, index: nat)
      requires Ready() && endOfDir && ValidName(name) && (attr / 8) % 2 == 0 && |info| == 19
      requires (Is8Dot3(name) || Free(Candidate(crc(name), ShortBytes(name), last)))
        && forall d :: d in childList ==> !Matches(name, d)
      modifies this
      ensures CursorOk() && Hashed() && SizeOk() && endOfDir
      ensures status == Success || status == VolumeFull
      ensures status == VolumeFull ==> e.None? && childList == old(childList) && slots == old(slots) && Ready()
      ensures status == Success ==>
        && e.Some? && e.value.name == name && Attributes(e.value.entry) == attr && e.value.entry[13..] == info
          && index <= |old(childList)|
        && childList == old(childList)[..index] + [e.value] + old(childList)[index..]
        && e.value.pos < |slots| && Storable(e.value) && (!Mistaken(slots, e.value) ==> Ready())
        && Written(old(slots), slots, e.value)
        && e.value.entry == NewEntry(name, attr, info, ShortName(e.value.entry))
        && NewName(old(childList), crc(name), name, ShortName(e.value.entry))
      ensures var place := PlaceFor(old(slots), isFixedRoot, old(childList), old(currentEndPos), SlotCount(name),
        room, isRoot);
        if place.None? then status == VolumeFull
        else status == Success && e.value.count == SlotCount(name) && place == Some((e.value.pos, index))
      ensures cursor == old(cursor) + if status == Success && index < old(cursor) then 1 else 0
    {
      hide Between, Load, Indexes, Unique, Clean, Storable, Matches, Candidate, Mistaken, GoodGap, ValidName;
      hide NoEnds, Rest, Stored, InGap, ShortName, AtEnd, Key, Free, Listing, Tidy, FitFrom, SlotCount, NewEntry;
      hide NewName;
      hide PlaceFor, ODir.Written;
      e, index := None, 0;
      LoadedParts(slots, currentEndPos);
      var count, entry := SetEntryCount(name, attr, info, last);
      ghost var n, before := currentEndPos, slots;
      var pos: nat;
      status, pos, index := NewEntryPos(count, room, isRoot);
      if status != Success {
        return;
      }
      var d := DirEnt(pos, count, name, entry);
      KeysAreNew(name, childList, d);
      if currentEndPos == n {
        GapOf(d, index, isRoot);
      }
      Placed(before, slots, slotsPerCluster, n, currentEndPos, index, d);
      StoredIsWritten(before, slots, d);
      Commit(d, index);
      if !Mistaken(slots, d) {
        WholeIs(slots, currentEndPos, childList);
      }
      e := Some(d);
    }

    /** FatAddDirEnt and FatStoreDirEnt for the entry at its place; the cursor stays on the
        child it points to. */
    method Commit(d: DirEnt, index: nat)
      requires Hashed() && CursorOk() && Unique(childList) && index <= |childList| && d !in childList
      requires d.pos < |slots| && 0 < d.count && 0 <= d.First()
        && (index < |childList| ==> d.pos < childList[index].pos)
      requires forall x :: x in childList ==> Key(Long, x) != Key(Long, d) && Key(Short, x) != Key(Short, d)
      modifies this`childList, this`longTable, this`shortTable, this`slots, this`cursor
      ensures Hashed() && CursorOk() && Unique(childList) && slots == Stored(old(slots), d, false)
      ensures childList == old(childList)[..index] + [d] + old(childList)[index..]
      ensures cursor == old(cursor) + if index < old(cursor) then 1 else 0
    {
      hide Indexes, Unique, Stored, Key;
      UniqueInsert(childList, index, d);
      CursorKept(childList, index, d, cursor, currentPos);
      AddChild(index, d);
      slots := Store(slots, d, false);
      if index < cursor {
        cursor := cursor + 1;
      }
    }

    /** The last step of FatOFileOpen: the entry of that name, or a new one.  Only a new one
        may need a candidate, `last` being one that is free. */
    method OpenOrCreate(name: seq<Char>, attr: Byte, info: seq<Byte>, room: bool, isRoot: bool, ghost last: nat)
      returns (status: Status, e: Option<DirEnt>, ghost index: nat)
      requires Ready() && ValidName(name) && (attr / 8) % 2 == 0 && |info| == 19
      requires Is8Dot3(name) || Has(Listing(slots), name)
        || !IsHeld(Listing(slots), Candidate(crc(name), ShortBytes(name), last))
      modifies this
      ensures CursorOk() && Hashed() && SizeOk()
      ensures Has(old(Listing(slots)), name) ==>
        status == Success && Ready() && slots == old(slots) && e.Some? && e.value in Listing(slots)
            && Matches(name, e.value)
      ensures !Has(old(Listing(slots)), name) ==>
        && (status == if Place(old(slots), isFixedRoot, name, room, isRoot).None? then VolumeFull else Success)
        && if status == Success then
             && e.Some? && e.value.name == name && e.value.pos < |slots| && Written(old(slots), slots, e.value)
             && e.value.count == SlotCount(name)
               && Place(old(slots), isFixedRoot, name, room, isRoot) == Some((e.value.pos, index))
             && e.value.entry == NewEntry(name, attr, info, ShortName(e.value.entry))
             && NewName(old(Listing(slots)), crc(name), name, ShortName(e.value.entry))
             && (!Mistaken(slots, e.value) ==> Ready() && Inserted(old(Listing(slots)), index, e.value, Listing(slots)))
           else e.None? && Ready() && slots == old(slots)
    {
      hide Loaded, CursorOk, Hashed, SizeOk, Unique, Tidy, Listing, Matches, Candidate, Mistaken, ValidName, Is8Dot3;
      hide PlaceFor, NewName, NewEntry, SlotCount, Written;
      index := 0;
      NotHeld(Listing(slots), Candidate(crc(name), ShortBytes(name), last));
      e := SearchODir(name);
      if e.Some? {
        return Success, e, index;
      }
      EndReached();
      var at;
      status, e, at := CreateDirEnt(name, attr, info, room, isRoot, last);
      index := at;
      if status == Success && !Mistaken(slots, e.value) {
        AllListed();
      }
    }

    lemma EndReached()
      requires Loaded() && endOfDir
      ensures childList == Listing(slots) && currentEndPos == EndFrom(slots, 0)
    {
      hide Between;
      LoadedIsPrefix(slots, currentEndPos);
      EndIs(slots, currentEndPos);
    }

    lemma AllListed()
      requires Ready() && endOfDir
      ensures childList == Listing(slots)
    {
      hide Between;
      LoadedIsPrefix(slots, currentEndPos);
    }

    lemma GapOf(d: DirEnt, index: nat, isRoot: bool)
      requires GoodGap(d.count, d.pos, index, isRoot) && Loaded()
      ensures d.count <= d.pos < currentEndPos && InGap(childList, index, d) && index <= |childList|
      ensures index < |childList| ==> d.pos < childList[index].pos
    {
      hide Between;
      ScanIsOrdered(slots, currentEndPos);
    }

    lemma KeysAreNew(name: seq<Char>, list: seq<DirEnt>, d: DirEnt)
      requires list == childList && d.name == name && Free(ShortName(d.entry))
        && forall x :: x in list ==> !Matches(name, x)
      ensures forall x :: x in list ==> Key(Long, x) != Key(Long, d) && Key(Short, x) != Key(Short, d)
    {
      hide Is8Dot3;
    }

    /** FatRemoveDirEnt. */
    method RemoveDirEnt(i: nat)
      requires Ready() && i < |childList|
      modifies this`childList, this`longTable, this`shortTable, this`slots, this`cursor
      ensures Ready() && childList == old(childList)[..i] + old(childList)[i + 1..]
      ensures i < |old(Listing(slots))| && Listing(slots) == old(Listing(slots))[..i] + old(Listing(slots))[i + 1..]
      ensures old(childList)[i] == old(Listing(slots))[i]
      ensures var e := old(childList)[i];
        && |slots| == |old(slots)| && e.pos < |slots| && 0 <= e.First()
        && (forall q :: e.First() <= q <= e.pos ==> Skipped(slots[q]))
        && (forall q :: 0 <= q < |slots| && !(e.First() <= q <= e.pos) ==> slots[q] == old(slots)[q])
      ensures cursor == if i < old(cursor) then old(cursor) - 1 else old(cursor)
    {
      hide Between, Load, Indexes, Unique, Delete, NoEnds, Stored, Key, Skipped, Rest, Ends, Listing, Tidy, AtEnd;
      var e := childList[i];
      LoadedParts(slots, currentEndPos);
      RemoveScan(slots, currentEndPos, i);
      RemovedWhole(slots, currentEndPos, i);
      RemovedSlots(slots, currentEndPos, i);
      DeleteIndexes(Long, crc, longTable, childList, i);
      DeleteIndexes(Short, crc, shortTable, childList, i);
      UniqueRemove(childList, i);
      ScanIsOrdered(slots, currentEndPos);
      if i < cursor {
        cursor := cursor - 1;
      }
      shortTable := Delete(Short, crc, shortTable, e);
      longTable := Delete(Long, crc, longTable, e);
      childList := childList[..i] + childList[i + 1..];
      slots := Store(slots, e.(entry := Gone(e.entry)), true);
    }
  }

  /** A new child in front of the cursor moves it by one. */
  lemma CursorKept(list: seq<DirEnt>, index: nat, d: DirEnt, cursor: nat, currentPos: nat)
    requires index <= |list| && cursor <= |list| && (index < |list| ==> d.pos < list[index].pos)
    requires forall i :: 0 <= i < cursor ==> list[i].pos < currentPos
    ensures var list' := list[..index] + [d] + list[index..];
      forall i :: 0 <= i < (if index < cursor then cursor + 1 else cursor) ==> list'[i].pos < currentPos
  {
    var list' := list[..index] + [d] + list[index..];
    forall i | 0 <= i < (if index < cursor then cursor + 1 else cursor)
      ensures list'[i].pos < currentPos
    {
      assert i < index ==> list'[i] == list[i];
      assert i > index ==> list'[i] == list[i - 1];
    }
  }

  /** Only end marks follow the end of the directory. */
  ghost predicate Tidy(slots: seq<Slot>) {
    Clean(slots, EndFrom(slots, 0))
  }

  /** What holds of the whole directory holds of the part loaded. */
  lemma LoadedParts(slots: seq<Slot>, n: nat)
    requires n <= |slots| && NoEnds(slots, n) && Unique(Listing(slots)) && Tidy(slots)
    ensures Unique(Between(slots, 0, n)) && (AtEnd(slots, n) ==> Clean(slots, n))
  {
    hide Between, Key, Ends;
    LoadedIsPrefix(slots, n);
    EndIs(slots, n);
    var a, b := Between(slots, 0, n), Listing(slots);
    assert forall i :: 0 <= i < |a| ==> a[i] == b[i];
  }

  lemma WholeIs(slots: seq<Slot>, n: nat, list: seq<DirEnt>)
    requires n <= |slots| && NoEnds(slots, n) && AtEnd(slots, n) && Clean(slots, n) && Between(slots, 0, n) == list
      && Unique(list)
    ensures Unique(Listing(slots)) && Tidy(slots)
  {
    hide Between, Key, Unique, Ends;
    EndIs(slots, n);
  }

  /** A removal from the part loaded, as the whole directory sees it. */
  lemma RemovedWhole(slots: seq<Slot>, n: nat, i: nat)
    requires n <= |slots| && NoEnds(slots, n) && i < |Between(slots, 0, n)| && Unique(Listing(slots)) && Tidy(slots)
    ensures var e := Between(slots, 0, n)[i];
      && e.pos < n && 0 < e.count && 0 <= e.First()
      && var r := Stored(slots, e.(entry := Gone(e.entry)), true);
         && Unique(Listing(r)) && Tidy(r) && (AtEnd(slots, n) ==> AtEnd(r, n))
         && i < |Listing(slots)| && Listing(slots)[i] == e
           && Listing(r) == Listing(slots)[..i] + Listing(slots)[i + 1..]
  {
    hide Between, Key, Unique, Ends, Stored, NoEnds;
    LoadedIsPrefix(slots, n);
    EndIs(slots, n);
    var m := EndFrom(slots, 0);
    assert NoEnds(slots, m) by {
      NoEndsBefore(slots);
    }
    assert Between(slots, 0, n)[i] == Between(slots, 0, m)[i];
    RemoveScan(slots, n, i);
    RemoveScan(slots, m, i);
    UniqueRemove(Listing(slots), i);
    var e := Between(slots, 0, n)[i];
    EndIs(Stored(slots, e.(entry := Gone(e.entry)), true), m);
  }

  lemma NoEndsBefore(slots: seq<Slot>)
    ensures NoEnds(slots, EndFrom(slots, 0))
  {
  }

  /** The directory with a new entry, at its end `n'` or in a gap. */
  lemma Placed(slots: seq<Slot>, grown: seq<Slot>, cluster: nat, n: nat, n': nat, i: nat, e: DirEnt)
    requires n <= |slots| && Clean(slots, n) && NoEnds(slots, n) && e.pos < |grown|
      && (e.count <= e.pos + 1 ==> Storable(e))
    requires if n' == n then grown == slots && e.pos < n && InGap(Between(slots, 0, n), i, e)
      else
        && e.pos + 1 == n' == n + e.count && i == |Between(slots, 0, n)|
        && (grown == slots || grown == slots + ZeroSlots(cluster))
    ensures e !in Between(slots, 0, n) && 0 < e.count && 0 <= e.First() && i <= |Between(slots, 0, n)| && n' <= |grown|
    ensures var r := Stored(grown, e, false);
      && NoEnds(r, n') && Clean(r, n') && AtEnd(r, n')
      && (!Mistaken(r, e) ==> Between(r, 0, n') == Between(slots, 0, n)[..i] + [e] + Between(slots, 0, n)[i..])
  {
    hide Between, Storable, Mistaken, Stored, NoEnds, Ends;
    if n' == n {
      InsertPlaced(slots, n, i, e);
    } else {
      AppendPlaced(slots, grown, cluster, n, e);
      assert Between(slots, 0, n)[..i] == Between(slots, 0, n) && Between(slots, 0, n)[i..] == [];
    }
  }

  /** How many slots an entry of that name takes: its own, and one for every 13 characters of
      a name that its short name and case flag do not say. */
  function SlotCount(name: seq<Char>): (n: nat)
    ensures n > 0
  {
    if !Is8Dot3(name) then (|name| + LFN_CHARS - 1) / LFN_CHARS + 1 else if CaseFlag(name).Some? then 1 else 2
  }

  /** The entry proper of a new file with that short name. */
  function NewEntry(name: seq<Char>, attr: Byte, info: seq<Byte>, short: seq<Byte>): Slot
    requires |short| == 11 && |info| == 19
  {
    EntrySlot(short, attr, if Is8Dot3(name) && CaseFlag(name).Some? then CaseFlag(name).value else 0, info)
  }

  /** Its short name: that of an 8.3 name, else the first candidate not held. */
  ghost predicate NewName(list: seq<DirEnt>, crc: nat, name: seq<Char>, short: seq<Byte>) {
    if Is8Dot3(name) then short == ShortBytes(name)
    else exists k: nat :: IsFirstFree(list, crc, ShortBytes(name), k) && short == Candidate(crc, ShortBytes(name), k)
  }

  ghost predicate IsFirstFree(list: seq<DirEnt>, crc: nat, base: seq<Byte>, k: nat)
    requires |base| == 11
  {
    !IsHeld(list, Candidate(crc, base, k)) && forall j: nat :: j < k ==> IsHeld(list, Candidate(crc, base, j))
  }

  /** The 32 bytes of a new entry. */
  function EntrySlot(short: seq<Byte>, attr: Byte, flag: Byte, info: seq<Byte>): (s: Slot)
    requires |short| == 11 && |info| == 19
    ensures ShortName(s) == short && Attributes(s) == attr && s[12] == flag && s[13..] == info
  {
    short + [attr, flag] + info
  }

  /** The name fits its slots exactly, or the short name and the case flag say it. */
  lemma NewIsStorable(name: seq<Char>, short: seq<Byte>, attr: Byte, flag: Byte, info: seq<Byte>, count: nat)
    requires ValidName(name) && |short| == 11 && |info| == 19 && (attr / 8) % 2 == 0
    requires if Is8Dot3(name) then
               short == ShortBytes(name) && if CaseFlag(name).Some? then count == 1 && flag == CaseFlag(name).value
                   else count == 2
             else short[0] != 0 && short[0] != DELETED && count == (|name| + LFN_CHARS - 1) / LFN_CHARS + 1
    ensures 0 < count <= MAX_LFN + 1
    ensures forall pos: nat ::
      pos + 1 >= count ==> Storable(DirEnt(pos, count, name, EntrySlot(short, attr, flag, info)))
  {
    hide Is8Dot3, CaseFlag, ShortBytes, NameViaCaseFlag;
    assert 0 !in name;
    if Is8Dot3(name) {
      ShortBytesAreNames(name);
      ShortIsShort(name);
      if CaseFlag(name).Some? {
        ShortNameRoundTrip(name);
      }
    }
  }

  lemma ShortIsShort(name: seq<Char>)
    requires Is8Dot3(name)
    ensures |name| <= 12
  {
  }

  lemma ShortIsFree(name: seq<Char>, list: seq<DirEnt>)
    requires Is8Dot3(name) && forall e :: e in list ==> !Matches(name, e)
    ensures forall e :: e in list ==> ShortName(e.entry) != ShortBytes(name)
  {
  }

  lemma FitGap(list: seq<DirEnt>, count: nat, labelPos: nat, end: nat)
    requires Ordered(list) && 0 < count && (forall j :: 0 <= j < |list| ==> list[j].pos < end)
    requires FitFrom(list, count, labelPos, end, 0).Some?
    ensures var (pos, k) := FitFrom(list, count, labelPos, end, 0).value;
      && pos < end && k <= |list| && count <= pos
      && (forall e: DirEnt :: e.pos == pos && e.count == count ==> InGap(list, k, e))
      && (k < |list| ==> !(pos - count < labelPos <= pos))
  {
    hide FitFrom, Ordered;
    var (pos, k) := FitFrom(list, count, labelPos, end, 0).value;
    forall e: DirEnt | e.pos == pos && e.count == count
      ensures InGap(list, k, e) && pos < end && e.First() > 0 && (k < |list| ==> !(e.First() <= labelPos <= e.pos))
    {
      FitIsFree(list, count, labelPos, end, 0, e);
    }
    assert DirEnt(pos, count, [], ZeroSlot()).pos == pos;
  }

  /** Another whole cluster stays within a limit of whole clusters. */
  lemma OneClusterMore(size: nat, cluster: nat, limit: nat)
    requires cluster > 0 && Rest(size, cluster) == 0 && Rest(limit, cluster) == 0 && size < limit
    ensures size + cluster <= limit && Rest(size + cluster, cluster) == 0
  {
    hide Start, Unit, Rest;
    var a, b := Unit(size, cluster), Unit(limit, cluster);
    StartMono(b, a, cluster);
    StartMono(a, b, cluster);
    StartStep(a, cluster);
    UnitOfStart(a + 1, cluster);
  }

  /** Where the counting character of the `k`-th candidate is. */
  function CounterAt(base: seq<Byte>, k: nat): nat
    requires |base| == 11
  {
    if k < SPEC_RETRY then BaseTagLen(base, 6) + 1 else BaseTagLen(base, 2) + 5
  }

  method FirstCandidate(base: seq<Byte>, crc: nat) returns (short: seq<Byte>, at: nat)
    requires |base| == 11
    ensures short == Candidate(crc, base, 0) && at == CounterAt(base, 0)
  {
    hide Trimmed, HashTag;
    var tag := BaseTagLen(base, 6);
    short := base[tag := TILDE][tag + 1 := 0x31];
    at := tag + 1;
  }

  /** One round of the loop of FatCreate8Dot3Name: count up, and after the fourth try put
      the checksum into the name and count from 1 again. */
  method NextCandidate(base: seq<Byte>, crc: nat, short: seq<Byte>, at: nat, retry: nat)
      returns (short': seq<Byte>, at': nat)
    requires |base| == 11 && short == Candidate(crc, base, retry) && at == CounterAt(base, retry)
    ensures short' == Candidate(crc, base, retry + 1) && at' == CounterAt(base, retry + 1)
  {
    hide Trimmed, HashTag, BaseTagLen;
    var c: int := short[at];
    short', at' := short[at := (c + 1) % 0x100], at;
    if retry + 1 == SPEC_RETRY {
      var tag := BaseTagLen(base, 2);
      TagLens(base);
      HashOverwrites(base, short', BaseTagLen(base, 6), tag, HashTag(crc));
      short' := Splice(short', tag, HashTag(crc));
      short' := Splice(short', tag + 4, [TILDE, 0x31]);
      at' := tag + 5;
    } else if retry + 1 < SPEC_RETRY {
      assert short' == Candidate(crc, base, retry + 1);
    } else {
      assert short' == Candidate(crc, base, retry + 1);
    }
  }

  lemma TagLens(base: seq<Byte>)
    requires |base| == 11
    ensures BaseTagLen(base, 2) <= BaseTagLen(base, 6) <= 6
      && (BaseTagLen(base, 2) < 2 ==> BaseTagLen(base, 6) == BaseTagLen(base, 2))
  {
  }

  lemma HashOverwrites(base: seq<Byte>, s: seq<Byte>, t: nat, u: nat, h: seq<Byte>)
    requires |base| == |s| == 11 && |h| == 4 && u <= t <= 6 && u <= 2 && (u < 2 ==> t == u)
    requires forall i :: 0 <= i < 11 && i != t && i != t + 1 ==> s[i] == base[i]
    ensures Splice(Splice(s, u, h), u + 4, [TILDE, 0x31]) == Splice(base, u, h + [TILDE, 0x31])
  {
    SplicePlus(s, u, h, [TILDE, 0x31]);
  }

  lemma SkippedIsNothing(s: Slot)
    requires Skipped(s)
    ensures !Live(s) && !Ends(s)
  {
  }

  lemma LiveIsEntry(s: Slot)
    requires !Skipped(s)
    ensures Live(s) <==> s[0] != 0
    ensures Ends(s) <==> s[0] == 0
  {
  }

  lemma NotYetListed(slots: seq<Slot>, n: nat)
    requires n < |slots|
    ensures Load(slots, n) !in Between(slots, 0, n)
  {
    hide Load, Between;
    BetweenIs(slots, 0, n);
  }

  lemma FirstBehind(list: seq<DirEnt>, i: nat, p: nat)
    requires Ordered(list) && i < |list| && p <= list[i].pos && forall j :: 0 <= j < i ==> list[j].pos < p
    ensures IsNext(list, p, Some(list[i]))
  {
  }

  function Nth(list: seq<DirEnt>, j: nat): Option<DirEnt> {
    if j < |list| then Some(list[j]) else None
  }

  /** How often handle `h` has read in the first `k` reads. */
  function Turns(order: seq<nat>, k: nat, h: nat): nat
    requires k <= |order|
  {
    if k == 0 then 0 else Turns(order, k - 1, h) + if order[k - 1] == h then 1 else 0
  }

  /** Where a handle stands after `j` reads. */
  function PosAfter(slots: seq<Slot>, j: nat): nat {
    if j == 0 then 0 else if j <= |Listing(slots)| then Listing(slots)[j - 1].pos + 1 else EndFrom(slots, 0)
  }

  lemma TurnStep(order: seq<nat>, k: nat)
    requires k < |order|
    ensures forall h {:trigger Turns(order, k + 1, h)} ::
      Turns(order, k + 1, h) == Turns(order, k, h) + if order[k] == h then 1 else 0
  {
  }

  lemma PosStart(slots: seq<Slot>, order: seq<nat>)
    ensures PosAfter(slots, 0) == 0 && forall h :: Turns(order, 0, h) == 0
  {
  }

  lemma NextIsNth(slots: seq<Slot>, j: nat, e: Option<DirEnt>)
    requires IsNext(Listing(slots), PosAfter(slots, j), e)
    ensures e == Nth(Listing(slots), j) && (e.Some? ==> e.value in Listing(slots))
    ensures PosAfter(slots, j + 1) == if e.Some? then e.value.pos + 1 else EndFrom(slots, 0)
  {
    hide Between;
    ScanIsOrdered(slots, EndFrom(slots, 0));
    var list := Listing(slots);
    hide Listing;
    if j < |list| {
      assert list[j].pos >= PosAfter(slots, j);
    }
  }

  /** The entry has that name but for case, or, for an 8.3 name, that short name. */
  predicate Matches(name: seq<Char>, e: DirEnt) {
    SameName(name, e.name) || (Is8Dot3(name) && ShortBytes(name) == ShortName(e.entry))
  }

  lemma MatchesKeys(name: seq<Char>, list: seq<DirEnt>)
    ensures forall e ::
      e in list ==> (Matches(name, e) <==>
      Key(Long, e) == UpperAll(name) || (Is8Dot3(name) && Key(Short, e) == ShortBytes(name)))
  {
  }

  predicate IsHeld(list: seq<DirEnt>, short: seq<Byte>) {
    exists e :: e in list && ShortName(e.entry) == short
  }

  lemma NotHeld(list: seq<DirEnt>, short: seq<Byte>)
    ensures !IsHeld(list, short) <==> forall e :: e in list ==> ShortName(e.entry) != short
  {
  }

  /** The list has an entry of that name. */
  predicate Has(list: seq<DirEnt>, name: seq<Char>) {
    exists e :: e in list && Matches(name, e)
  }

  /** As many different short names as are taken, there are at least as many entries. */
  lemma {:induction false} TakenNames(list: seq<DirEnt>, names: seq<seq<Byte>>)
    requires forall i, j :: 0 <= i < j < |names| ==> names[i] != names[j]
    requires forall i :: 0 <= i < |names| ==> IsHeld(list, names[i])
    ensures |names| <= |list|
    decreases |names|
  {
    if names != [] {
      hide ShortName;
      var n := |names| - 1;
      assert IsHeld(list, names[n]);
      var e :| e in list && ShortName(e.entry) == names[n];
      var k :| 0 <= k < |list| && list[k] == e;
      var rest := list[..k] + list[k + 1..];
      forall i | 0 <= i < n
        ensures IsHeld(rest, names[..n][i])
      {
        assert IsHeld(list, names[i]);
        var d :| d in list && ShortName(d.entry) == names[i];
        var j :| 0 <= j < |list| && list[j] == d;
        assert rest[if j < k then j else j - 1] == d;
      }
      TakenNames(rest, names[..n]);
    }
  }

  /** In a directory of fewer than 256 entries one of the candidates is free; with all of
      them taken the search for one would not end. */
  lemma SmallDirectoryHasCandidate(list: seq<DirEnt>, crc: nat, base: seq<Byte>)
    requires |base| == 11 && |list| < 0x100
    ensures exists k: nat ::
      k < SPEC_RETRY + 0x100 && forall e :: e in list ==> ShortName(e.entry) != Candidate(crc, base, k)
  {
    hide ShortName, Candidate;
    var names := seq(0x100, i requires 0 <= i < 0x100 => Candidate(crc, base, SPEC_RETRY + i));
    if forall i :: 0 <= i < 0x100 ==> IsHeld(list, names[i]) {
      forall i, j | 0 <= i < j < 0x100
        ensures names[i] != names[j]
      {
        CandidatesDiffer(crc, base, i, j);
      }
      TakenNames(list, names);
    } else {
      var i :| 0 <= i < 0x100 && !IsHeld(list, names[i]);
      assert names[i] == Candidate(crc, base, SPEC_RETRY + i);
      assert SPEC_RETRY + i < SPEC_RETRY + 0x100;
    }
  }

  lemma CandidatesDiffer(crc: nat, base: seq<Byte>, i: nat, j: nat)
    requires |base| == 11 && i < j < 0x100
    ensures Candidate(crc, base, SPEC_RETRY + i) != Candidate(crc, base, SPEC_RETRY + j)
  {
    hide Trimmed, HashTag;
    var at := BaseTagLen(base, 2) + 5;
    assert Candidate(crc, base, SPEC_RETRY + i)[at] != Candidate(crc, base, SPEC_RETRY + j)[at];
  }

  /** Every valid name comes back from the slots written for it, with the same number of
      slots, exactly when it is not a single-slot name behind a stray long-name slot. */
  lemma ValidNameRoundTrip(slots: seq<Slot>, pos: nat, name: seq<Char>, short: seq<Byte>, attr: Byte, flag: Byte,
      info: seq<Byte>, count: nat)
    requires ValidName(name) && |short| == 11 && |info| == 19 && (attr / 8) % 2 == 0 && pos < |slots|
      && count <= pos + 1
    requires if Is8Dot3(name) then
               short == ShortBytes(name) && if CaseFlag(name).Some? then count == 1 && flag == CaseFlag(name).value
                   else count == 2
             else short[0] != 0 && short[0] != DELETED && count == (|name| + LFN_CHARS - 1) / LFN_CHARS + 1
    ensures var e := DirEnt(pos, count, name, EntrySlot(short, attr, flag, info));
      && 0 < count && (Load(Stored(slots, e, false), pos) == e <==> !Mistaken(slots, e))
      && (Mistaken(slots, e) <==> count == 1 && pos > 0 && Continues(slots[pos - 1], CheckSum(short), 1))
  {
    hide Load, Stored, Is8Dot3, CaseFlag, ShortBytes, Storable, Continues, CheckSum, ValidName;
    NewIsStorable(name, short, attr, flag, info, count);
    var e := DirEnt(pos, count, name, EntrySlot(short, attr, flag, info));
    assert Storable(e);
    StoreLoad(slots, e);
  }

  /** In that root directory the driver puts a name of two slots over the label. */
  method OverwriteLabel(crc: seq<int> -> nat) returns (dir: ODir, status: Status, pos: nat)
    ensures fresh(dir) && dir.slots == LabelledRoot() && dir.isFixedRoot
    ensures status == Success && LabelFrom(dir.slots, 0).Some? && pos - 2 < LabelFrom(dir.slots, 0).value <= pos
  {
    hide Between, LabelledRoot, LabelFrom, FitFrom, Indexes;
    LabelOverwritten();
    dir := new ODir(true, MAX_LFN + 1, crc, LabelledRoot());
    while !dir.endOfDir
      invariant dir.Loaded() && dir.Hashed()
      modifies dir`childList, dir`currentEndPos, dir`endOfDir, dir`longTable, dir`shortTable
      decreases |dir.slots| - dir.currentEndPos, !dir.endOfDir
    {
      var _ := dir.LoadNext();
    }
    assert dir.currentEndPos == 5 && LabelPos(dir.slots, true) == 2;
    var index;
    status, pos, index := dir.NewEntryPos(2, true, true);
  }

  // ---- names that are read back wrongly ----

  /** The name "A" behind a stray long-name slot that carries its checksum. */
  lemma NameLost(info: seq<Byte>)
    requires |info| == 19
    ensures var name: seq<Char>, chars: seq<Char> := [0x41], seq(LFN_CHARS, _ => 0x42);
      var stray := LfnSlot(0x41, CheckSum(ShortBytes(name)), chars);
      var slots: seq<Slot> := [stray, ZeroSlot()];
      var e := DirEnt(1, 1, name, EntrySlot(ShortBytes(name), 0x20, 0, info));
      && ValidName(name) && Is8Dot3(name) && Storable(e) && Mistaken(slots, e)
      && Load(Stored(slots, e, false), 1).name == chars
  {
    hide ValidName, Is8Dot3, CaseFlag, ShortBytes, CheckSum, LfnSlot, Chars, Storable, NameViaCaseFlag, EntrySlot;
    var name: seq<Char>, chars: seq<Char> := [0x41], seq(LFN_CHARS, _ => 0x42);
    var sum := CheckSum(ShortBytes(name));
    NameA();
    NewIsStorable(name, ShortBytes(name), 0x20, 0, info, 1);
    LfnRoundTrip(0x41, sum, chars);
    var slots: seq<Slot> := [LfnSlot(0x41, sum, chars), ZeroSlot()];
    var e := DirEnt(1, 1, name, EntrySlot(ShortBytes(name), 0x20, 0, info));
    assert Continues(slots[0], sum, 1) && IsLast(slots[0][0]);
    var r := Stored(slots, e, false);
    hide Stored;
    assert r[0] == slots[0] && r[1] == e.entry;
    assert [] + chars == chars && chars + [] == chars;
    assert Chain(r, 1, sum, 1, []) == (Some(chars), 2);
    CStringOfBuffer(chars, []);
  }

  lemma NameA()
    ensures var name: seq<Char> := [0x41]; ValidName(name) && Is8Dot3(name) && CaseFlag(name) == Some(0)
  {
  }

  // ---- the search for a short name ----

  /** The candidates come round after 256. */
  lemma CandidatesRepeat(crc: nat, base: seq<Byte>, k: nat)
    requires |base| == 11 && k >= SPEC_RETRY
    ensures Candidate(crc, base, k) == Candidate(crc, base, SPEC_RETRY + (k - SPEC_RETRY) % 0x100)
  {
    hide Trimmed, HashTag, BaseTagLen;
    assert (0x31 + (k - SPEC_RETRY)) % 0x100 == (0x31 + (k - SPEC_RETRY) % 0x100) % 0x100;
  }

  /** The search of FatCreate8Dot3Name goes on while the candidate at hand is taken: it goes
      on for ever exactly when the first 260 are. */
  lemma SearchNeverEnds(list: seq<DirEnt>, crc: nat, base: seq<Byte>)
    requires |base| == 11
    ensures (forall k: nat :: IsHeld(list, Candidate(crc, base, k))) <==>
      forall k: nat :: k < SPEC_RETRY + 0x100 ==> IsHeld(list, Candidate(crc, base, k))
  {
    hide Candidate, IsHeld;
    forall k: nat | forall j: nat :: j < SPEC_RETRY + 0x100 ==> IsHeld(list, Candidate(crc, base, j))
      ensures IsHeld(list, Candidate(crc, base, k))
    {
      if k >= SPEC_RETRY {
        CandidatesRepeat(crc, base, k);
      }
    }
  }

  /** A directory of 260 files with such names: the search never ends there. */
  lemma AllCandidatesTaken(crc: nat, base: seq<Byte>)
    requires |base| == 11 && base[0] != 0 && base[0] != DELETED
    ensures var slots := CandidateSlots(crc, base);
      forall k: nat :: IsHeld(Listing(slots), Candidate(crc, base, k))
  {
    hide Candidate, Between, Listing, EndFrom, EntrySlot, CandidateSlots;
    var slots := CandidateSlots(crc, base);
    forall k: nat | k < SPEC_RETRY + 0x100
      ensures IsHeld(Listing(slots), Candidate(crc, base, k))
    {
      CandidateListed(crc, base, k);
    }
    SearchNeverEnds(Listing(slots), crc, base);
  }

  function CandidateSlots(crc: nat, base: seq<Byte>): (slots: seq<Slot>)
    requires |base| == 11
    ensures |slots| == SPEC_RETRY + 0x100
  {
    seq(SPEC_RETRY + 0x100, k requires 0 <= k => EntrySlot(Candidate(crc, base, k), 0x20, 0, seq(19, _ => 0)))
  }

  lemma CandidateListed(crc: nat, base: seq<Byte>, k: nat)
    requires |base| == 11 && base[0] != 0 && base[0] != DELETED && k < SPEC_RETRY + 0x100
    ensures IsHeld(Listing(CandidateSlots(crc, base)), Candidate(crc, base, k))
  {
    hide Candidate, Between, Load;
    var slots := CandidateSlots(crc, base);
    forall i | 0 <= i < |slots|
      ensures Live(slots[i])
    {
      CandidateIsName(crc, base, i);
      assert slots[i][0] == ShortName(slots[i])[0];
    }
    EndIs(slots, |slots|);
    LiveIsFound(slots, 0, |slots|, k);
    assert Load(slots, k) in Listing(slots);
  }
}

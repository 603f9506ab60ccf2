/** Choosing the slots of a new directory entry. */
module DirPlace {
  import opened Bytes
  import opened FatTypes
  import opened FatNames
  import opened DirSlots
  import opened DirScan
  import opened DirChange

  /** FAT_ATTRIBUTE_VOLUME_ID, perhaps with FAT_ATTRIBUTE_ARCHIVE. */
  predicate IsLabel(s: Slot) {
    s[0] != DELETED && (Attributes(s) == 0x08 || Attributes(s) == 0x28)
  }

  /** FatSeekVolumeId: the first label before the end of the directory. */
  function LabelFrom(slots: seq<Slot>, n: nat): Option<nat>
    requires n <= |slots|
    decreases |slots| - n
  {
    if n == |slots| then None
    else if IsLabel(slots[n]) then Some(n)
    else if slots[n][0] == 0 then None
    else LabelFrom(slots, n + 1)
  }

  method SeekVolumeId(slots: seq<Slot>) returns (pos: Option<nat>)
    ensures pos == LabelFrom(slots, 0)
    ensures pos.Some? ==> pos.value < |slots| && IsLabel(slots[pos.value])
  {
    hide IsLabel;
    var n := 0;
    while n < |slots|
      invariant n <= |slots| && LabelFrom(slots, 0) == LabelFrom(slots, n)
    {
      if IsLabel(slots[n]) {
        return Some(n);
      }
      if slots[n][0] == 0 {
        return None;
      }
      n := n + 1;
    }
    return None;
  }

  /** The label is the first slot in use with the volume attribute, and besides it at most the
      archive one; a slot that was never used ends the search. */
  lemma LabelExactly(slots: seq<Slot>, k: nat)
    requires k < |slots|
    ensures LabelFrom(slots, 0) == Some(k) <==>
      && slots[k][0] != 0xE5 && slots[k][11] in {0x08, 0x28}
      && forall i :: 0 <= i < k ==> slots[i][0] != 0 && (slots[i][0] == 0xE5 || slots[i][11] !in {0x08, 0x28})
  {
    LabelFromExactly(slots, 0, k);
  }

  lemma {:induction false} LabelFromExactly(slots: seq<Slot>, n: nat, k: nat)
    requires n <= |slots| && k < |slots|
    ensures LabelFrom(slots, n) == Some(k) <==>
      && n <= k && slots[k][0] != 0xE5 && slots[k][11] in {0x08, 0x28}
      && forall i :: n <= i < k ==> slots[i][0] != 0 && (slots[i][0] == 0xE5 || slots[i][11] !in {0x08, 0x28})
    decreases |slots| - n
  {
    if n < |slots| && !IsLabel(slots[n]) && slots[n][0] != 0 {
      LabelFromExactly(slots, n + 1, k);
    }
  }

  /** The last slot before the `i`-th gap; the first gap begins at slot 1. */
  function GapStart(list: seq<DirEnt>, i: nat): nat
    requires i <= |list|
  {
    if i == 0 then 0 else list[i - 1].pos
  }

  /** FatFirstFitInsertDirEnt: the position and the place in the child list. */
  function FitFrom(list: seq<DirEnt>, count: nat, labelPos: nat, end: nat, i: nat): Option<(nat, nat)>
    requires i <= |list|
    decreases |list| - i
  {
    var pos := GapStart(list, i) + count;
    if i == |list| then (if pos >= end then None else Some((pos, i)))
    else if pos + list[i].count <= list[i].pos && (labelPos > pos || labelPos <= GapStart(list, i)) then Some((pos, i))
    else FitFrom(list, count, labelPos, end, i + 1)
  }

  method FirstFit(list: seq<DirEnt>, count: nat, labelPos: nat, end: nat) returns (place: Option<(nat, nat)>)
    ensures place == FitFrom(list, count, labelPos, end, 0)
    ensures place.Some? ==>
      var (pos, k) := place.value;
      && k <= |list| && pos == GapStart(list, k) + count
      && (forall j :: 0 <= j < k ==> Unsuited(list, count, labelPos, j))
      && if k < |list| then !Unsuited(list, count, labelPos, k) else pos < end
    ensures place.None? ==>
      (forall j :: 0 <= j < |list| ==> Unsuited(list, count, labelPos, j)) && GapStart(list, |list|) + count >= end
  {
    FitIsFirst(list, count, labelPos, end, 0);
    FitFails(list, count, labelPos, end, 0);
    var newEntryPos, currentPos, i := count, 0, 0;
    while i < |list|
      invariant i <= |list| && currentPos == GapStart(list, i) && newEntryPos == currentPos + count
      invariant FitFrom(list, count, labelPos, end, 0) == FitFrom(list, count, labelPos, end, i)
    {
      if newEntryPos + list[i].count <= list[i].pos {
        if labelPos > newEntryPos || labelPos <= currentPos {
          return Some((newEntryPos, i));
        }
      }
      currentPos := list[i].pos;
      newEntryPos := currentPos + count;
      i := i + 1;
    }
    if newEntryPos >= end {
      return None;
    }
    return Some((newEntryPos, i));
  }

  /** The place found lies in a gap of the child list, below the end; and a gap in front of
      a child is taken only if it spares the volume label. */
  lemma {:induction false} FitIsFree(list: seq<DirEnt>, count: nat, labelPos: nat, end: nat, i: nat, e: DirEnt)
    requires Ordered(list) && i <= |list| && 0 < count && (forall j :: 0 <= j < |list| ==> list[j].pos < end)
    requires FitFrom(list, count, labelPos, end, i).Some? && e.count == count
      && e.pos == FitFrom(list, count, labelPos, end, i).value.0
    ensures var k := FitFrom(list, count, labelPos, end, i).value.1;
      && InGap(list, k, e) && e.pos < end && e.First() > 0
      && (k < |list| ==> !(e.First() <= labelPos <= e.pos))
    decreases |list| - i
  {
    var pos := GapStart(list, i) + count;
    if i < |list| && !(pos + list[i].count <= list[i].pos && (labelPos > pos || labelPos <= GapStart(list, i))) {
      FitIsFree(list, count, labelPos, end, i + 1, e);
    }
  }

  /** The gap in front of child `k` is too small, or it would cost the label. */
  predicate Unsuited(list: seq<DirEnt>, count: nat, labelPos: nat, k: nat)
    requires k < |list|
  {
    var pos := GapStart(list, k) + count;
    pos + list[k].count > list[k].pos || GapStart(list, k) < labelPos <= pos
  }

  /** The place is in the first gap that suits; behind the last child if none does. */
  lemma {:induction false} FitIsFirst(list: seq<DirEnt>, count: nat, labelPos: nat, end: nat, i: nat)
    requires i <= |list|
    ensures FitFrom(list, count, labelPos, end, i).Some? ==>
      var (pos, k) := FitFrom(list, count, labelPos, end, i).value;
      && i <= k <= |list| && pos == GapStart(list, k) + count
      && (forall j :: i <= j < k ==> Unsuited(list, count, labelPos, j))
      && if k < |list| then !Unsuited(list, count, labelPos, k) else pos < end
    decreases |list| - i
  {
    if i < |list| {
      FitIsFirst(list, count, labelPos, end, i + 1);
    }
  }

  /** It fails only when no gap is large enough and clear of the label. */
  lemma {:induction false} FitFails(list: seq<DirEnt>, count: nat, labelPos: nat, end: nat, i: nat)
    requires i <= |list|
    ensures FitFrom(list, count, labelPos, end, i).None? <==>
      (forall k :: i <= k < |list| ==> Unsuited(list, count, labelPos, k)) && GapStart(list, |list|) + count >= end
    decreases |list| - i
  {
    if i < |list| {
      FitFails(list, count, labelPos, end, i + 1);
      assert Unsuited(list, count, labelPos, i) || FitFrom(list, count, labelPos, end, i).Some?;
    }
  }

  /** Behind the last child the label is not looked at: it is overwritten exactly when no gap
      suits and the label is among the slots there. */
  lemma TailIgnoresLabel(list: seq<DirEnt>, count: nat, labelPos: nat, end: nat)
    requires 0 < count
    ensures (match FitFrom(list, count, labelPos, end, 0)
             case None => false
             case Some(fit) => fit.0 - count < labelPos <= fit.0)
      <==>
      && (forall k :: 0 <= k < |list| ==> Unsuited(list, count, labelPos, k))
      && GapStart(list, |list|) < labelPos <= GapStart(list, |list|) + count < end
  {
    FitIsFirst(list, count, labelPos, end, 0);
    FitFails(list, count, labelPos, end, 0);
  }

  /** A slot with one character in its name. */
  function PlainSlot(first: Byte, attr: Byte): (s: Slot)
    ensures s[0] == first && Attributes(s) == attr
  {
    [first] + Blanks(10) + [attr] + seq(20, _ => 0)
  }

  /** A root directory of five slots: a file, a removed entry, the label and two more removed
      entries. */
  function LabelledRoot(): (slots: seq<Slot>)
    ensures |slots| == 5
  {
    [PlainSlot(0x41, 0x20), PlainSlot(DELETED, 0), PlainSlot(0x56, 0x08), PlainSlot(DELETED, 0), PlainSlot(DELETED, 0)]
  }

  /** The place found there for a name of two slots is that of a removed entry and the label. */
  lemma LabelOverwritten()
    ensures var slots := LabelledRoot();
      && NoEnds(slots, 5) && LabelFrom(slots, 0) == Some(2)
      && |Between(slots, 0, 5)| == 1 && FitFrom(Between(slots, 0, 5), 2, 2, 5, 0) == Some((2, 1))
  {
    hide PlainSlot, Load;
    var slots := LabelledRoot();
    assert LabelFrom(slots, 2) == Some(2);
    assert LabelFrom(slots, 1) == Some(2);
    BetweenSplit(slots, 0, 1, 5);
    BetweenNone(slots, 1, 5);
    var e := Load(slots, 0);
    assert e.pos == 0 && e.count >= 1;
    assert Between(slots, 0, 1) == [e] by {
      assert Between(slots, 0, 0) == [] && Live(slots[0]);
    }
    var list := Between(slots, 0, 5);
    assert list == [e];
    assert FitFrom(list, 2, 2, 5, 1) == Some((2, 1));
  }
}

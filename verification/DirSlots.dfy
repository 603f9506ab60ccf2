/** Directory entries on disk: 32-byte slots, long names spread over the slots in front of
    an entry, and the entries that a scan of a directory finds. */
module DirSlots {
  import opened Bytes
  import opened FatTypes
  import opened FatNames

  /** FAT_DIRECTORY_ENTRY, or FAT_DIRECTORY_LFN over the same 32 bytes. */
  type Slot = s: seq<Byte> | |s| == 32 witness seq(32, _ => 0)

  const LFN: Byte := 0x0F
  const DELETED: Byte := 0xE5
  const LFN_CHARS: nat := 13
  const MAX_LFN: nat := 20

  function Attributes(s: Slot): Byte {
    s[11]
  }

  function ShortName(s: Slot): seq<Byte> {
    s[..11]
  }

  /** Deleted, or a volume label or long-name slot. */
  predicate Skipped(s: Slot) {
    s[0] == DELETED || (Attributes(s) / 8) % 2 == 1
  }

  /** The end mark of a directory. */
  predicate Ends(s: Slot) {
    !Skipped(s) && s[0] == 0
  }

  /** A file or directory entry. */
  predicate Live(s: Slot) {
    !Skipped(s) && s[0] != 0
  }

  /** A slot is skipped, an entry, or the end, by its first byte and bit 3 of byte 11. */
  lemma SlotKinds(s: Slot)
    ensures Skipped(s) <==> s[0] == 0xE5 || s[11] % 0x10 >= 8
    ensures Ends(s) <==> s[0] == 0 && s[11] % 0x10 < 8
    ensures Live(s) <==> s[0] != 0 && s[0] != 0xE5 && s[11] % 0x10 < 8
  {
  }

  /** FatCheckSum. */
  function CheckSum(short: seq<Byte>): Byte {
    if short == [] then 0 else
      var sum := CheckSum(short[..|short| - 1]);
      ((if sum % 2 == 1 then 0x80 else 0) + sum / 2 + short[|short| - 1]) % 0x100
  }

  /** The loop of FatCheckSum. */
  method ComputeCheckSum(short: seq<Byte>) returns (sum: Byte)
    ensures sum == CheckSum(short)
  {
    sum := 0;
    var i := 0;
    while i < |short|
      invariant 0 <= i <= |short| && sum == CheckSum(short[..i])
    {
      CheckSumNext(short, i);
      sum := ((if sum % 2 == 1 then 0x80 else 0) + sum / 2 + short[i]) % 0x100;
      i := i + 1;
    }
    assert short[..i] == short;
  }

  /** Each byte is added to the sum so far turned right by one bit: its high seven bits become
      the low seven, and its lowest bit the highest. */
  lemma CheckSumTurns(short: seq<Byte>, b: Byte)
    ensures CheckSum([]) == 0
    ensures var sum, turned := CheckSum(short), (CheckSum(short + [b]) + 0x100 - b) % 0x100;
      turned % 0x80 == sum / 2 && turned / 0x80 == sum % 2
  {
    hide CheckSum;
    var now := short + [b];
    CheckSumNext(now, |short|);
    assert now[..|short|] == short && now[..|short| + 1] == now && now[..0] == [];
    TurnedBack(CheckSum(short), b);
  }

  lemma TurnedBack(sum: Byte, b: Byte)
    ensures var turned := (((if sum % 2 == 1 then 0x80 else 0) + sum / 2 + b) % 0x100 + 0x100 - b) % 0x100;
      turned % 0x80 == sum / 2 && turned / 0x80 == sum % 2
  {
    AddedBack(0x80 * (sum % 2) + sum / 2, b);
  }

  lemma AddedBack(x: Byte, b: Byte)
    ensures ((x + b) % 0x100 + 0x100 - b) % 0x100 == x
  {
  }

  /** `LONGNA~1.TXT` as a short name. */
  const SAMPLE: seq<Byte> := [0x4C, 0x4F, 0x4E, 0x47, 0x4E, 0x41, 0x7E, 0x31, 0x54, 0x58, 0x54]

  /** The checksums of its first bytes. */
  const SUMS: seq<Byte> := [0, 0x4C, 0x75, 0x08, 0x4B, 0xF3, 0x3A, 0x9B, 0xFE, 0xD3, 0x41, 0xF4]

  lemma {:induction false} SampleSums(i: nat)
    requires i < 12
    ensures CheckSum(SAMPLE[..i]) == SUMS[i]
  {
    hide CheckSum;
    if i == 0 {
      CheckSumNext(SAMPLE, 0);
    } else {
      SampleSums(i - 1);
      CheckSumNext(SAMPLE, i - 1);
      SampleStep(i - 1);
    }
  }

  lemma SampleStep(i: nat)
    requires i < 11
    ensures var sum: int := SUMS[i];
      SUMS[i + 1] == ((if sum % 2 == 1 then 0x80 else 0) + sum / 2 + SAMPLE[i]) % 0x100
  {
  }

  lemma SampleCheckSum()
    ensures CheckSum(SAMPLE) == 0xF4
  {
    SampleSums(11);
    assert SAMPLE[..11] == SAMPLE;
  }

  lemma CheckSumNext(short: seq<Byte>, i: nat)
    requires i < |short|
    ensures CheckSum(short[..0]) == 0
    ensures var sum := CheckSum(short[..i]);
      CheckSum(short[..i + 1]) == ((if sum % 2 == 1 then 0x80 else 0) + sum / 2 + short[i]) % 0x100
  {
    assert short[..i + 1][..i] == short[..i];
  }

  function CharBytes(s: seq<Char>): (r: seq<Byte>)
    ensures |r| == 2 * |s|
  {
    seq(2 * |s|, i requires 0 <= i < 2 * |s| => if i % 2 == 0 then s[i / 2] % 0x100 else s[i / 2] / 0x100)
  }

  /** A long-name slot with 13 characters. */
  function LfnSlot(ordinal: Byte, sum: Byte, chars: seq<Char>): Slot
    requires |chars| == LFN_CHARS
  {
    [ordinal] + CharBytes(chars[..5]) + [LFN, 0, sum] + CharBytes(chars[5..11]) + [0, 0] + CharBytes(chars[11..])
  }

  /** Where the `i`-th character of a long-name slot lies. */
  function CharAt(i: nat): nat
    requires i < LFN_CHARS
  {
    if i < 5 then 1 + 2 * i else if i < 11 then 4 + 2 * i else 6 + 2 * i
  }

  function Chars(s: Slot): (r: seq<Char>)
    ensures |r| == LFN_CHARS
  {
    seq(LFN_CHARS, i requires 0 <= i < LFN_CHARS => (s[CharAt(i)] as int) + 0x100 * (s[CharAt(i) + 1] as int))
  }

  lemma LfnRoundTrip(ordinal: Byte, sum: Byte, chars: seq<Char>)
    requires |chars| == LFN_CHARS
    ensures var s := LfnSlot(ordinal, sum, chars);
      && Chars(s) == chars && s[0] == ordinal && Attributes(s) == LFN && s[12] == 0 && s[13] == sum
      && s[26] == 0 && s[27] == 0
  {
    var s := LfnSlot(ordinal, sum, chars);
    forall i | 0 <= i < LFN_CHARS
      ensures Chars(s)[i] == chars[i]
    {
      assert s[CharAt(i)] == chars[i] % 0x100 && s[CharAt(i) + 1] == chars[i] / 0x100;
    }
  }

  /** What FAT_DIRECTORY_LFN says lies where: ordinal, 5 characters, attributes, type,
      checksum, 6 characters, cluster, 2 characters, each character low byte first. */
  lemma LfnLayout(s: Slot, ordinal: Byte, sum: Byte, chars: seq<Char>)
    requires |chars| == LFN_CHARS
    ensures s == LfnSlot(ordinal, sum, chars) <==>
      && s[0] == ordinal && s[11] == 0x0F && s[12] == 0 && s[13] == sum && s[26] == 0 && s[27] == 0
      && (forall i :: 0 <= i < 5 ==> (s[1 + 2 * i] as int) + 0x100 * s[2 + 2 * i] as int == chars[i])
      && (forall i :: 5 <= i < 11 ==> (s[4 + 2 * i] as int) + 0x100 * s[5 + 2 * i] as int == chars[i])
      && (forall i :: 11 <= i < 13 ==> (s[6 + 2 * i] as int) + 0x100 * s[7 + 2 * i] as int == chars[i])
  {
    LfnRoundTrip(ordinal, sum, chars);
    CharsLayout(s, chars);
    hide LfnSlot, Chars;
    if s[0] == ordinal && s[11] == LFN && s[12] == 0 && s[13] == sum && s[26] == s[27] == 0 && Chars(s) == chars {
      SlotsEqual(s, LfnSlot(ordinal, sum, chars));
    }
  }

  lemma CharsLayout(s: Slot, chars: seq<Char>)
    requires |chars| == LFN_CHARS
    ensures Chars(s) == chars <==>
      && (forall i :: 0 <= i < 5 ==> (s[1 + 2 * i] as int) + 0x100 * s[2 + 2 * i] as int == chars[i])
      && (forall i :: 5 <= i < 11 ==> (s[4 + 2 * i] as int) + 0x100 * s[5 + 2 * i] as int == chars[i])
      && (forall i :: 11 <= i < 13 ==> (s[6 + 2 * i] as int) + 0x100 * s[7 + 2 * i] as int == chars[i])
  {
  }

  /** A long-name slot is its characters and its six other bytes. */
  lemma SlotsEqual(s: Slot, t: Slot)
    requires forall k :: k in {0, 11, 12, 13, 26, 27} ==> s[k] == t[k]
    requires Chars(s) == Chars(t)
    ensures s == t
  {
    forall i | 0 <= i < LFN_CHARS
      ensures s[CharAt(i)] == t[CharAt(i)] && s[CharAt(i) + 1] == t[CharAt(i) + 1]
    {
      assert Chars(s)[i] == Chars(t)[i];
    }
    forall k | 0 <= k < 32
      ensures s[k] == t[k]
    {
      if k !in {0, 11, 12, 13, 26, 27} {
        var i := if k < 11 then (k - 1) / 2 else if k < 26 then (k - 4) / 2 else (k - 6) / 2;
        assert CharAt(i) == k || CharAt(i) + 1 == k;
      }
    }
  }

  /** The ordinal without the mark of the last slot, and that mark. */
  function Ordinal(b: Byte): nat {
    if (b / 0x40) % 2 == 1 then b - 0x40 else b
  }

  predicate IsLast(b: Byte) {
    (b / 0x40) % 2 == 1
  }

  /** The slot is the `o`-th long-name slot of an entry with that checksum. */
  predicate Continues(s: Slot, sum: Byte, o: nat) {
    Attributes(s) == LFN && s[26] == 0 && s[27] == 0 && s[13] == sum && Ordinal(s[0]) == o <= MAX_LFN
  }

  /** The loop of FatLoadLongNameEntry: the characters of the long name, None when the
      slots do not hold one, and the entry count. */
  function Chain(slots: seq<Slot>, pos: nat, sum: Byte, o: nat, buffer: seq<Char>): (r: (Option<seq<Char>>, nat))
    requires pos < |slots| && o > 0
    ensures o <= r.1 <= pos + 1 || r.1 == o
    decreases pos + 1 - o
  {
    if o > pos || !Continues(slots[pos - o], sum, o) then (None, o)
    else if IsLast(slots[pos - o][0]) then (Some(buffer + Chars(slots[pos - o])), o + 1)
    else Chain(slots, pos, sum, o + 1, buffer + Chars(slots[pos - o]))
  }

  /** The characters before a NUL. */
  function CString(s: seq<Char>): seq<Char> {
    if s == [] || s[0] == 0 then [] else [s[0]] + CString(s[1..])
  }

  /** FAT_DIRENT, as loaded: EntryPos, EntryCount, FileString and Entry. */
  datatype DirEnt = DirEnt(pos: nat, count: nat, name: seq<Char>, entry: Slot) {
    /** Its first slot. */
    function First(): int {
      pos - count + 1
    }
  }

  /** FatLoadLongNameEntry for the entry at `pos`. */
  function Load(slots: seq<Slot>, pos: nat): (e: DirEnt)
    requires pos < |slots|
    ensures e.pos == pos && e.entry == slots[pos] && 1 <= e.count && 0 <= e.First()
  {
    var entry := slots[pos];
    var (long, count) := Chain(slots, pos, CheckSum(ShortName(entry)), 1, []);
    var name := match long case Some(chars) => CString(chars) case None => NameViaCaseFlag(ShortName(entry), entry[12]);
    DirEnt(pos, count, name, entry)
  }

  /** The slot is number `o` of a long name for that checksum, the one with its end or not. */
  ghost predicate Piece(s: Slot, sum: Byte, o: nat, last: bool) {
    s[0] == (if last then o + 0x40 else o) && s[11] == 0x0F && s[13] == sum && s[26] == 0 && s[27] == 0 && o <= 20
  }

  /** Number `o` of `k` slots in front of the entry. */
  ghost predicate PieceAt(slots: seq<Slot>, pos: nat, o: nat, k: nat)
    requires pos < |slots|
  {
    0 < o <= pos && Piece(slots[pos - o], CheckSum(slots[pos][..11]), o, o == k)
  }

  /** In front of the entry lie the `k` slots of a long name for its short name. */
  ghost predicate HasLong(slots: seq<Slot>, pos: nat, k: nat)
    requires pos < |slots|
  {
    0 < k && forall o :: 0 < o <= k ==> PieceAt(slots, pos, o, k)
  }

  /** The characters of the first `k` of them, from the entry on backwards. */
  ghost function LongChars(slots: seq<Slot>, pos: nat, k: nat): seq<Char>
    requires k <= pos < |slots|
  {
    if k == 0 then [] else LongChars(slots, pos, k - 1) + Chars(slots[pos - k])
  }

  lemma PieceContinues(s: Slot, sum: Byte, o: nat)
    requires o > 0
    ensures Continues(s, sum, o) <==> Piece(s, sum, o, false) || Piece(s, sum, o, true)
    ensures Continues(s, sum, o) ==> (IsLast(s[0]) <==> Piece(s, sum, o, true))
    ensures !(Piece(s, sum, o, false) && Piece(s, sum, o, true))
  {
  }

  lemma {:induction false} ChainExactly(slots: seq<Slot>, pos: nat, o: nat, buffer: seq<Char>)
    requires pos < |slots| && 0 < o <= pos + 1 && buffer == LongChars(slots, pos, o - 1)
    ensures var (long, n) := Chain(slots, pos, CheckSum(slots[pos][..11]), o, buffer);
      var end: nat := if long.Some? then n - 1 else 0;
      && o <= n <= pos + 1 && (forall j :: o <= j < n ==> PieceAt(slots, pos, j, end))
      && (long.Some? ==> o < n && long.value == LongChars(slots, pos, n - 1))
      && (long.None? ==> !PieceAt(slots, pos, n, 0) && !PieceAt(slots, pos, n, n))
    decreases pos + 1 - o
  {
    hide CheckSum, Continues, Piece, IsLast, Chars;
    if o <= pos {
      PieceContinues(slots[pos - o], CheckSum(slots[pos][..11]), o);
      var s := slots[pos - o];
      if Continues(s, CheckSum(slots[pos][..11]), o) && !IsLast(s[0]) {
        var (long, n) := Chain(slots, pos, CheckSum(slots[pos][..11]), o + 1, buffer + Chars(s));
        ChainExactly(slots, pos, o + 1, buffer + Chars(s));
        assert PieceAt(slots, pos, o, 0);
        PieceOnce(slots, pos, o, if long.Some? then n - 1 else 0);
      }
    }
  }

  lemma PieceOnce(slots: seq<Slot>, pos: nat, o: nat, k: nat)
    requires pos < |slots| && o > 0
    ensures PieceAt(slots, pos, o, k) == PieceAt(slots, pos, o, if o == k then o else 0)
    ensures !(PieceAt(slots, pos, o, 0) && PieceAt(slots, pos, o, o))
  {
  }

  /** Which slots make a long name: those in front of the entry with the numbers from 1 up to a
      marked one, with its checksum.  Without a marked one, it is the short name that counts. */
  lemma LoadExactly(slots: seq<Slot>, pos: nat, k: nat)
    requires pos < |slots|
    ensures HasLong(slots, pos, k) ==>
      k <= pos && Load(slots, pos) == DirEnt(pos, k + 1, CString(LongChars(slots, pos, k)), slots[pos])
    ensures (forall j :: !HasLong(slots, pos, j)) ==>
      Load(slots, pos).name == NameViaCaseFlag(slots[pos][..11], slots[pos][12])
  {
    ChainExactly(slots, pos, 1, []);
    var (long, n) := Chain(slots, pos, CheckSum(slots[pos][..11]), 1, []);
    assert long.Some? ==> HasLong(slots, pos, n - 1);
    if HasLong(slots, pos, k) {
      assert PieceAt(slots, pos, k, k);
      OneEnd(slots, pos, k, long.Some?, n, if long.Some? then n - 1 else 0);
    }
    hide CheckSum, Chain, CString, LongChars, NameViaCaseFlag, PieceAt, HasLong;
  }

  lemma OneEnd(slots: seq<Slot>, pos: nat, k: nat, found: bool, n: nat, end: nat)
    requires pos < |slots| && HasLong(slots, pos, k) && 0 < n <= pos + 1 && end == if found then n - 1 else 0
    requires forall j :: 1 <= j < n ==> PieceAt(slots, pos, j, end)
    requires !found ==> !PieceAt(slots, pos, n, 0) && !PieceAt(slots, pos, n, n)
    ensures found && (n > 1 ==> n == k + 1)
  {
    hide PieceAt;
    if n <= k {
      PieceOnce(slots, pos, n, k);
    } else {
      PieceOnce(slots, pos, k, end);
    }
    if found && 1 < n {
      PieceOnce(slots, pos, n - 1, k);
      PieceOnce(slots, pos, k, n - 1);
    }
  }

  // ---- storing ----

  /** The name, a NUL when there is room, and 0xFFFF, in `k` slots. */
  function LfnBuffer(name: seq<Char>, k: nat): (r: seq<Char>)
    ensures |r| == LFN_CHARS * k
  {
    seq(LFN_CHARS * k, i requires 0 <= i => if i < |name| then name[i] else if i == |name| then 0 else 0xFFFF)
  }

  /** The `o`-th slot in front of the entry that FatStoreDirEnt writes. */
  function SlotOf(e: DirEnt, deleted: bool, o: nat): Slot
    requires o < e.count
  {
    if o == 0 then e.entry
    else
      var k := e.count - 1;
      var ordinal: Byte := if deleted then DELETED else if o == k then (o + 0x40) % 0x100 else o % 0x100;
      LfnSlot(ordinal, CheckSum(ShortName(e.entry)), LfnBuffer(e.name, k)[LFN_CHARS * (o - 1)..LFN_CHARS * o])
  }

  /** The directory after FatStoreDirEnt. */
  function Stored(slots: seq<Slot>, e: DirEnt, deleted: bool): (r: seq<Slot>)
    requires e.pos < |slots| && 0 < e.count && 0 <= e.First()
    ensures |r| == |slots|
    ensures forall i {:trigger r[i]} :: 0 <= i < |slots| ==> r[i] == StoredAt(slots, e, deleted, i)
  {
    seq(|slots|, i requires 0 <= i < |slots| => StoredAt(slots, e, deleted, i))
  }

  function StoredAt(slots: seq<Slot>, e: DirEnt, deleted: bool, i: nat): Slot
    requires e.pos < |slots| && 0 < e.count && 0 <= e.First() && i < |slots|
  {
    if e.First() <= i <= e.pos then SlotOf(e, deleted, e.pos - i) else slots[i]
  }

  /** FatStoreDirEnt, slot by slot. */
  method Store(slots: seq<Slot>, e: DirEnt, deleted: bool) returns (r: seq<Slot>)
    requires e.pos < |slots| && 0 < e.count && 0 <= e.First()
    ensures r == Stored(slots, e, deleted)
  {
    hide LfnSlot, LfnBuffer, CheckSum;
    r := slots[e.pos := e.entry];
    var entryPos := e.pos;
    var o := 1;
    while o < e.count
      invariant 1 <= o <= e.count && entryPos == e.pos - (o - 1) && |r| == |slots|
      invariant forall i {:trigger r[i]} :: 0 <= i < |slots| ==>
        r[i] == if entryPos <= i <= e.pos then SlotOf(e, deleted, e.pos - i) else slots[i]
    {
      entryPos := entryPos - 1;
      r := r[entryPos := SlotOf(e, deleted, o)];
      o := o + 1;
    }
  }

  /** What each long-name slot written for an entry holds: its number, on the last one marked,
      or the mark of a deleted slot, the checksum of the short name, and 13 characters of the
      name, a NUL when there is room, and 0xFFFF. */
  lemma StoredSlot(slots: seq<Slot>, e: DirEnt, deleted: bool, o: nat) returns (chars: seq<Char>)
    requires e.pos < |slots| && 0 < o < e.count && 0 <= e.First()
    ensures |chars| == 13 && forall i {:trigger chars[i]} :: 0 <= i < 13 ==>
      var n := 13 * (o - 1) + i;
      chars[i] == if n < |e.name| then e.name[n] else if n == |e.name| then 0 else 0xFFFF
    ensures var ordinal := if deleted then 0xE5 else if o == e.count - 1 then (o + 0x40) % 0x100 else o % 0x100;
      Stored(slots, e, deleted)[e.pos - o] == LfnSlot(ordinal, CheckSum(e.entry[..11]), chars)
  {
    hide LfnSlot, CheckSum;
    chars := LfnBuffer(e.name, e.count - 1)[LFN_CHARS * (o - 1)..LFN_CHARS * o];
  }

  /** An entry that can be stored: its name fits its slots, or one slot says it all. */
  ghost predicate Storable(e: DirEnt) {
    && 0 < e.count <= MAX_LFN + 1 && 0 <= e.First() && Live(e.entry) && 0 !in e.name
    && (e.count > 1 ==> LFN_CHARS * (e.count - 2) < |e.name| <= LFN_CHARS * (e.count - 1))
    && (e.count == 1 ==> e.name == NameViaCaseFlag(ShortName(e.entry), e.entry[12]))
  }

  lemma NumberMarks(o: nat)
    requires o <= MAX_LFN
    ensures Ordinal(o) == Ordinal(o + 0x40) == o && IsLast(o + 0x40) && !IsLast(o)
    ensures o % 0x100 == o && (o + 0x40) % 0x100 == o + 0x40
  {
  }

  lemma StoredContinues(e: DirEnt, o: nat)
    requires Storable(e) && 0 < o < e.count
    ensures var s := SlotOf(e, false, o);
      && Continues(s, CheckSum(ShortName(e.entry)), o) && (IsLast(s[0]) <==> o == e.count - 1)
      && Chars(s) == LfnBuffer(e.name, e.count - 1)[LFN_CHARS * (o - 1)..LFN_CHARS * o]
  {
    hide LfnSlot, LfnBuffer, CheckSum, Chars;
    var k := e.count - 1;
    NumberMarks(o);
    hide Ordinal, IsLast;
    LfnRoundTrip(if o == k then (o + 0x40) % 0x100 else o % 0x100, CheckSum(ShortName(e.entry)),
                 LfnBuffer(e.name, k)[LFN_CHARS * (o - 1)..LFN_CHARS * o]);
  }

  lemma {:induction false} ChainOfStored(slots: seq<Slot>, e: DirEnt, o: nat)
    requires Storable(e) && e.pos < |slots| && 0 < o < e.count
    ensures Chain(Stored(slots, e, false), e.pos, CheckSum(ShortName(e.entry)), o,
      LfnBuffer(e.name, e.count - 1)[..LFN_CHARS * (o - 1)])
         == (Some(LfnBuffer(e.name, e.count - 1)), e.count)
    decreases e.count - o
  {
    hide LfnBuffer, CheckSum, Continues, Chars, Storable, SlotOf;
    var b := LfnBuffer(e.name, e.count - 1);
    StoredContinues(e, o);
    StorableCount(e);
    assert b[..LFN_CHARS * (o - 1)] + b[LFN_CHARS * (o - 1)..LFN_CHARS * o] == b[..LFN_CHARS * o];
    if o < e.count - 1 {
      ChainOfStored(slots, e, o + 1);
    } else {
      assert b[..LFN_CHARS * o] == b;
    }
  }

  lemma StorableCount(e: DirEnt)
    requires Storable(e)
    ensures 0 < e.count <= MAX_LFN + 1 && 0 <= e.First()
  {
  }

  lemma {:induction false} CStringOfBuffer(s: seq<Char>, t: seq<Char>)
    requires 0 !in s && (t == [] || t[0] == 0)
    ensures CString(s + t) == s
  {
    if s == [] {
      assert s + t == t;
    } else {
      assert s[0] in s && (s + t)[1..] == s[1..] + t;
      CStringOfBuffer(s[1..], t);
    }
  }

  lemma BufferParts(name: seq<Char>, k: nat)
    requires |name| <= LFN_CHARS * k
    ensures var b := LfnBuffer(name, k);
      b == name + b[|name|..] && (b[|name|..] == [] || b[|name|..][0] == 0)
  {
  }

  /** What was stored is loaded again, name and slot count, exactly when the slot in front
      of a single-slot entry is not mistaken for its first long-name slot. */
  lemma StoreLoad(slots: seq<Slot>, e: DirEnt)
    requires Storable(e) && e.pos < |slots|
    ensures Load(Stored(slots, e, false), e.pos) == e <==> !Mistaken(slots, e)
  {
    var r := Stored(slots, e, false);
    var sum := CheckSum(ShortName(e.entry));
    hide CheckSum, Continues, LfnSlot, LfnBuffer, Chars, NameViaCaseFlag, Stored;
    assert r[e.pos] == e.entry && (e.count == 1 && e.pos > 0 ==> r[e.pos - 1] == slots[e.pos - 1]);
    hide SlotOf, StoredAt;
    if e.count > 1 {
      BufferParts(e.name, e.count - 1);
      var b := LfnBuffer(e.name, e.count - 1);
      ChainOfStored(slots, e, 1);
      assert b[..0] == [];
      CStringOfBuffer(e.name, b[|e.name|..]);
    }
  }

  /** A directory that another system wrote: the long-name slots of `LONGNA~1.TXT` carry its
      checksum, 0xF4, and the long name is found. */
  lemma LoadsForeign(slots: seq<Slot>, e: DirEnt)
    requires Storable(e) && e.count > 1 && e.pos < |slots| && slots[e.pos] == e.entry && e.entry[..11] == SAMPLE
    requires forall i {:trigger slots[i]} :: e.First() <= i < e.pos ==>
      var o := e.pos - i;
      slots[i] == LfnSlot(if i == e.First() then o + 0x40 else o, 0xF4,
        LfnBuffer(e.name, e.count - 1)[13 * (o - 1)..13 * o])
    ensures Load(slots, e.pos) == e
  {
    hide LfnSlot, LfnBuffer, CheckSum, Load, SlotOf;
    forall i | e.First() <= i <= e.pos
      ensures slots[i] == SlotOf(e, false, e.pos - i)
    {
      SampleSlot(e, e.pos - i);
    }
    assert Stored(slots, e, false) == slots;
    StoreLoad(slots, e);
  }

  lemma SampleSlot(e: DirEnt, o: nat)
    requires Storable(e) && o < e.count && e.entry[..11] == SAMPLE
    ensures SlotOf(e, false, o) ==
      if o == 0 then e.entry
      else LfnSlot(if o == e.count - 1 then o + 0x40 else o, 0xF4,
          LfnBuffer(e.name, e.count - 1)[13 * (o - 1)..13 * o])
  {
    hide LfnSlot, LfnBuffer, CheckSum;
    SampleCheckSum();
    NumberMarks(o);
  }

  /** A single-slot entry behind a stray long-name slot with its checksum. */
  predicate Mistaken(slots: seq<Slot>, e: DirEnt)
    requires e.pos < |slots|
  {
    e.count == 1 && e.pos > 0 && Continues(slots[e.pos - 1], CheckSum(ShortName(e.entry)), 1)
  }

  /** After a removal a scan skips every slot the entry used. */
  lemma DeletedIsSkipped(slots: seq<Slot>, e: DirEnt, i: nat)
    requires e.pos < |slots| && 0 < e.count && e.First() <= i <= e.pos
    ensures 0 <= e.First() ==> Skipped(Stored(slots, e.(entry := Gone(e.entry)), true)[i])
  {
    if 0 <= e.First() && i < e.pos {
      var g := e.(entry := Gone(e.entry));
      hide LfnSlot, LfnBuffer, CheckSum;
      LfnRoundTrip(DELETED, CheckSum(ShortName(g.entry)),
          LfnBuffer(g.name, g.count - 1)[LFN_CHARS * (e.pos - i - 1)..LFN_CHARS * (e.pos - i)]);
    }
  }

  /** The entry with the mark FatRemoveDirEnt puts into its name. */
  function Gone(s: Slot): Slot {
    s[0 := DELETED]
  }
}

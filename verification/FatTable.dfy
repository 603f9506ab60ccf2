/** FAT entries packed in bytes: reading and writing one entry of a FAT12, FAT16 or
    FAT32 table, and the table as the sequence of its entry values. */
module FatTable {
  import opened Bytes
  import opened FatTypes

  const MAX_UINTN: nat := 0xFFFF_FFFF_FFFF_FFFF

  /** All ones but the low four bits. */
  const SPECIAL_EXT: nat := MAX_UINTN - 0xF
  const SPECIAL: nat := SPECIAL_EXT + 7

  const FREE: nat := 0
  const LAST: nat := MAX_UINTN
  const MIN_CLUSTER: nat := 2

  predicate EndOfChain(cluster: nat) {
    cluster > SPECIAL
  }

  /** FAT_POS_FAT12, FAT_POS_FAT16, FAT_POS_FAT32. */
  function EntryPos(t: FatType, i: nat): nat {
    match t
    case Fat12 => i * 3 / 2
    case Fat16 => i * 2
    case Fat32 => i * 4
  }

  function EntrySize(t: FatType): nat {
    if t == Fat32 then 4 else 2
  }

  /** How many different values an entry holds. */
  function Range(t: FatType): nat {
    match t
    case Fat12 => 0x1000
    case Fat16 => 0x1_0000
    case Fat32 => 0x1000_0000
  }

  function Word(b: seq<Byte>): (w: nat)
    requires |b| >= 2
    ensures w < 0x1_0000
  {
    (b[0] as int) + 0x100 * (b[1] as int)
  }

  function WordBytes(w: nat): (b: seq<Byte>)
    requires w < 0x1_0000
    ensures |b| == 2 && Word(b) == w
  {
    [w % 0x100, w / 0x100]
  }

  function DWord(b: seq<Byte>): (w: nat)
    requires |b| >= 4
    ensures w < 0x1_0000_0000
  {
    Word(b) + 0x1_0000 * Word(b[2..])
  }

  function DWordBytes(w: nat): (b: seq<Byte>)
    requires w < 0x1_0000_0000
    ensures |b| == 4 && DWord(b) == w
  {
    var b := WordBytes(w % 0x1_0000) + WordBytes(w / 0x1_0000);
    assert b[2..] == WordBytes(w / 0x1_0000);
    b
  }

  /** The values from 0x..F7 on are special and get all their high bits set. */
  function Extend(t: FatType, x: nat): nat
    requires x < Range(t)
  {
    if x >= Range(t) - 9 then SPECIAL_EXT + x % 0x10 else x
  }

  /** What an entry holds after `value` was stored in it. */
  function Norm(t: FatType, value: nat): nat {
    Extend(t, value % Range(t))
  }

  /** FatGetFatEntry, once the bytes of entry `i` are in the buffer. */
  function Decode(t: FatType, i: nat, b: seq<Byte>): nat
    requires |b| >= EntrySize(t)
  {
    match t
    case Fat12 =>
      var accum := Word(b);
      Extend(t, if i % 2 != 0 then accum / 0x10 else accum % 0x1000)
    case Fat16 => Extend(t, Word(b))
    case Fat32 => Extend(t, DWord(b) % 0x1000_0000)
  }

  /** FatSetFatEntry's update of the buffer: the bits of entry `i` only. */
  function Encode(t: FatType, i: nat, b: seq<Byte>, value: nat): (r: seq<Byte>)
    requires |b| >= EntrySize(t)
    ensures |r| == EntrySize(t)
  {
    var v := value % Range(t);
    match t
    case Fat12 =>
      var accum := Word(b);
      WordBytes(if i % 2 != 0 then v * 0x10 + accum % 0x10 else v + accum / 0x1000 * 0x1000)
    case Fat16 => WordBytes(v)
    case Fat32 => DWordBytes(DWord(b) / 0x1000_0000 * 0x1000_0000 + v)
  }

  /** Entries `0..n` fit into the table. */
  predicate Fits(t: FatType, fat: seq<Byte>, n: nat) {
    n > 0 ==> EntryPos(t, n - 1) + EntrySize(t) <= |fat|
  }

  function EntryBytes(t: FatType, fat: seq<Byte>, i: nat): (b: seq<Byte>)
    requires Fits(t, fat, i + 1)
    ensures |b| == EntrySize(t)
  {
    Stretch(fat, EntryPos(t, i), EntrySize(t))
  }

  function Entry(t: FatType, fat: seq<Byte>, i: nat): nat
    requires Fits(t, fat, i + 1)
  {
    Decode(t, i, EntryBytes(t, fat, i))
  }

  /** A FAT12 entry as it lies on the disk, in one and a half bytes: the values from 0xFF7 on
      stand for those at the end of 64 bits. */
  lemma Fat12Value(fat: seq<Byte>, i: nat)
    requires Fits(Fat12, fat, i + 1)
    ensures i + i / 2 + 1 < |fat|
    ensures var x: int, y: int := fat[i + i / 2], fat[i + i / 2 + 1];
      var w := if i % 2 == 0 then x + 0x100 * (y % 0x10) else x / 0x10 + 0x10 * y;
      Entry(Fat12, fat, i) == if w >= 0xFF7 then 0xFFFF_FFFF_FFFF_FFF0 + w % 0x10 else w
  {
    EntryPlace(Fat12, i);
    var x, y := fat[i + i / 2], fat[i + i / 2 + 1];
    assert EntryBytes(Fat12, fat, i) == [x, y];
    OddNibbles(x, y);
    EvenNibbles(x, y);
  }

  /** A FAT16 entry, low byte first. */
  lemma Fat16Value(fat: seq<Byte>, i: nat)
    requires Fits(Fat16, fat, i + 1)
    ensures 2 * i + 1 < |fat|
    ensures var x: int, y: int := fat[2 * i], fat[2 * i + 1];
      var w := x + 0x100 * y;
      Entry(Fat16, fat, i) == if w >= 0xFFF7 then 0xFFFF_FFFF_FFFF_FFF0 + w % 0x10 else w
  {
  }

  /** A FAT32 entry, low byte first, without its top four bits. */
  lemma Fat32Value(fat: seq<Byte>, i: nat)
    requires Fits(Fat32, fat, i + 1)
    ensures 4 * i + 3 < |fat|
    ensures var x: int, y: int, z: int, u: int := fat[4 * i], fat[4 * i + 1], fat[4 * i + 2], fat[4 * i + 3];
      var w := x + 0x100 * y + 0x1_0000 * z + 0x100_0000 * (u % 0x10);
      Entry(Fat32, fat, i) == if w >= 0xFFF_FFF7 then 0xFFFF_FFFF_FFFF_FFF0 + w % 0x10 else w
  {
    var b := EntryBytes(Fat32, fat, i);
    assert b == fat[4 * i..4 * i + 4];
    DWordValue(b);
  }

  lemma DWordValue(b: seq<Byte>)
    requires |b| >= 4
    ensures var x: int, y: int, z: int, u: int := b[0], b[1], b[2], b[3];
      DWord(b) == 0x1000_0000 * (u / 0x10) + (x + 0x100 * y + 0x1_0000 * z + 0x100_0000 * (u % 0x10))
    ensures var x: int, y: int, z: int, u: int := b[0], b[1], b[2], b[3];
      && DWord(b) % 0x1000_0000 == x + 0x100 * y + 0x1_0000 * z + 0x100_0000 * (u % 0x10)
      && DWord(b) / 0x1000_0000 == u / 0x10
  {
    var x: int, y: int, z: int, u: int := b[0], b[1], b[2], b[3];
    Quotient(0x1000_0000, u / 0x10, x + 0x100 * y + 0x1_0000 * z + 0x100_0000 * (u % 0x10));
  }

  lemma EntryPlace(t: FatType, i: nat)
    ensures EntryPos(t, i) == match t case Fat12 => i + i / 2 case Fat16 => 2 * i case Fat32 => 4 * i
  {
  }

  /** The table after entry `i` was rewritten in place. */
  function Stored(t: FatType, fat: seq<Byte>, i: nat, value: nat): (r: seq<Byte>)
    requires Fits(t, fat, i + 1)
    ensures |r| == |fat|
  {
    Splice(fat, EntryPos(t, i), Encode(t, i, EntryBytes(t, fat, i), value))
  }

  /** What a set leaves in the bytes of a FAT16 or FAT32 entry: the value, low byte first,
      next to the four bits that are not part of a FAT32 entry. */
  lemma WideStored(t: FatType, fat: seq<Byte>, i: nat, value: nat)
    requires t != Fat12 && Fits(t, fat, i + 1)
    ensures t == Fat16 ==>
      2 * i + 1 < |fat| && Stretch(Stored(t, fat, i, value), 2 * i, 2) ==
      [value % 0x100, value / 0x100 % 0x100]
    ensures t == Fat32 ==>
      4 * i + 3 < |fat| && Stretch(Stored(t, fat, i, value), 4 * i, 4) ==
      [value % 0x100, value / 0x100 % 0x100, value / 0x1_0000 % 0x100,
       fat[4 * i + 3] / 0x10 * 0x10 + value / 0x100_0000 % 0x10]
  {
    EntryPlace(t, i);
    var b := EntryBytes(t, fat, i);
    if t == Fat16 {
      EncodeWord(i, b, value);
    } else {
      EncodeDWord(i, b, value);
      assert b[3] == fat[4 * i + 3];
    }
    hide EntryPos, Encode, Fits;
    assert Stretch(Stored(t, fat, i, value), EntryPos(t, i), EntrySize(t)) == Encode(t, i, b, value);
  }

  /** ... and in those of a FAT12 entry, next to four bits of its neighbour. */
  lemma PackedStored(fat: seq<Byte>, i: nat, value: nat)
    requires Fits(Fat12, fat, i + 1)
    ensures i + i / 2 + 1 < |fat|
    ensures var x, y := fat[i + i / 2], fat[i + i / 2 + 1];
      Stretch(Stored(Fat12, fat, i, value), i + i / 2, 2) ==
        if i % 2 == 0 then [value % 0x100, y / 0x10 * 0x10 + value / 0x100 % 0x10]
        else [x % 0x10 + value % 0x10 * 0x10, value / 0x10 % 0x100]
  {
    EntryPlace(Fat12, i);
    var b := EntryBytes(Fat12, fat, i);
    EncodePair(i, b, value);
    assert b == [fat[i + i / 2], fat[i + i / 2 + 1]];
    hide EntryPos, Encode, Fits;
    assert Stretch(Stored(Fat12, fat, i, value), EntryPos(Fat12, i), 2) == Encode(Fat12, i, b, value);
  }

  lemma EncodePair(i: nat, b: seq<Byte>, value: nat)
    requires |b| >= 2
    ensures Encode(Fat12, i, b, value) ==
      if i % 2 == 0 then [value % 0x100, b[1] / 0x10 * 0x10 + value / 0x100 % 0x10]
      else [b[0] % 0x10 + value % 0x10 * 0x10, value / 0x10 % 0x100]
  {
    if i % 2 == 0 {
      LowPair(b[0], b[1], value);
    } else {
      HighPair(b[0], b[1], value);
    }
  }

  lemma LowPair(x: Byte, y: Byte, value: nat)
    ensures var w := value % 0x1000 + (x + 0x100 * (y as int)) / 0x1000 * 0x1000;
      w % 0x100 == value % 0x100 && w / 0x100 == y / 0x10 * 0x10 + value / 0x100 % 0x10
  {
    var q, r := value / 0x100, value % 0x100;
    Quotient(0x1000, q / 0x10, r + 0x100 * (q % 0x10));
    Quotient(0x1000, y / 0x10, x + 0x100 * ((y % 0x10) as int));
    Quotient(0x100, q % 0x10 + y / 0x10 * 0x10, r);
  }

  lemma HighPair(x: Byte, y: Byte, value: nat)
    ensures var w := value % 0x1000 * 0x10 + (x + 0x100 * (y as int)) % 0x10;
      w % 0x100 == x % 0x10 + value % 0x10 * 0x10 && w / 0x100 == value / 0x10 % 0x100
  {
    var q, r := value / 0x10, value % 0x10;
    Quotient(0x1000, q / 0x100, r + 0x10 * (q % 0x100));
    Quotient(0x10, x / 0x10 + 0x10 * (y as int), x % 0x10);
    Quotient(0x100, q % 0x100, r * 0x10 + x % 0x10);
  }

  /** The four lowest digits to the base 0x100, and what is above the third. */
  lemma Digits(w: nat, a: nat, b: nat, c: nat, d: nat)
    requires a < 0x100 && b < 0x100 && c < 0x100 && w == a + 0x100 * b + 0x1_0000 * c + 0x100_0000 * d
    ensures w % 0x100 == a && w / 0x100 % 0x100 == b && w / 0x1_0000 % 0x100 == c && w / 0x100_0000 == d
    ensures w % 0x1_0000 == a + 0x100 * b && w / 0x1_0000 == c + 0x100 * d
  {
    Quotient(0x100, b + 0x100 * c + 0x1_0000 * d, a);
    Quotient(0x100, c + 0x100 * d, b);
    Quotient(0x1_0000, c + 0x100 * d, a + 0x100 * b);
    Quotient(0x100, d, c);
    assert w / 0x100_0000 == d;
  }

  lemma EncodeWord(i: nat, b: seq<Byte>, value: nat)
    requires |b| >= 2
    ensures Encode(Fat16, i, b, value) == [value % 0x100, value / 0x100 % 0x100]
  {
    var v := value % 0x1_0000;
    var q := value / 0x1_0000;
    Digits(value, v % 0x100, v / 0x100, q % 0x100, q / 0x100);
  }

  lemma EncodeDWord(i: nat, b: seq<Byte>, value: nat)
    requires |b| >= 4
    ensures Encode(Fat32, i, b, value) ==
      [value % 0x100, value / 0x100 % 0x100, value / 0x1_0000 % 0x100, b[3] / 0x10 * 0x10 + value / 0x100_0000 % 0x10]
  {
    DWordValue(b);
    var q := value / 0x100;
    var q' := q / 0x100;
    var x, y, z, u := value % 0x100, q % 0x100, q' % 0x100, q' / 0x100;
    var top := b[3] / 0x10;
    hide DWord, DWordBytes;
    Digits(value, x, y, z, u);
    Quotient(0x1000_0000, u / 0x10, x + 0x100 * y + 0x1_0000 * z + 0x100_0000 * (u % 0x10));
    LittleEndian(DWord(b) / 0x1000_0000 * 0x1000_0000 + value % 0x1000_0000, x, y, z, top * 0x10 + u % 0x10);
  }

  lemma LittleEndian(w: nat, x: Byte, y: Byte, z: Byte, u: Byte)
    requires w == x + 0x100 * (y as int) + 0x1_0000 * (z as int) + 0x100_0000 * (u as int)
    ensures w < 0x1_0000_0000 && DWordBytes(w) == [x, y, z, u]
  {
    Digits(w, x, y, z, u);
    Quotient(0x100, y, x);
    Quotient(0x100, u, z);
  }

  /** Get after set: the value, with special values extended. */
  lemma GetAfterSet(t: FatType, fat: seq<Byte>, i: nat, value: nat)
    requires Fits(t, fat, i + 1)
    ensures Entry(t, Stored(t, fat, i, value), i) == Norm(t, value)
  {
    var was := EntryBytes(t, fat, i);
    DecodeEncode(t, i, was, value);
    var b := Encode(t, i, was, value);
    hide Encode, Decode, EntryPos;
    assert EntryBytes(t, Stored(t, fat, i, value), i) == b;
  }

  lemma DecodeEncode(t: FatType, i: nat, b: seq<Byte>, value: nat)
    requires |b| >= EntrySize(t)
    ensures Decode(t, i, Encode(t, i, b, value)) == Norm(t, value)
  {
    hide Extend, WordBytes, DWordBytes;
    match t
    case Fat12 => PackedPair(Word(b), value % Range(t));
    case Fat16 =>
    case Fat32 => PackedTop(DWord(b), value % Range(t));
  }

  lemma PackedPair(accum: nat, v: nat)
    requires accum < 0x1_0000 && v < 0x1000
    ensures (v * 0x10 + accum % 0x10) / 0x10 == v
    ensures (v + accum / 0x1000 * 0x1000) % 0x1000 == v
  {
  }

  lemma PackedTop(w: nat, v: nat)
    requires w < 0x1_0000_0000 && v < 0x1000_0000
    ensures (w / 0x1000_0000 * 0x1000_0000 + v) % 0x1000_0000 == v
  {
  }

  /** Setting an entry leaves every other one alone, also where two FAT12 entries share
      a byte. */
  lemma SetElsewhere(t: FatType, fat: seq<Byte>, i: nat, value: nat, j: nat)
    requires Fits(t, fat, i + 1) && Fits(t, fat, j + 1) && i != j
    ensures Entry(t, Stored(t, fat, i, value), j) == Entry(t, fat, j)
  {
    if t == Fat12 && i % 2 == 0 && j == i + 1 {
      SharedHighByte(fat, i, value);
    } else if t == Fat12 && i % 2 == 1 && j == i - 1 {
      SharedLowByte(fat, i, value);
    } else {
      EntriesApart(t, i, j);
      hide Encode, Decode, EntryPos;
      StretchElsewhere(fat, EntryPos(t, i), Encode(t, i, EntryBytes(t, fat, i), value), EntryPos(t, j), EntrySize(t));
    }
  }

  lemma EntriesApart(t: FatType, i: nat, j: nat)
    requires i != j
    requires t == Fat12 ==> !(i % 2 == 0 && j == i + 1) && !(i % 2 == 1 && j == i - 1)
    ensures EntryPos(t, i) + EntrySize(t) <= EntryPos(t, j) || EntryPos(t, j) + EntrySize(t) <= EntryPos(t, i)
  {
    match t
    case Fat12 =>
      HalfSteps(i);
      HalfSteps(j);
      hide EntryPos;
      assert i / 2 < j / 2 || j / 2 < i / 2;
    case Fat16 =>
    case Fat32 =>
  }

  /** One and a half bytes an entry. */
  lemma HalfSteps(i: nat)
    ensures EntryPos(Fat12, i) == 3 * (i / 2) + i % 2
  {
  }

  /** An even FAT12 entry shares its second byte with its odd successor: the high nibble. */
  lemma SharedHighByte(fat: seq<Byte>, i: nat, value: nat)
    requires Fits(Fat12, fat, i + 2) && i % 2 == 0
    ensures Entry(Fat12, Stored(Fat12, fat, i, value), i + 1) == Entry(Fat12, fat, i + 1)
  {
    HalfSteps(i);
    HalfSteps(i + 1);
    hide Encode, Decode, EntryPos;
    var p := EntryPos(Fat12, i);
    var b := Encode(Fat12, i, EntryBytes(Fat12, fat, i), value);
    NibblesKept(i, EntryBytes(Fat12, fat, i), value);
    AcrossSplice(fat, p, b);
    DecodeOdd(i + 1, fat[p + 1], b[1], fat[p + 2]);
  }

  /** An odd FAT12 entry shares its first byte with its even predecessor: the low nibble. */
  lemma SharedLowByte(fat: seq<Byte>, i: nat, value: nat)
    requires Fits(Fat12, fat, i + 1) && i % 2 == 1
    ensures Entry(Fat12, Stored(Fat12, fat, i, value), i - 1) == Entry(Fat12, fat, i - 1)
  {
    HalfSteps(i);
    HalfSteps(i - 1);
    hide Encode, Decode, EntryPos;
    var p := EntryPos(Fat12, i);
    var b := Encode(Fat12, i, EntryBytes(Fat12, fat, i), value);
    NibblesKept(i, EntryBytes(Fat12, fat, i), value);
    AcrossSplice(fat, p, b);
    DecodeEven(i - 1, fat[p - 1], fat[p], b[0]);
  }

  lemma DecodeOdd(i: nat, x: Byte, x': Byte, y: Byte)
    requires i % 2 == 1 && x / 0x10 == x' / 0x10
    ensures Decode(Fat12, i, [x, y]) == Decode(Fat12, i, [x', y])
  {
    hide Extend;
    OddNibbles(x, y);
    OddNibbles(x', y);
  }

  lemma DecodeEven(i: nat, x: Byte, y: Byte, y': Byte)
    requires i % 2 == 0 && y % 0x10 == y' % 0x10
    ensures Decode(Fat12, i, [x, y]) == Decode(Fat12, i, [x, y'])
  {
    hide Extend;
    EvenNibbles(x, y);
    EvenNibbles(x, y');
  }

  /** The byte pairs that overlap an overwritten pair on either side. */
  lemma AcrossSplice(fat: seq<Byte>, p: nat, b: seq<Byte>)
    requires |b| == 2 && p + 2 <= |fat|
    ensures Stretch(fat, p, 2) == [fat[p], fat[p + 1]]
    ensures p + 2 < |fat| ==> Stretch(fat, p + 1, 2) == [fat[p + 1], fat[p + 2]]
    ensures p + 2 < |fat| ==> Stretch(Splice(fat, p, b), p + 1, 2) == [b[1], fat[p + 2]]
    ensures p > 0 ==> Stretch(fat, p - 1, 2) == [fat[p - 1], fat[p]]
    ensures p > 0 ==> Stretch(Splice(fat, p, b), p - 1, 2) == [fat[p - 1], b[0]]
  {
  }

  /** What FatSetFatEntry keeps of the byte shared by two FAT12 entries. */
  lemma NibblesKept(i: nat, b: seq<Byte>, value: nat)
    requires |b| >= 2
    ensures i % 2 == 0 ==> Encode(Fat12, i, b, value)[1] / 0x10 == b[1] / 0x10
    ensures i % 2 == 1 ==> Encode(Fat12, i, b, value)[0] % 0x10 == b[0] % 0x10
  {
    EncodePair(i, b, value);
    hide Encode;
    Quotient(0x10, b[1] / 0x10, value / 0x100 % 0x10);
    Quotient(0x10, value % 0x10, b[0] % 0x10);
  }

  lemma Quotient(m: nat, q: int, r: nat)
    requires m in {0x10, 0x100, 0x1000, 0x1_0000, 0x1000_0000} && r < m
    ensures (m * q + r) / m == q && (m * q + r) % m == r
  {
  }

  lemma OddNibbles(x: Byte, y: Byte)
    ensures Word([x, y]) / 0x10 == x / 0x10 + 0x10 * y
  {
  }

  lemma EvenNibbles(x: Byte, y: Byte)
    ensures Word([x, y]) % 0x1000 == x + 0x100 * (y % 0x10)
  {
  }

  /** The top four bits of a FAT32 entry survive. */
  lemma TopNibbleKept(fat: seq<Byte>, i: nat, value: nat)
    requires Fits(Fat32, fat, i + 1)
    ensures DWord(EntryBytes(Fat32, Stored(Fat32, fat, i, value), i)) / 0x1000_0000 ==
      DWord(EntryBytes(Fat32, fat, i)) / 0x1000_0000
  {
    assert EntryBytes(Fat32, Stored(Fat32, fat, i, value), i) == Encode(Fat32, i, EntryBytes(Fat32, fat, i), value);
  }

  /** The entry values of the first `n` entries; the two that are no clusters read 0. */
  function ClusterTable(t: FatType, fat: seq<Byte>, n: nat): (r: seq<nat>)
    requires Fits(t, fat, n)
    ensures |r| == n
  {
    seq(n, i requires 0 <= i < n => if i < MIN_CLUSTER then 0 else Entry(t, fat, i))
  }

  lemma FitsBelow(t: FatType, fat: seq<Byte>, n: nat, i: nat)
    requires Fits(t, fat, n) && i < n
    ensures Fits(t, fat, i + 1)
    ensures forall fat': seq<Byte> | |fat'| == |fat| :: Fits(t, fat', n)
  {
  }

  /** Setting an entry of the packed table sets that element of the value table. */
  lemma TableAfterSet(t: FatType, fat: seq<Byte>, n: nat, i: nat, value: nat)
    requires Fits(t, fat, n) && MIN_CLUSTER <= i < n
    ensures ClusterTable(t, Stored(t, fat, i, value), n) == ClusterTable(t, fat, n)[i := Norm(t, value)]
  {
    hide Entry, Stored, Norm, Fits;
    FitsBelow(t, fat, n, i);
    FitsBelow(t, Stored(t, fat, i, value), n, n - 1);
    var r, r' := ClusterTable(t, fat, n), ClusterTable(t, Stored(t, fat, i, value), n);
    forall j | MIN_CLUSTER <= j < n
      ensures r'[j] == if j == i then Norm(t, value) else r[j]
    {
      FitsBelow(t, fat, n, j);
      if j == i {
        GetAfterSet(t, fat, i, value);
      } else {
        SetElsewhere(t, fat, i, value, j);
      }
    }
  }

  /** FatAccessVolumeDirty, when the volume is not yet marked: entry 1 of a FAT16 or
      FAT32 table becomes the dirty mark. */
  function Marked(t: FatType, fat: seq<Byte>, dirty: bool, mark: seq<Byte>): (r: seq<Byte>)
    requires EntrySize(t) + |mark| <= |fat|
    ensures |r| == |fat|
  {
    if !dirty && t != Fat12 then Splice(fat, EntrySize(t), mark) else fat
  }

  /** The mark is entry 1 and no other. */
  lemma MarkElsewhere(t: FatType, fat: seq<Byte>, dirty: bool, mark: seq<Byte>, j: nat)
    requires Fits(t, fat, j + 1) && j != 1 && |mark| == EntrySize(t)
    requires j == 0 ==> Fits(t, fat, MIN_CLUSTER + 1)
    ensures EntrySize(t) + |mark| <= |fat|
    ensures EntryBytes(t, Marked(t, fat, dirty, mark), j) == EntryBytes(t, fat, j)
  {
    if !dirty && t != Fat12 {
      StretchElsewhere(fat, EntrySize(t), mark, EntryPos(t, j), EntrySize(t));
    }
  }

  /** Where the mark lies; a volume already marked and a FAT12 volume get none. */
  lemma MarkStored(t: FatType, fat: seq<Byte>, dirty: bool, mark: seq<Byte>)
    requires |mark| == EntrySize(t) && 2 * |mark| <= |fat|
    ensures t == Fat16 && !dirty ==> Marked(t, fat, dirty, mark)[2..4] == mark
    ensures t == Fat32 && !dirty ==> Marked(t, fat, dirty, mark)[4..8] == mark
    ensures t == Fat12 || dirty ==> Marked(t, fat, dirty, mark) == fat
  {
  }

  lemma TableAfterMark(t: FatType, fat: seq<Byte>, dirty: bool, mark: seq<Byte>, n: nat)
    requires Fits(t, fat, n) && n > MIN_CLUSTER && |mark| == EntrySize(t)
    ensures EntrySize(t) + |mark| <= |fat|
    ensures ClusterTable(t, Marked(t, fat, dirty, mark), n) == ClusterTable(t, fat, n)
  {
    MarkElsewhere(t, fat, dirty, mark, MIN_CLUSTER);
    var r, r' := ClusterTable(t, fat, n), ClusterTable(t, Marked(t, fat, dirty, mark), n);
    forall j | MIN_CLUSTER <= j < n
      ensures r'[j] == r[j]
    {
      MarkElsewhere(t, fat, dirty, mark, j);
    }
  }

  /** A longer buffer that starts with the bytes of the entry decodes and encodes alike. */
  lemma FrontOfBuffer(t: FatType, i: nat, b: seq<Byte>, buffer: seq<Byte>, value: nat)
    requires |b| == EntrySize(t) <= |buffer| && buffer[..|b|] == b
    ensures Decode(t, i, buffer) == Decode(t, i, b)
    ensures Encode(t, i, buffer, value) == Encode(t, i, b, value)
  {
    assert buffer[0] == b[0] && buffer[1] == b[1];
    if t == Fat32 {
      assert buffer[2..][0] == b[2..][0] && buffer[2..][1] == b[2..][1];
    }
  }

  /** Cluster numbers, the free mark and the end mark are stored as they are. */
  lemma NormOfClusters(t: FatType, v: nat)
    requires v < Range(t) - 9 || v == LAST
    ensures Norm(t, v) == v
  {
    if v == LAST {
      assert v % Range(t) == Range(t) - 1 && (Range(t) - 1) % 0x10 == 0xF by {
        assert LAST % 0x1000 == 0xFFF && LAST % 0x1_0000 == 0xFFFF && LAST % 0x1000_0000 == 0xFFF_FFFF;
      }
    } else {
      Quotient(Range(t), 0, v);
    }
  }

  /** The two writes of FatSetFatEntry: the mark, then the buffer with the new entry. */
  lemma WriteEntry(t: FatType, fat: seq<Byte>, dirty: bool, mark: seq<Byte>, n: nat, i: nat, buffer: seq<Byte>,
      value: nat)
    requires Fits(t, fat, n) && MIN_CLUSTER <= i < n && |mark| == EntrySize(t)
    requires Fits(t, fat, i + 1) && |buffer| == 4 && buffer[..EntrySize(t)] == EntryBytes(t, fat, i)
    ensures EntrySize(t) + |mark| <= |fat|
    ensures var marked := Marked(t, fat, dirty, mark);
      && Fits(t, marked, n) && Fits(t, marked, i + 1)
      && Splice(marked, EntryPos(t, i), Encode(t, i, buffer, value)) == Stored(t, marked, i, value)
      && ClusterTable(t, Stored(t, marked, i, value), n) == ClusterTable(t, fat, n)[i := Norm(t, value)]
      && (t == Fat16 && !dirty ==> Stored(t, marked, i, value)[2..4] == mark)
      && (t == Fat32 && !dirty ==> Stored(t, marked, i, value)[4..8] == mark)
  {
    hide Encode, Decode, ClusterTable, Norm;
    MarkStored(t, fat, dirty, mark);
    FrontOfBuffer(t, i, EntryBytes(t, fat, i), buffer, value);
    MarkElsewhere(t, fat, dirty, mark, i);
    TableAfterMark(t, fat, dirty, mark, n);
    TableAfterSet(t, Marked(t, fat, dirty, mark), n, i, value);
  }

  /** What FatSetFatEntry stores for an index beyond the table, where the loaded bytes are all
      ones: on FAT16 and FAT32 the entry loaded before gets the value, on FAT12 if its number
      has the same parity. */
  lemma BeyondIsLoaded(t: FatType, fat: seq<Byte>, loaded: nat, index: nat, value: nat)
    requires Fits(t, fat, loaded + 1) && (t == Fat12 ==> index % 2 == loaded % 2)
    ensures Entry(t, Splice(fat, EntryPos(t, loaded), Encode(t, index, [0xFF, 0xFF, 0xFF, 0xFF], value)), loaded) ==
      Norm(t, value)
  {
    var ones: seq<Byte> := [0xFF, 0xFF, 0xFF, 0xFF];
    DecodeEncode(t, index, ones, value);
    var b := Encode(t, index, ones, value);
    SameParity(t, index, loaded, b);
    hide Encode, Decode, EntryPos;
    assert EntryBytes(t, Splice(fat, EntryPos(t, loaded), b), loaded) == b;
  }

  /** ... and on FAT16 and FAT32 no other one changes. */
  lemma BeyondTable(t: FatType, fat: seq<Byte>, n: nat, loaded: nat, index: nat, value: nat)
    requires t != Fat12 && Fits(t, fat, n) && MIN_CLUSTER <= loaded < n
    ensures EntryPos(t, loaded) + EntrySize(t) <= |fat|
    ensures var r := Splice(fat, EntryPos(t, loaded), Encode(t, index, [0xFF, 0xFF, 0xFF, 0xFF], value));
      Fits(t, r, n) && ClusterTable(t, r, n) == ClusterTable(t, fat, n)[loaded := Norm(t, value)]
  {
    FitsBelow(t, fat, n, loaded);
    var b := Encode(t, index, [0xFF, 0xFF, 0xFF, 0xFF], value);
    var r := Splice(fat, EntryPos(t, loaded), b);
    FitsBelow(t, fat, n, n - 1);
    forall j | MIN_CLUSTER <= j < n
      ensures ClusterTable(t, r, n)[j] == ClusterTable(t, fat, n)[loaded := Norm(t, value)][j]
    {
      FitsBelow(t, fat, n, j);
      FitsBelow(t, r, n, j);
      if j == loaded {
        BeyondIsLoaded(t, fat, loaded, index, value);
      } else {
        EntriesApart(t, loaded, j);
        BesideKept(t, fat, EntryPos(t, loaded), b, j);
      }
    }
  }

  lemma BesideKept(t: FatType, fat: seq<Byte>, at: nat, b: seq<Byte>, j: nat)
    requires Fits(t, fat, j + 1) && at + |b| <= |fat|
    requires at + |b| <= EntryPos(t, j) || EntryPos(t, j) + EntrySize(t) <= at
    ensures Entry(t, Splice(fat, at, b), j) == Entry(t, fat, j)
  {
    hide Decode, EntryPos;
    StretchElsewhere(fat, at, b, EntryPos(t, j), EntrySize(t));
  }

  lemma SameParity(t: FatType, i: nat, j: nat, b: seq<Byte>)
    requires |b| >= EntrySize(t) && (t == Fat12 ==> i % 2 == j % 2)
    ensures Decode(t, i, b) == Decode(t, j, b)
  {
  }

  lemma FrontOfSplice(b: seq<Byte>, e: seq<Byte>)
    requires |e| <= |b|
    ensures Stretch(Splice(b, 0, e), 0, |e|) == e
  {
  }

  lemma MarkFits(t: FatType, fat: seq<Byte>, n: nat)
    requires Fits(t, fat, n) && n > MIN_CLUSTER
    ensures EntrySize(t) + EntrySize(t) <= |fat|
    ensures forall fat': seq<Byte> | |fat'| == |fat| :: Fits(t, fat', n)
  {
  }
}

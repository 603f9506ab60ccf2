/** File names: upper and lower case of the English collation, 8.3 names, case flags and
    the checksum that ties long-name slots to a short name. */
module FatNames {
  import opened Bytes
  import opened FatTypes

  /** CHAR16. */
  type Char = c: int | 0 <= c < 0x1_0000

  const DOT: Char := 0x2E
  const BLANK: Char := 0x20

  predicate LowerLetter(c: Char) {
    0x61 <= c <= 0x7A || 0xE0 <= c <= 0xF6 || 0xF8 <= c <= 0xFE
  }

  predicate UpperLetter(c: Char) {
    0x41 <= c <= 0x5A || 0xC0 <= c <= 0xD6 || 0xD8 <= c <= 0xDE
  }

  function Upper(c: Char): Char {
    if LowerLetter(c) then c - 0x20 else c
  }

  function Lower(c: Char): Char {
    if UpperLetter(c) then c + 0x20 else c
  }

  /** EngStrUpr and EngStrLwr. */
  function UpperAll(s: seq<Char>): (r: seq<Char>)
    ensures |r| == |s| && forall i :: 0 <= i < |s| ==> r[i] == Upper(s[i])
  {
    seq(|s|, i requires 0 <= i < |s| => Upper(s[i]))
  }

  function LowerAll(s: seq<Char>): (r: seq<Char>)
    ensures |r| == |s| && forall i :: 0 <= i < |s| ==> r[i] == Lower(s[i])
  {
    seq(|s|, i requires 0 <= i < |s| => Lower(s[i]))
  }

  /** FatStriCmp: equal but for case. */
  predicate SameName(a: seq<Char>, b: seq<Char>) {
    UpperAll(a) == UpperAll(b)
  }

  /** Names of ASCII characters are the same if they differ at most in the case of letters. */
  lemma CaseBlind(a: seq<Char>, b: seq<Char>)
    requires (forall i :: 0 <= i < |a| ==> a[i] < 0x80) && forall i :: 0 <= i < |b| ==> b[i] < 0x80
    ensures SameName(a, b) <==> |a| == |b| && forall i :: 0 <= i < |a| ==>
      || a[i] == b[i]
      || ('a' as int <= a[i] <= 'z' as int && b[i] == a[i] - 'a' as int + 'A' as int)
      || ('a' as int <= b[i] <= 'z' as int && a[i] == b[i] - 'a' as int + 'A' as int)
  {
    if SameName(a, b) {
      assert |UpperAll(a)| == |UpperAll(b)|;
      forall i | 0 <= i < |a|
        ensures Upper(a[i]) == Upper(b[i])
      {
        assert UpperAll(a)[i] == UpperAll(b)[i];
      }
    }
  }

  /** The characters of an 8.3 name: letters, digits, and `\\._^$~!#%&-{}()@` and quotes. */
  predicate Legal(c: Char) {
    LowerLetter(c) || UpperLetter(c) || 0x30 <= c <= 0x39
    || c in {0x5C, 0x2E, 0x5F, 0x5E, 0x24, 0x7E, 0x21, 0x23, 0x25, 0x26, 0x2D, 0x7B, 0x7D, 0x28, 0x29, 0x40, 0x60, 0x27}
  }

  /** One character in a FAT name. */
  function FatByte(c: Char): Byte {
    if c < 0x100 && Legal(c) then Upper(c) else 0x5F
  }

  /** Letters become upper case, digits stay, and what is not legal becomes `_`. */
  lemma FatByteExactly(c: Char)
    ensures 'A' as int <= c <= 'Z' as int || '0' as int <= c <= '9' as int ==> FatByte(c) == c
    ensures 'a' as int <= c <= 'z' as int ==> FatByte(c) == c - 'a' as int + 'A' as int
    ensures !Legal(c) ==> FatByte(c) == '_' as int
  {
  }

  /** EngStrToFat: at most `n` characters, and whether one of them had to be replaced. */
  function StrToFat(s: seq<Char>, n: nat): (r: (seq<Byte>, bool))
    ensures |r.0| <= n
    decreases |s|
  {
    if s == [] || n == 0 then ([], false)
    else if s[0] == DOT || s[0] == BLANK then StrToFat(s[1..], n)
    else
      var (rest, bad) := StrToFat(s[1..], n - 1);
      ([FatByte(s[0])] + rest, bad || !Legal(s[0]))
  }

  function Blanks(n: nat): (r: seq<Byte>)
    ensures |r| == n && forall i :: 0 <= i < n ==> r[i] == BLANK
  {
    seq(n, _ => BLANK)
  }

  function Padded(s: seq<Byte>, n: nat): (r: seq<Byte>)
    requires |s| <= n
    ensures |r| == n
  {
    s + Blanks(n - |s|)
  }

  /** Position of the last dot; the length of the name when there is none. */
  function LastDot(s: seq<Char>): (d: nat)
    ensures d <= |s| && (d < |s| ==> s[d] == DOT) && forall i :: d < i < |s| ==> s[i] != DOT
    ensures d == |s| ==> forall i :: 0 <= i < |s| ==> s[i] != DOT
  {
    if s == [] then 0
    else if s[|s| - 1] == DOT then |s| - 1
    else
      var d := LastDot(s[..|s| - 1]);
      if d == |s| - 1 then |s| else d
  }

  function Extension(s: seq<Char>): seq<Char> {
    if LastDot(s) == |s| then [] else s[LastDot(s) + 1..]
  }

  function Min(a: nat, b: nat): nat {
    if a < b then a else b
  }

  /** The 11 bytes FatCheckIs8Dot3Name fills in. */
  function ShortBytes(s: seq<Char>): (r: seq<Byte>)
    ensures |r| == 11
  {
    Padded(StrToFat(s, Min(LastDot(s), 8)).0, 8) + Padded(StrToFat(Extension(s), Min(|Extension(s)|, 3)).0, 3)
  }

  /** FatCheckIs8Dot3Name's answer. */
  predicate Is8Dot3(s: seq<Char>) {
    && (forall i :: 0 <= i < |s| && (s[i] == DOT || s[i] == BLANK) ==> i == LastDot(s))
    && 0 < LastDot(s) <= 8 && |Extension(s)| <= 3
    && !StrToFat(s, LastDot(s)).1 && !StrToFat(Extension(s), |Extension(s)|).1
  }

  /** The legal characters of seven bits. */
  lemma LegalAscii(c: char)
    requires (c as int) < 0x80
    ensures Legal(c as int) <==>
      || 'A' <= c <= 'Z' || 'a' <= c <= 'z' || '0' <= c <= '9'
      || c in {'\\', '.', '_', '^', '$', '~', '!', '#', '%', '&', '-', '{', '}', '(', ')', '@', '`', '\''}
  {
  }

  /** An 8.3 name: one to eight legal characters, and perhaps a dot and up to three more. */
  lemma EightDotThree(s: seq<Char>)
    ensures Is8Dot3(s) <==> exists m :: 0 < m <= 8 && m <= |s| && MainAndExtension(s, m)
  {
    hide Legal, StrToFat;
    if Is8Dot3(s) {
      PartsAreLegal(s);
      assert MainAndExtension(s, LastDot(s));
    }
    if m :| 0 < m <= 8 && m <= |s| && MainAndExtension(s, m) {
      assert LastDot(s) == m;
      PartsAreLegal(s);
    }
  }

  lemma PartsAreLegal(s: seq<Char>)
    requires forall i :: 0 <= i < |s| && (s[i] == DOT || s[i] == BLANK) ==> i == LastDot(s)
    ensures !StrToFat(s, LastDot(s)).1 && !StrToFat(Extension(s), |Extension(s)|).1 <==>
      forall i :: 0 <= i < |s| && i != LastDot(s) ==> Legal(s[i])
  {
    hide Legal, StrToFat;
    var d, ext := LastDot(s), Extension(s);
    assert s[..d] + s[d..] == s && ext + [] == ext;
    PlainToFat(s[..d], d, s[d..]);
    PlainToFat(ext, |ext|, []);
    assert forall i :: d < i < |s| ==> s[i] == ext[i - d - 1];
  }

  /** The first `m` characters and those behind the next, a dot. */
  ghost predicate MainAndExtension(s: seq<Char>, m: nat)
    requires m <= |s|
  {
    && (m < |s| ==> s[m] == DOT && |s| <= m + 4)
    && forall i :: 0 <= i < |s| && i != m ==> Legal(s[i]) && s[i] != DOT && s[i] != BLANK
  }

  const NAME_LOWER: Byte := 0x08
  const EXT_LOWER: Byte := 0x10

  /** FatCheckNameCase: the flag for lower case, 0 for upper case, None for mixed. */
  function NameCase(s: seq<Char>, flag: Byte): Option<Byte> {
    if UpperAll(s) == s then Some(0)
    else if LowerAll(s) == s then Some(flag)
    else None
  }

  /** FatSetCaseFlag: None when the name needs a long-name slot for its case. */
  function CaseFlag(s: seq<Char>): Option<Byte> {
    var ext := if LastDot(s) == |s| then Some(0) else NameCase(Extension(s), EXT_LOWER);
    match (NameCase(s[..LastDot(s)], NAME_LOWER), ext)
    case (Some(a), Some(b)) => Some((a as int) + b)
    case (_, _) => None
  }

  /** FatTrimAsciiTrailingBlanks. */
  function Trimmed(s: seq<Byte>): seq<Byte> {
    if s != [] && s[|s| - 1] == BLANK then Trimmed(s[..|s| - 1]) else s
  }

  /** EngFatToStr: up to a NUL. */
  function FatToStr(s: seq<Byte>): seq<Char> {
    if s == [] || s[0] == 0 then [] else [s[0] as Char] + FatToStr(s[1..])
  }

  /** FatNameToStr. */
  function NameToStr(s: seq<Byte>, lower: bool): seq<Char> {
    var r := FatToStr(Trimmed(s));
    if lower then LowerAll(r) else r
  }

  /** FatGetFileNameViaCaseFlag. */
  function NameViaCaseFlag(short: seq<Byte>, flag: Byte): seq<Char>
    requires |short| == 11
  {
    var name := NameToStr(short[..8], (flag / 8) % 2 == 1);
    var ext := NameToStr(short[8..], (flag / 16) % 2 == 1);
    if ext == [] then name else name + [DOT] + ext
  }

  /** Flag 0x08 lowers the main part, 0x10 the extension. */
  lemma CaseFlagSamples()
    ensures var short := ['A' as int, 'B' as int] + Blanks(6) + ['C' as int] + Blanks(2);
      && NameViaCaseFlag(short, 0) == ['A' as int, 'B' as int, '.' as int, 'C' as int]
      && NameViaCaseFlag(short, 0x08) == ['a' as int, 'b' as int, '.' as int, 'C' as int]
      && NameViaCaseFlag(short, 0x10) == ['A' as int, 'B' as int, '.' as int, 'c' as int]
  {
    var short := ['A' as int, 'B' as int] + Blanks(6) + ['C' as int] + Blanks(2);
    assert short[..8] == Padded(['A' as int, 'B' as int], 8) && short[8..] == Padded(['C' as int], 3);
    PaddedToStr(['A' as int, 'B' as int], 8);
    PaddedToStr(['C' as int], 3);
    hide NameToStr, Padded;
    assert LowerAll(['A' as int, 'B' as int]) == ['a' as int, 'b' as int] && LowerAll(['C' as int]) == ['c' as int];
  }

  lemma PaddedToStr(s: seq<Byte>, n: nat)
    requires |s| <= n && 0 !in s && s != [] && s[|s| - 1] != BLANK
    ensures NameToStr(Padded(s, n), false) == s && NameToStr(Padded(s, n), true) == LowerAll(s)
  {
    TrimPadded(s, n);
    FatToStrAll(s);
    assert FatToStr(s) == s;
  }

  /** The characters FatFileNameIsValid lets through: no control characters, and none of those
      with a meaning in paths, wildcards and redirections. */
  predicate ValidChar(c: Char) {
    c >= 0x20 && c !in {0x22, 0x2A, 0x2F, 0x3A, 0x3C, 0x3E, 0x3F, 0x5C, 0x7C}
  }

  /** A name as FatFileNameIsValid leaves it: 1 to 255 characters, no blank in front, no
      dot or blank at the end. */
  ghost predicate ValidName(s: seq<Char>) {
    && 0 < |s| <= 255 && (forall i :: 0 <= i < |s| ==> ValidChar(s[i]))
    && s[0] != BLANK && s[|s| - 1] != DOT && s[|s| - 1] != BLANK
  }

  /** The short name of a part of a name without dots, blanks or odd characters. */
  lemma {:induction false} PlainToFat(s: seq<Char>, n: nat, t: seq<Char>)
    requires n == |s| && (forall i :: 0 <= i < |s| ==> s[i] != DOT && s[i] != BLANK)
    ensures |StrToFat(s + t, n).0| == n && forall i :: 0 <= i < n ==> StrToFat(s + t, n).0[i] == FatByte(s[i])
    ensures !StrToFat(s + t, n).1 <==> forall i :: 0 <= i < n ==> Legal(s[i])
  {
    if n > 0 {
      assert (s + t)[1..] == s[1..] + t;
      PlainToFat(s[1..], n - 1, t);
      assert forall i :: 0 < i < n ==> s[1..][i - 1] == s[i];
    }
  }

  /** Dots and blanks make no difference, wherever they are. */
  lemma {:induction false} DotsIgnored(s: seq<Char>, c: Char, t: seq<Char>, n: nat)
    requires c == '.' as int || c == ' ' as int
    ensures StrToFat(s + [c] + t, n) == StrToFat(s + t, n)
    decreases |s|
  {
    if s == [] {
      assert s + [c] + t == [c] + t && ([c] + t)[1..] == t && s + t == t;
    } else {
      assert (s + [c] + t)[1..] == s[1..] + [c] + t && (s + t)[1..] == s[1..] + t;
      DotsIgnored(s[1..], c, t, n);
      if n > 0 {
        DotsIgnored(s[1..], c, t, n - 1);
      }
    }
  }

  lemma {:induction false} TrimPadded(s: seq<Byte>, n: nat)
    requires |s| <= n && (s == [] || s[|s| - 1] != BLANK)
    ensures Trimmed(Padded(s, n)) == s
    decreases n
  {
    if |s| == n {
      assert Padded(s, n) == s;
    } else {
      assert Padded(s, n)[..n - 1] == Padded(s, n - 1);
      TrimPadded(s, n - 1);
    }
  }

  lemma {:induction false} FatToStrAll(s: seq<Byte>)
    requires 0 !in s
    ensures |FatToStr(s)| == |s| && forall i :: 0 <= i < |s| ==> FatToStr(s)[i] == s[i]
  {
    if s != [] {
      assert s[0] in s && s == [s[0]] + s[1..];
      FatToStrAll(s[1..]);
    }
  }

  /** A FAT name is read up to a NUL. */
  lemma {:induction false} FatToStrStops(s: seq<Byte>)
    ensures var n := |FatToStr(s)|;
      n <= |s| && FatToStr(s) == s[..n] && 0 !in s[..n] && (n < |s| ==> s[n] == 0)
  {
    if s != [] && s[0] != 0 {
      FatToStrStops(s[1..]);
      var n := |FatToStr(s)|;
      assert s[..n] == [s[0]] + s[1..][..n - 1];
    }
  }

  /** Padding, trimming and the case flag give a part of a name back. */
  lemma PartRoundTrip(s: seq<Char>, t: seq<Char>, n: nat, flag: Byte)
    requires |s| <= n && (forall i :: 0 <= i < |s| ==> s[i] != DOT && s[i] != BLANK && Legal(s[i]))
    requires flag > 0 && NameCase(s, flag).Some?
    ensures NameToStr(Padded(StrToFat(s + t, |s|).0, n), NameCase(s, flag).value == flag) == s
  {
    hide StrToFat, Padded, Trimmed, FatToStr, Legal;
    PlainToFat(s, |s|, t);
    var b := StrToFat(s + t, |s|).0;
    LegalBytes(s);
    assert forall i :: 0 <= i < |s| ==> b[i] == Upper(s[i]);
    assert 0 !in b && (b == [] || b[|b| - 1] != BLANK);
    TrimPadded(b, n);
    FatToStrAll(b);
    CasedBack(s, FatToStr(b), flag);
  }

  lemma LegalBytes(s: seq<Char>)
    requires forall i :: 0 <= i < |s| ==> Legal(s[i])
    ensures forall i :: 0 <= i < |s| ==>
      s[i] < 0x100 && FatByte(s[i]) == Upper(s[i]) && (s[i] != BLANK ==> Upper(s[i]) != BLANK) && Upper(s[i]) != 0
  {
  }

  /** Lowering an upper-cased text again gives a text that was all lower case. */
  lemma CasedBack(s: seq<Char>, r: seq<Char>, flag: Byte)
    requires flag > 0 && NameCase(s, flag).Some? && |r| == |s| && forall i :: 0 <= i < |s| ==> r[i] == Upper(s[i])
    ensures (if NameCase(s, flag).value == flag then LowerAll(r) else r) == s
  {
    if UpperAll(s) == s {
      assert forall i :: 0 <= i < |s| ==> UpperAll(s)[i] == s[i];
    } else {
      assert forall i :: 0 <= i < |s| ==> LowerAll(s)[i] == s[i];
    }
  }

  /** A valid 8.3 name in one case per part comes back from its short name and case flag. */
  lemma ShortNameRoundTrip(s: seq<Char>)
    requires ValidName(s) && Is8Dot3(s) && CaseFlag(s).Some?
    ensures NameViaCaseFlag(ShortBytes(s), CaseFlag(s).value) == s
  {
    hide Padded, StrToFat, NameToStr, UpperAll, LowerAll, Legal;
    var d, ext := LastDot(s), Extension(s);
    var main := s[..d];
    assert main + s[d..] == s && ext + [] == ext;
    MainIsPlain(s);
    hide NameCase;
    PartRoundTrip(main, s[d..], 8, NAME_LOWER);
    CaseValues(main, NAME_LOWER);
    CaseValues(ext, EXT_LOWER);
    assert ShortBytes(s)[..8] == Padded(StrToFat(s, d).0, 8);
    assert ShortBytes(s)[8..] == Padded(StrToFat(ext, |ext|).0, 3);
    PartRoundTrip(ext, [], 3, EXT_LOWER);
    assert d < |s| ==> s == main + [DOT] + ext;
  }

  lemma CaseValues(s: seq<Char>, flag: Byte)
    ensures NameCase(s, flag).Some? ==> NameCase(s, flag).value in {0, flag}
    ensures s == [] ==> NameCase(s, flag) == Some(0)
  {
  }

  lemma MainIsPlain(s: seq<Char>)
    requires ValidName(s) && Is8Dot3(s)
    ensures var main, ext := s[..LastDot(s)], Extension(s);
      && (forall i :: 0 <= i < |main| ==> main[i] != DOT && main[i] != BLANK && Legal(main[i]))
      && (forall i :: 0 <= i < |ext| ==> ext[i] != DOT && ext[i] != BLANK && Legal(ext[i]))
      && (ext == [] <==> LastDot(s) == |s|)
  {
    hide Legal, StrToFat;
    var main, ext := s[..LastDot(s)], Extension(s);
    assert main + s[LastDot(s)..] == s && ext + [] == ext;
    PlainToFat(main, |main|, s[LastDot(s)..]);
    PlainToFat(ext, |ext|, []);
  }

  /** No FAT name produced here begins like a free or a deleted slot. */
  lemma {:induction false} FatBytesAreNames(s: seq<Char>, n: nat)
    ensures forall i :: 0 <= i < |StrToFat(s, n).0| ==> StrToFat(s, n).0[i] != 0 && StrToFat(s, n).0[i] != 0xE5
    decreases |s|
  {
    if s != [] && n > 0 {
      FatBytesAreNames(s[1..], n);
      FatBytesAreNames(s[1..], n - 1);
    }
  }

  lemma ShortBytesAreNames(s: seq<Char>)
    ensures ShortBytes(s)[0] != 0 && ShortBytes(s)[0] != 0xE5
  {
    FatBytesAreNames(s, Min(LastDot(s), 8));
  }

  // ---- generated short names ----

  const SPEC_RETRY: nat := 4
  const TILDE: Byte := 0x7E

  /** The base tag: the main name without trailing blanks, at most `limit` bytes of it. */
  function BaseTagLen(base: seq<Byte>, limit: nat): (n: nat)
    requires |base| == 11
    ensures n <= limit
  {
    Min(|Trimmed(base[..8])|, limit)
  }

  /** Four hexadecimal digits of the name's checksum. */
  function HashTag(crc: nat): (r: seq<Byte>)
    ensures |r| == 4 && forall i :: 0 <= i < 4 ==> 0x30 <= r[i] <= 0x46
  {
    [HexByte(crc % 0x10), HexByte(crc / 0x100 % 0x10), HexByte(crc / 0x1_0000 % 0x10), HexByte(crc / 0x100_0000 % 0x10)]
  }

  function HexByte(n: nat): (b: Byte)
    requires n < 16
    ensures 0x30 <= b <= 0x46
  {
    if n > 9 then n - 10 + 0x41 else n + 0x30
  }

  /** The `k`-th name FatCreate8Dot3Name tries: base~1 to base~4, then with the checksum. */
  function Candidate(crc: nat, base: seq<Byte>, k: nat): (r: seq<Byte>)
    requires |base| == 11
    ensures |r| == 11
  {
    if k < SPEC_RETRY then Splice(base, BaseTagLen(base, 6), [TILDE, 0x31 + k])
    else Splice(base, BaseTagLen(base, 2), HashTag(crc) + [TILDE, (0x31 + k - SPEC_RETRY) % 0x100])
  }

  /** The base tag ends where only blanks follow, or at the limit. */
  lemma TagLength(base: seq<Byte>, limit: nat)
    requires |base| == 11 && limit <= 8
    ensures var n := BaseTagLen(base, limit);
      n <= limit && (n < limit ==> Blank(base[n..8])) && (n > 0 ==> !Blank(base[n - 1..8]))
  {
    hide Trimmed;
    var main, n := base[..8], BaseTagLen(base, limit);
    TrimmedIsFront(main);
    var m := |Trimmed(main)|;
    assert main[m..] == base[m..8];
    if n > 0 {
      assert base[n - 1..8][m - n] == base[m - 1] == main[m - 1];
    }
  }

  /** The shape of the names tried: at most six bytes of the main name, then `~` and a digit
      from 1 to 4; later at most two, the digits of the checksum, `~` and a counter. */
  lemma CandidateShape(crc: nat, base: seq<Byte>, k: nat) returns (n: nat)
    requires |base| == 11
    ensures var limit := if k < 4 then 6 else 2;
      n <= limit && (n < limit ==> Blank(base[n..8])) && (n > 0 ==> !Blank(base[n - 1..8]))
    ensures Candidate(crc, base, k) ==
      if k < 4 then base[..n] + ['~' as int, '1' as int + k] + base[n + 2..]
      else base[..n] + (HashTag(crc) + ['~' as int, ('1' as int + k - 4) % 0x100]) + base[n + 6..]
  {
    hide BaseTagLen, HashTag, Trimmed;
    n := BaseTagLen(base, if k < 4 then 6 else 2);
    TagLength(base, if k < 4 then 6 else 2);
  }

  lemma HashDigits(crc: nat)
    ensures HashTag(crc) ==
      ["0123456789ABCDEF"[crc % 0x10] as int, "0123456789ABCDEF"[crc / 0x100 % 0x10] as int,
       "0123456789ABCDEF"[crc / 0x1_0000 % 0x10] as int, "0123456789ABCDEF"[crc / 0x100_0000 % 0x10] as int]
  {
  }

  ghost predicate Blank(s: seq<Byte>) {
    forall i :: 0 <= i < |s| ==> s[i] == BLANK
  }

  lemma {:induction false} TrimmedIsFront(s: seq<Byte>)
    ensures |Trimmed(s)| <= |s| && Trimmed(s) == s[..|Trimmed(s)|] && Blank(s[|Trimmed(s)|..])
    ensures Trimmed(s) != [] ==> s[|Trimmed(s)| - 1] != BLANK
    decreases |s|
  {
    if s != [] && s[|s| - 1] == BLANK {
      var t := s[..|s| - 1];
      TrimmedIsFront(t);
      var m := |Trimmed(t)|;
      assert s[..m] == t[..m] && s[m..] == t[m..] + [BLANK];
    }
  }

  lemma CandidateIsName(crc: nat, base: seq<Byte>, k: nat)
    requires |base| == 11 && base[0] != 0 && base[0] != 0xE5
    ensures Candidate(crc, base, k)[0] != 0 && Candidate(crc, base, k)[0] != 0xE5
  {
    hide Trimmed;
  }
}

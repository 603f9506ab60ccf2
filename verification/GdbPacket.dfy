/** Packets of the GDB remote serial protocol: framing, checksum, retransmission and the
    escaping of library lists. */
module GdbPacket {
  import opened Bytes
  import opened FatTypes

  const START: Byte := 0x24  // '$'
  const STOP: Byte := 0x23   // '#'
  const ESCAPE: Byte := 0x7d // '}'
  const STAR: Byte := 0x2a   // '*'
  const ACK: Byte := 0x2b    // '+'
  const NACK: Byte := 0x2d   // '-'

  /** The UINT8 sum of the payload. */
  function CheckSum(p: seq<Byte>): Byte {
    if p == [] then 0 else (CheckSum(p[..|p| - 1]) + p[|p| - 1]) % 256
  }

  /** mHexToStr. */
  function HexDigit(n: nat): Byte
    requires n < 16
  {
    if n < 10 then 0x30 + n else 0x41 + n - 10
  }

  function HexValue(c: Byte): Option<nat> {
    if 0x41 <= c <= 0x46 then Some(c - 0x41 + 10)
    else if 0x61 <= c <= 0x66 then Some(c - 0x61 + 10)
    else if 0x30 <= c <= 0x39 then Some(c - 0x30)
    else None
  }

  /** AsciiStrHexToUintn on two characters: leading blanks are skipped, and the number ends
      at the first character that is no digit. */
  function ParseHex(a: Byte, b: Byte): nat {
    match (HexValue(a), HexValue(b))
    case (Some(x), Some(y)) => 16 * x + y
    case (Some(x), None) => x
    case (None, Some(y)) => if a == 0x20 || a == 0x09 then y else 0
    case (None, None) => 0
  }

  /** The digits 0 to 9, a to f and A to F, each worth its place. */
  lemma DigitValues(n: nat)
    requires n < 16
    ensures HexValue("0123456789abcdef"[n] as int) == HexValue("0123456789ABCDEF"[n] as int) == Some(n)
    ensures HexDigit(n) == "0123456789ABCDEF"[n] as int
  {
  }

  /** Two digits in either case are a byte, the higher one first. */
  lemma DigitPairs(x: nat, y: nat)
    requires x < 16 && y < 16
    ensures ParseHex("0123456789abcdef"[x] as int, "0123456789abcdef"[y] as int) == 16 * x + y
    ensures ParseHex("0123456789ABCDEF"[x] as int, "0123456789ABCDEF"[y] as int) == 16 * x + y
    ensures ParseHex("0123456789ABCDEF"[x] as int, "0123456789abcdef"[y] as int) == 16 * x + y
    ensures ParseHex("0123456789abcdef"[x] as int, "0123456789ABCDEF"[y] as int) == 16 * x + y
  {
    DigitValues(x);
    DigitValues(y);
    hide HexValue;
  }

  /** A digit in front of no digit counts alone, and so does one behind a blank or a tab; any
      other pair is worth 0. */
  lemma OddPairs(a: Byte, b: Byte)
    ensures HexValue(a).Some? <==>
      '0' as int <= a <= '9' as int || 'a' as int <= a <= 'f' as int || 'A' as int <= a <= 'F' as int
    ensures HexValue(a).Some? && HexValue(b).None? ==> Some(ParseHex(a, b)) == HexValue(a)
    ensures a in {' ' as int, '\t' as int} && HexValue(b).Some? ==> Some(ParseHex(a, b)) == HexValue(b)
    ensures HexValue(a).None? && (a !in {' ' as int, '\t' as int} || HexValue(b).None?) ==> ParseHex(a, b) == 0
  {
  }

  /** The checksum is the sum of the bytes, without the carries out of eight bits. */
  lemma {:induction false} CheckSumAdds(s: seq<Byte>, t: seq<Byte>)
    ensures CheckSum(s + t) == (CheckSum(s) + CheckSum(t)) % 256
    decreases |t|
  {
    hide CheckSum;
    if t == [] {
      assert s + t == s;
      CheckSumNext(s, 0);
    } else {
      var n := |t| - 1;
      CheckSumAdds(s, t[..n]);
      CheckSumNext(t[..n], t[n]);
      CheckSumNext(s + t[..n], t[n]);
      assert t[..n] + [t[n]] == t && s + t[..n] + [t[n]] == s + t;
      AddMod(CheckSum(s), CheckSum(t[..n]), t[n]);
    }
  }

  lemma CheckSumNext(s: seq<Byte>, b: Byte)
    ensures CheckSum([]) == 0 && CheckSum(s + [b]) == (CheckSum(s) + b) % 256 && CheckSum([b]) == b
  {
    assert (s + [b])[..|s|] == s;
  }

  lemma AddMod(x: nat, y: nat, z: nat)
    ensures ((x + y) % 256 + z) % 256 == (x + (y + z) % 256) % 256
  {
  }

  /** What goes over the line for a payload. */
  function Frame(p: seq<Byte>): seq<Byte> {
    [START] + p + [STOP, HexDigit(CheckSum(p) / 16), HexDigit(CheckSum(p) % 16)]
  }

  /** `n` transmissions of the same frame. */
  function Frames(p: seq<Byte>, n: nat): seq<Byte> {
    if n == 0 then [] else Frames(p, n - 1) + Frame(p)
  }

  /** Neither '$' nor '#'. */
  ghost predicate Plain(p: seq<Byte>) {
    forall i :: 0 <= i < |p| ==> p[i] != START && p[i] != STOP
  }

  ghost predicate NoStart(p: seq<Byte>) {
    forall i :: 0 <= i < |p| ==> p[i] != START
  }

  // ---- receiving, as a function of the bytes on the line ----

  /** The bytes between a '$' and the '#', or `limit` bytes; and what is left on the line. */
  datatype Scan = Scan(data: seq<Byte>, rest: seq<Byte>) | Starved

  function Collect(input: seq<Byte>, limit: nat, data: seq<Byte>): (r: Scan)
    ensures r.Scan? ==> |r.rest| <= |input|
    decreases |input|
  {
    if |data| >= limit then Scan(data, input)
    else if input == [] then Starved
    else if input[0] == START then Collect(input[1..], limit, [])
    else if input[0] == STOP then Scan(data, input[1..])
    else Collect(input[1..], limit, data + [input[0]])
  }

  /** A packet, what is left on the line, and the acknowledgements sent; or a receiver that
      waits for more bytes. */
  datatype Reception = Received(data: seq<Byte>, rest: seq<Byte>, acks: seq<Byte>) | Waiting(acks: seq<Byte>)

  function Receive(input: seq<Byte>, limit: nat): Reception
    decreases |input|
  {
    if input == [] then Waiting([])
    else if input[0] != START then Receive(input[1..], limit)
    else
      var scan := Collect(input[1..], limit, []);
      if scan.Starved? || |scan.rest| < 2 then Waiting([])
      else if ParseHex(scan.rest[0], scan.rest[1]) == CheckSum(scan.data)
          then Received(scan.data, scan.rest[2..], [ACK])
      else After([NACK], Receive(scan.rest[2..], limit))
  }


  /** A reception after the acknowledgements `acks`. */
  function After(acks: seq<Byte>, r: Reception): Reception {
    match r
    case Received(data, rest, more) => Received(data, rest, acks + more)
    case Waiting(more) => Waiting(acks + more)
  }

  lemma AfterNone(r: Reception)
    ensures After([], r) == r
  {
    match r
    case Received(_, _, acks) => assert [] + acks == acks;
    case Waiting(acks) => assert [] + acks == acks;
  }

  /** Waiting, accepting and refusing after some answers. */
  lemma AfterAnswers(acks: seq<Byte>)
    ensures After(acks, Waiting([])) == Waiting(acks)
    ensures forall d, rest {:trigger Received(d, rest, [ACK])} ::
      After(acks, Received(d, rest, [ACK])) == Received(d, rest, acks + [ACK])
    ensures forall r :: After(acks, After([NACK], r)) == After(acks + [NACK], r)
  {
    forall r
      ensures After(acks, After([NACK], r)) == After(acks + [NACK], r)
    {
      match r
      case Received(_, _, more) => assert acks + ([NACK] + more) == acks + [NACK] + more;
      case Waiting(more) => assert acks + ([NACK] + more) == acks + [NACK] + more;
    }
    assert acks + [] == acks;
  }

  /** As much of a plain text as fits is collected. */
  lemma {:induction false} CollectPrefix(p: seq<Byte>, tail: seq<Byte>, limit: nat, data: seq<Byte>)
    requires Plain(p) && |data| + |p| <= limit
    ensures Collect(p + tail, limit, data) == Collect(tail, limit, data + p)
    decreases |p|
  {
    if p == [] {
      assert p + tail == tail && data + p == data;
    } else {
      CollectPrefix(p[1..], tail, limit, data + [p[0]]);
      assert (p + tail)[1..] == p[1..] + tail && data + [p[0]] + p[1..] == data + p;
    }
  }

  lemma CollectPlain(p: seq<Byte>, tail: seq<Byte>, limit: nat)
    requires Plain(p)
    ensures |p| < limit ==> Collect(p + [STOP] + tail, limit, []) == Scan(p, tail)
    ensures |p| < limit ==> Collect(p + [START] + tail, limit, []) == Collect(tail, limit, [])
    ensures limit <= |p| ==> Collect(p + tail, limit, []) == Scan(p[..limit], p[limit..] + tail)
  {
    if |p| < limit {
      assert [] + p == p;
      CollectPrefix(p, [STOP] + tail, limit, []);
      CollectPrefix(p, [START] + tail, limit, []);
      assert p + [STOP] + tail == p + ([STOP] + tail) && p + [START] + tail == p + ([START] + tail);
    } else {
      assert [] + p[..limit] == p[..limit];
      CollectPrefix(p[..limit], p[limit..] + tail, limit, []);
      assert p[..limit] + (p[limit..] + tail) == p + tail;
    }
  }

  /** Packets begun and abandoned by starting the next one. */
  function Abandoned(js: seq<seq<Byte>>): seq<Byte> {
    if js == [] then [] else [START] + js[0] + Abandoned(js[1..])
  }

  ghost predicate Short(js: seq<seq<Byte>>, limit: nat) {
    forall i :: 0 <= i < |js| ==> Plain(js[i]) && |js[i]| < limit
  }

  lemma {:induction false} CollectLast(js: seq<seq<Byte>>, p: seq<Byte>, a: Byte, b: Byte, rest: seq<Byte>, limit: nat)
    requires Short(js, limit) && Plain(p) && |p| < limit
    ensures var s := Abandoned(js) + ([START] + p + [STOP, a, b] + rest);
      s[0] == START && Collect(s[1..], limit, []) == Scan(p, [a, b] + rest)
    decreases |js|
  {
    var f := [START] + p + [STOP, a, b] + rest;
    var s := Abandoned(js) + f;
    if js == [] {
      assert s[1..] == p + [STOP] + ([a, b] + rest);
      CollectPlain(p, [a, b] + rest, limit);
    } else {
      CollectLast(js[1..], p, a, b, rest, limit);
      var t := Abandoned(js[1..]) + f;
      assert s[1..] == js[0] + [START] + t[1..];
      CollectPlain(js[0], t[1..], limit);
    }
  }

  lemma {:induction false} SkipNoise(noise: seq<Byte>, s: seq<Byte>, limit: nat)
    requires NoStart(noise)
    ensures Receive(noise + s, limit) == Receive(s, limit)
  {
    if noise == [] {
      assert noise + s == s;
    } else {
      assert (noise + s)[1..] == noise[1..] + s;
      SkipNoise(noise[1..], s, limit);
    }
  }

  lemma HexRoundTrip(n: Byte)
    ensures ParseHex(HexDigit(n / 16), HexDigit(n % 16)) == n
  {
  }

  /** After any noise without '$' and any abandoned packets the receiver gets the payload. */
  lemma ReceivesFrame(noise: seq<Byte>, js: seq<seq<Byte>>, p: seq<Byte>, rest: seq<Byte>, limit: nat)
    requires NoStart(noise) && Short(js, limit) && Plain(p) && |p| < limit
    ensures Receive(noise + (Abandoned(js) + (Frame(p) + rest)), limit) == Received(p, rest, [ACK])
  {
    var a, b := HexDigit(CheckSum(p) / 16), HexDigit(CheckSum(p) % 16);
    assert Frame(p) + rest == [START] + p + [STOP, a, b] + rest;
    CollectLast(js, p, a, b, rest, limit);
    HexRoundTrip(CheckSum(p));
    SkipNoise(noise, Abandoned(js) + (Frame(p) + rest), limit);
    assert ([a, b] + rest)[2..] == rest;
    hide CheckSum, Collect, ParseHex, HexDigit;
  }

  /** What Receive makes of a scan that left `left` on the line. */
  lemma ScanDecides(s: seq<Byte>, limit: nat, data: seq<Byte>, left: seq<Byte>)
    requires s != [] && s[0] == START && Collect(s[1..], limit, []) == Scan(data, left)
    ensures var r := Receive(s, limit);
      r.Received? && r.acks == [ACK] ==> r.data == data && |left| >= 2 && r.rest == left[2..]
    ensures |left| >= 2 && ParseHex(left[0], left[1]) == CheckSum(data) ==>
      Receive(s, limit) == Received(data, left[2..], [ACK])
    ensures |left| >= 2 && ParseHex(left[0], left[1]) != CheckSum(data) ==>
      Receive(s, limit) == After([NACK], Receive(left[2..], limit))
  {
    if |left| >= 2 {
      var more := Receive(left[2..], limit);
      assert After([NACK], more).acks[0] == NACK;
    }
  }

  /** A payload is received as sent exactly when a NUL and one more byte have room after it. */
  lemma ReceivesExactlyShort(p: seq<Byte>, rest: seq<Byte>, limit: nat)
    requires Plain(p)
    ensures Receive(Frame(p) + rest, limit) == Received(p, rest, [ACK]) <==> |p| < limit
  {
    if |p| < limit {
      ReceivesFrame([], [], p, rest, limit);
      assert [] + (Abandoned([]) + (Frame(p) + rest)) == Frame(p) + rest;
    } else {
      var tail := [STOP, HexDigit(CheckSum(p) / 16), HexDigit(CheckSum(p) % 16)] + rest;
      assert (Frame(p) + rest)[1..] == p + tail;
      CollectPlain(p, tail, limit);
      ScanDecides(Frame(p) + rest, limit, p[..limit], p[limit..] + tail);
      hide Collect, Receive;
      assert |p[limit..] + tail| == |p| - limit + 3 + |rest|;
    }
  }

  /** A transmission that was damaged on the line: its checksum does not fit. */
  datatype Damage = Damage(data: seq<Byte>, a: Byte, b: Byte)

  ghost predicate Detectable(bad: seq<Damage>, limit: nat) {
    forall i :: 0 <= i < |bad| ==>
      Plain(bad[i].data) && |bad[i].data| < limit && ParseHex(bad[i].a, bad[i].b) != CheckSum(bad[i].data)
  }

  function Line(bad: seq<Damage>): seq<Byte> {
    if bad == [] then [] else [START] + bad[0].data + [STOP, bad[0].a, bad[0].b] + Line(bad[1..])
  }

  function Nacks(n: nat): seq<Byte> {
    if n == 0 then [] else [NACK] + Nacks(n - 1)
  }

  /** A damaged frame is refused, and the receiver goes on behind it. */
  lemma RefusesDamage(d: Damage, more: seq<Byte>, limit: nat)
    requires Detectable([d], limit)
    ensures Receive([START] + d.data + [STOP, d.a, d.b] + more, limit) == After([NACK], Receive(more, limit))
  {
    hide CheckSum, Collect, ParseHex, HexDigit, Receive;
    assert [d][0] == d;
    var s := [START] + d.data + [STOP, d.a, d.b] + more;
    CollectLast([], d.data, d.a, d.b, more, limit);
    assert Abandoned([]) + s == s && ([d.a, d.b] + more)[2..] == more;
    ScanDecides(s, limit, d.data, [d.a, d.b] + more);
  }

  lemma {:induction false} ReceivesAfterDamage(bad: seq<Damage>, p: seq<Byte>, rest: seq<Byte>, limit: nat)
    requires Detectable(bad, limit) && Plain(p) && |p| < limit
    ensures Receive(Line(bad) + (Frame(p) + rest), limit) == Received(p, rest, Nacks(|bad|) + [ACK])
    decreases |bad|
  {
    hide CheckSum, Collect, ParseHex, HexDigit, Receive, Frame;
    var good := Frame(p) + rest;
    if bad == [] {
      ReceivesFrame([], [], p, rest, limit);
      assert [] + (Abandoned([]) + good) == good && Line(bad) + good == good && Nacks(0) + [ACK] == [ACK];
    } else {
      var d := bad[0];
      var more := Line(bad[1..]) + good;
      ReceivesAfterDamage(bad[1..], p, rest, limit);
      RefusesDamage(d, more, limit);
      assert Line(bad) + good == [START] + d.data + [STOP, d.a, d.b] + more;
      assert [NACK] + (Nacks(|bad| - 1) + [ACK]) == Nacks(|bad|) + [ACK];
    }
  }

  // ---- sending ----

  /** How many frames SendPacket sends when it reads `acks`; nothing when it waits for one. */
  function Attempts(acks: seq<Byte>, retries: nat): Option<nat> {
    if retries == 0 then Some(0)
    else if acks == [] then None
    else if acks[0] == ACK then Some(1)
    else match Attempts(acks[1..], retries - 1)
      case Some(n) => Some(n + 1)
      case None => None
  }

  lemma {:induction false} AttemptsUntilAck(k: nat, more: seq<Byte>, retries: nat)
    ensures Attempts(Nacks(k) + [ACK] + more, retries) == Some(if k + 1 <= retries then k + 1 else retries)
  {
    if k > 0 && retries > 0 {
      AttemptsUntilAck(k - 1, more, retries - 1);
      assert (Nacks(k) + [ACK] + more)[1..] == Nacks(k - 1) + [ACK] + more;
    } else if retries > 0 {
      assert Nacks(k) + [ACK] + more == [ACK] + more;
    }
  }

  /** Both ends together: when the line damages the first frames detectably and the sender
      may still try, the receiver ends with the payload, and its answers make the sender
      send exactly that many frames and no more. */
  lemma Dialogue(bad: seq<Damage>, p: seq<Byte>, rest: seq<Byte>, limit: nat, retries: nat)
    requires Detectable(bad, limit) && Plain(p) && |p| < limit && |bad| < retries
    ensures var r := Receive(Line(bad) + (Frame(p) + rest), limit);
      r.Received? && r.data == p && r.rest == rest && Attempts(r.acks, retries) == Some(|bad| + 1)
  {
    ReceivesAfterDamage(bad, p, rest, limit);
    AttemptsUntilAck(|bad|, [], retries);
    assert Nacks(|bad|) + [ACK] + [] == Nacks(|bad|) + [ACK];
  }

  // ---- escaping ----

  predicate Special(c: Byte) {
    c == ESCAPE || c == STOP || c == START || c == STAR
  }

  /** c ^ 0x20. */
  function Flip(c: Byte): Byte {
    if (c / 32) % 2 == 1 then c - 32 else c + 32
  }

  function Escape(s: seq<Byte>): seq<Byte> {
    if s == [] then [] else Escape(s[..|s| - 1]) + EscapeChar(s[|s| - 1])
  }

  /** What the debugger does with a binary response. */
  function Unescape(s: seq<Byte>): seq<Byte> {
    if s == [] then []
    else if s[0] == ESCAPE && |s| > 1 then [Flip(s[1])] + Unescape(s[2..])
    else [s[0]] + Unescape(s[1..])
  }

  lemma {:induction false} EscapeIsPlain(s: seq<Byte>)
    ensures Plain(Escape(s)) && STAR !in Escape(s) && (0 !in s ==> 0 !in Escape(s)) && |Escape(s)| <= 2 * |s|
    decreases |s|
  {
    if s != [] {
      EscapeIsPlain(s[..|s| - 1]);
    }
  }

  /** The escaped form of one character. */
  function EscapeChar(c: Byte): seq<Byte> {
    if Special(c) then [ESCAPE, Flip(c)] else [c]
  }

  lemma UnescapeChar(c: Byte, t: seq<Byte>)
    ensures Unescape(EscapeChar(c) + t) == [c] + Unescape(t)
  {
    var e := EscapeChar(c);
    assert (e + t)[|e|..] == t;
  }

  lemma {:induction false} UnescapeAfterEscape(s: seq<Byte>, t: seq<Byte>)
    ensures Unescape(Escape(s) + t) == s + Unescape(t)
    decreases |s|
  {
    hide EscapeChar, Unescape;
    if s == [] {
      assert Escape(s) + t == t && s + Unescape(t) == Unescape(t);
    } else {
      var c := s[|s| - 1];
      assert Escape(s) + t == Escape(s[..|s| - 1]) + (EscapeChar(c) + t);
      UnescapeAfterEscape(s[..|s| - 1], EscapeChar(c) + t);
      UnescapeChar(c, t);
      assert s[..|s| - 1] + ([c] + Unescape(t)) == s + Unescape(t);
    }
  }

  /** The four characters that are escaped, and what they become. */
  lemma EscapedChars(c: Byte)
    ensures EscapeChar('}' as int) == ['}' as int, ']' as int] && EscapeChar('#' as int) == ['}' as int, 0x03]
    ensures EscapeChar('$' as int) == ['}' as int, 0x04] && EscapeChar('*' as int) == ['}' as int, 0x0A]
    ensures c !in ['}' as int, '#' as int, '$' as int, '*' as int] ==> EscapeChar(c) == [c]
  {
  }

  /** The packet `$OK#9A`. */
  lemma OkPacket()
    ensures Frame(['O' as int, 'K' as int]) ==
      ['$' as int, 'O' as int, 'K' as int, '#' as int, '9' as int, 'A' as int]
  {
    CheckSumNext([], 'O' as int);
    CheckSumNext(['O' as int], 'K' as int);
    assert ['O' as int] + ['K' as int] == ['O' as int, 'K' as int];
  }

  /** An escaped text that fits is received as sent and unescapes to the original. */
  lemma EscapedTextArrives(text: seq<Byte>, rest: seq<Byte>, limit: nat)
    requires |Escape(text)| < limit
    ensures var r := Receive(Frame(Escape(text)) + rest, limit);
      r.Received? && Unescape(r.data) == text && r.rest == rest
  {
    EscapeIsPlain(text);
    ReceivesExactlyShort(Escape(text), rest, limit);
    UnescapeAfterEscape(text, []);
    assert Escape(text) + [] == Escape(text) && text + Unescape([]) == text;
  }

  // ---- the code ----

  /** The characters before the NUL. */
  function Text(buffer: seq<Byte>): (r: seq<Byte>)
    requires 0 in buffer
    ensures |r| < |buffer| && r == buffer[..|r|] && buffer[|r|] == 0 && 0 !in r
  {
    if buffer[0] == 0 then [] else
      assert buffer == [buffer[0]] + buffer[1..];
      [buffer[0]] + Text(buffer[1..])
  }

  /** The debug port: bytes still to be read, and bytes written. */
  class Port {
    var input: seq<Byte>
    var output: seq<Byte>

    constructor (input: seq<Byte>)
      ensures this.input == input && output == []
    {
      this.input := input;
      output := [];
    }

    /** One transmission of the text in `buffer`. */
    method SendFrame(buffer: seq<Byte>) returns (count: nat)
      requires 0 in buffer
      modifies this`output
      ensures count == |Text(buffer)| && output == old(output) + Frame(Text(buffer))
    {
      hide HexDigit, Text;
      ghost var p := Text(buffer);
      output := output + [START];
      var checkSum: Byte := 0;
      count := 0;
      CheckSumNone(p[..0]);
      while buffer[count] != 0
        invariant count <= |p| && checkSum == CheckSum(p[..count])
        invariant output == old(output) + [START] + p[..count]
        decreases |p| - count
      {
        TextAt(buffer, count);
        output := output + [buffer[count]];
        CheckSumStep(p, count);
        checkSum := (checkSum + buffer[count]) % 256;
        count := count + 1;
      }
      TextAt(buffer, count);
      assert p[..count] == p;
      output := output + [STOP] + [HexDigit(checkSum / 16)] + [HexDigit(checkSum % 16)];
    }

    /** SendPacket; None stands for waiting for an acknowledgement for ever. */
    method SendPacket(buffer: seq<Byte>, retries: nat) returns (sent: Option<nat>)
      requires 0 in buffer
      modifies this
      ensures sent.Some? <==> Attempts(old(input), retries).Some?
      ensures sent.Some? ==>
        var n := Attempts(old(input), retries).value;
        && output == old(output) + Frames(Text(buffer), n) && n <= |old(input)| && input == old(input)[n..]
        && sent.value == if n == 0 then 0 else |Text(buffer)|
    {
      hide Text, Frames, Frame;
      ghost var p := Text(buffer);
      var timeout := retries;
      var count := 0;
      ghost var n := 0;
      FramesStep(p, 0);
      while true
        invariant n <= |old(input)| && input == old(input)[n..] && n + timeout == retries
        invariant output == old(output) + Frames(p, n) && count == (if n == 0 then 0 else |p|)
        invariant Attempts(old(input), retries) == Plus(Attempts(input, timeout), n)
        decreases timeout
      {
        if timeout == 0 {
          return Some(count);
        }
        timeout := timeout - 1;
        count := SendFrame(buffer);
        FramesStep(p, n);
        n := n + 1;
        assert output == old(output) + Frames(p, n);
        if input == [] {
          return None;
        }
        var testChar := input[0];
        input := input[1..];
        if testChar == ACK {
          return Some(count);
        }
      }
    }

    /** The loop behind the `retry` label: bytes up to a '#', or as many as fit. */
    method CollectData(data: array<Byte>) returns (length: Option<nat>, checkSum: Byte)
      requires data.Length > 0
      modifies this`input, data
      ensures |input| <= |old(input)|
      ensures length.Some? == Collect(old(input), data.Length - 1, []).Scan?
      ensures length.Some? ==>
        && length.value < data.Length && Collect(old(input), data.Length - 1, []) == Scan(data[..length.value], input)
        && checkSum == CheckSum(data[..length.value])
    {
      hide CheckSum;
      var limit := data.Length - 1;
      var index := 0;
      checkSum := 0;
      CheckSumNone(data[..0]);
      while index < limit
        invariant 0 <= index <= limit && |input| <= |old(input)|
        invariant Collect(input, limit, data[..index]) == Collect(old(input), limit, [])
        invariant checkSum == CheckSum(data[..index])
        decreases |input|
      {
        if input == [] {
          return None, 0;
        }
        var c := input[0];
        input := input[1..];
        if c == START {
          index, checkSum := 0, 0;
          CheckSumNone(data[..0]);
        } else if c == STOP {
          break;
        } else {
          ghost var before := data[..index];
          data[index] := c;
          assert data[..index + 1] == before + [c];
          CheckSumStep(data[..], index);
          assert data[..][..index] == before && data[..][..index + 1] == data[..index + 1];
          checkSum := (checkSum + c) % 256;
          index := index + 1;
        }
      }
      length := Some(index);
    }

    /** The loop of ReceivePacket that waits for the start of a packet. */
    method WaitForStart(ghost limit: nat) returns (started: bool)
      modifies this`input
      ensures started ==> |input| < |old(input)| && Receive(old(input), limit) == Receive([START] + input, limit)
      ensures !started ==> Receive(old(input), limit) == Waiting([])
    {
      hide Receive;
      while input != [] && input[0] != START
        invariant |input| <= |old(input)| && Receive(old(input), limit) == Receive(input, limit)
        decreases |input|
      {
        ReceiveStep(input, limit);
        input := input[1..];
      }
      ReceiveStep(input, limit);
      if input == [] {
        return false;
      }
      assert input == [START] + input[1..];
      input := input[1..];
      return true;
    }

    /** ReceivePacket; None stands for waiting for more bytes for ever. */
    method ReceivePacket(data: array<Byte>) returns (length: Option<nat>)
      requires data.Length > 0
      modifies this, data
      ensures var r := Receive(old(input), data.Length - 1);
        && output == old(output) + r.acks && (length.Some? <==> r.Received?)
        && (length.Some? ==>
              length.value < data.Length && data[..length.value] == r.data && data[length.value] == 0
                  && input == r.rest)
    {
      hide Collect, CheckSum, ParseHex, Receive, After;
      ghost var acks := [];
      AfterNone(Receive(input, data.Length - 1));
      while true
        invariant output == old(output) + acks
        invariant Receive(old(input), data.Length - 1) == After(acks, Receive(input, data.Length - 1))
        decreases |input|
      {
        AfterAnswers(acks);
        var started := WaitForStart(data.Length - 1);
        if !started {
          return None;
        }
        ReceiveStep([START] + input, data.Length - 1);
        assert ([START] + input)[1..] == input;
        var index, checkSum := CollectData(data);
        if index == None || |input| < 2 {
          return None;
        }
        data[index.value] := 0;
        var first, second := input[0], input[1];
        input := input[2..];
        if ParseHex(first, second) == checkSum {
          output := output + [ACK];
          return index;
        }
        output := output + [NACK];
        acks := acks + [NACK];
      }
    }

    /** gXferObjectReadResponse: the text, escaped and sent. */
    method XferRead(buffer: seq<Byte>, retries: nat) returns (count: Option<nat>)
      requires 0 in buffer
      modifies this
      ensures count.Some? ==> count.value == 1 + |Text(buffer)|
      ensures count.Some? <==> Attempts(old(input), retries).Some?
      ensures count.Some? ==> output == old(output) + Frames(Escape(Text(buffer)), Attempts(old(input), retries).value)
    {
      hide Text, Frames;
      var text := Text(buffer);
      var out: seq<Byte> := [];
      var i := 0;
      while buffer[i] != 0
        invariant 0 <= i <= |text| && out == Escape(text[..i])
        modifies {}
        decreases |text| - i
      {
        TextAt(buffer, i);
        var c := buffer[i];
        assert text[..i + 1][..i] == text[..i];
        if Special(c) {
          out := out + [ESCAPE];
          c := Flip(c);
        }
        out := out + [c];
        i := i + 1;
      }
      TextAt(buffer, i);
      assert text[..i] == text;
      EscapeIsPlain(text);
      TextEnds(out);
      var sent := SendPacket(out + [0], retries);
      count := if sent.Some? then Some(1 + i) else None;
    }
  }

  lemma {:induction false} TextEnds(s: seq<Byte>)
    requires 0 !in s
    ensures Text(s + [0]) == s
  {
    if s != [] {
      assert (s + [0])[1..] == s[1..] + [0] && s[0] in s && s == [s[0]] + s[1..];
      TextEnds(s[1..]);
    }
  }

  lemma CheckSumNone(p: seq<Byte>)
    requires p == []
    ensures CheckSum(p) == 0
  {
  }

  /** One unfolding of Receive. */
  lemma ReceiveStep(input: seq<Byte>, limit: nat)
    ensures input == [] ==> Receive(input, limit) == Waiting([])
    ensures input != [] && input[0] != START ==> Receive(input, limit) == Receive(input[1..], limit)
    ensures input != [] && input[0] == START ==>
      var scan := Collect(input[1..], limit, []);
      Receive(input, limit) ==
        if scan.Starved? || |scan.rest| < 2 then Waiting([])
        else if ParseHex(scan.rest[0], scan.rest[1]) == CheckSum(scan.data)
            then Received(scan.data, scan.rest[2..], [ACK])
        else After([NACK], Receive(scan.rest[2..], limit))
  {
  }

  lemma FramesStep(p: seq<Byte>, n: nat)
    ensures Frames(p, 0) == [] && Frames(p, n + 1) == Frames(p, n) + Frame(p)
  {
  }

  function Plus(a: Option<nat>, n: nat): Option<nat> {
    match a
    case Some(m) => Some(m + n)
    case None => None
  }

  lemma TextAt(buffer: seq<Byte>, i: nat)
    requires 0 in buffer && i <= |Text(buffer)|
    ensures i < |buffer| && (buffer[i] == 0 <==> i == |Text(buffer)|)
      && (i < |Text(buffer)| ==> buffer[i] == Text(buffer)[i])
  {
    hide Text;
  }

  lemma CheckSumStep(p: seq<Byte>, i: nat)
    requires i < |p|
    ensures CheckSum(p[..i + 1]) == (CheckSum(p[..i]) + p[i]) % 256
  {
    assert p[..i + 1][..i] == p[..i];
  }
}

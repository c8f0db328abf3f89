/** The opaque room timeline cursor: a version byte and a big-endian sequence in unpadded URL-safe base64. */
module TimelineCursor {
  import opened Common
  import opened ByteStrings
  import opened BigEndian

  const SEQ_PREFIX := "seq:"
  const OPAQUE_PREFIX := "tl:"
  const CURSOR_VERSION: Byte := 1
  const CURSOR_SIZE := 9

  datatype CursorError = InvalidSequence | InvalidFormat | InvalidEncoding

  // ---- Base64, URL-safe and unpadded (RFC 4648 section 5) ----

  /** The character that stands for a value of six bits. */
  function Letter(v: nat): (c: char)
    requires v < 64
  {
    if v < 26 then ('A' as int + v) as char
    else if v < 52 then ('a' as int + (v - 26)) as char
    else if v < 62 then ('0' as int + (v - 52)) as char
    else if v == 62 then '-' else '_'
  }

  function Sextet(c: char): (v: Option<nat>)
    ensures v.Some? ==> v.value < 64
  {
    if 'A' <= c <= 'Z' then Some(c as int - 'A' as int)
    else if 'a' <= c <= 'z' then Some(26 + (c as int - 'a' as int))
    else if '0' <= c <= '9' then Some(52 + (c as int - '0' as int))
    else if c == '-' then Some(62)
    else if c == '_' then Some(63)
    else None
  }

  /** Three bytes as four characters. */
  function Quantum(a: Byte, b: Byte, c: Byte): (s: string)
    ensures |s| == 4
  {
    [Letter((a / 4) as nat), Letter((a % 4) as nat * 16 + (b / 16) as nat),
     Letter((b % 16) as nat * 4 + (c / 64) as nat), Letter((c % 64) as nat)]
  }

  function Encode(s: Bytes): string {
    if |s| == 0 then []
    else if |s| == 1 then Quantum(s[0], 0, 0)[..2]
    else if |s| == 2 then Quantum(s[0], s[1], 0)[..3]
    else Quantum(s[0], s[1], s[2]) + Encode(s[3..])
  }

  function SextetAt(s: string, i: nat): (v: Option<nat>)
    ensures v.Some? ==> v.value < 64
  {
    if i < |s| then Sextet(s[i]) else Some(0)
  }

  /** The three bytes of four values of six bits. */
  function Join(v0: nat, v1: nat, v2: nat, v3: nat): (r: Bytes)
    requires v0 < 64 && v1 < 64 && v2 < 64 && v3 < 64
    ensures |r| == 3
  {
    [(v0 * 4 + v1 / 16) as Byte, (v1 % 16 * 16 + v2 / 4) as Byte, (v2 % 4 * 64 + v3) as Byte]
  }

  /** The bytes of two to four characters, one fewer than the characters; bits left over are ignored. */
  function Bytewise(s: string): (r: Option<Bytes>)
    requires 2 <= |s| <= 4
    ensures r.Some? ==> |r.value| == |s| - 1
  {
    var v0, v1, v2, v3 := SextetAt(s, 0), SextetAt(s, 1), SextetAt(s, 2), SextetAt(s, 3);
    if v0.None? || v1.None? || v2.None? || v3.None? then None
    else Some(Join(v0.value, v1.value, v2.value, v3.value)[..|s| - 1])
  }

  function DecodeLetters(s: string): (r: Option<Bytes>)
    ensures r.Some? ==> |s| == |r.value| + (|r.value| + 2) / 3
  {
    if |s| == 0 then Some([])
    else if |s| == 1 then None
    else if |s| < 4 then Bytewise(s)
    else
      var first := Bytewise(s[..4]);
      var others := DecodeLetters(s[4..]);
      if first.None? || others.None? then None else Some(first.value + others.value)
  }

  /** The decoder passes over line breaks anywhere. */
  function Strip(s: string): string {
    if s == "" then ""
    else (if s[0] == '\r' || s[0] == '\n' then "" else [s[0]]) + Strip(s[1..])
  }

  function Decode(s: string): Option<Bytes> {
    DecodeLetters(Strip(s))
  }

  // ---- Decimal numbers ----

  predicate IsDigit(c: char) {
    '0' <= c <= '9'
  }

  function Digit(n: nat): char
    requires n < 10
  {
    ('0' as int + n) as char
  }

  function DigitValue(c: char): (n: nat)
    requires IsDigit(c)
  {
    c as int - '0' as int
  }

  function Decimal(n: nat): string {
    (if n < 10 then "" else Decimal(n / 10)) + [Digit(n % 10)]
  }

  function Number(s: string): Option<nat> {
    if s == "" then Some(0)
    else
      var k := |s| - 1;
      var earlier := Number(s[..k]);
      if earlier.None? || !IsDigit(s[k]) then None else Some(10 * earlier.value + DigitValue(s[k]))
  }

  /** An unsigned decimal of 64 bits: not empty, digits only, in range. */
  function ParseUint(s: string): Option<nat> {
    if s == "" || Number(s).None? || Number(s).value >= UINT64_LIMIT then None else Number(s)
  }

  // ---- The cursor ----

  predicate HasPrefix(s: string, prefix: string) {
    prefix <= s
  }

  /** A version byte, which is 1, and the sequence in big-endian order. */
  function Frame(seqNo: nat): Bytes {
    [1] + Digits(seqNo, 8)
  }

  method FormatRoomTimelineCursor(seqNo: nat) returns (cursor: string)
    requires seqNo < UINT64_LIMIT
    ensures ParseRoomTimelineCursor(cursor) == Ok(seqNo)
    ensures cursor == Format(seqNo)
  {
    FormatRoundTrips(seqNo);
    if seqNo == 0 {
      return "";
    }
    var buf := new Byte[CURSOR_SIZE](_ => 0);
    buf[0] := CURSOR_VERSION;
    PutUint64(buf, 1, seqNo);
    assert buf[..] == Frame(seqNo);
    cursor := OPAQUE_PREFIX + Encode(buf[..]);
  }

  /** What the formatter returns: nothing for zero. */
  function Format(seqNo: nat): string {
    if seqNo == 0 then "" else OPAQUE_PREFIX + Encode(Frame(seqNo))
  }

  function ParseRoomTimelineCursor(cursor: string): (r: Result<nat, CursorError>)
    ensures r.Ok? ==> r.value < UINT64_LIMIT
  {
    if cursor == "" then Ok(0)
    else if HasPrefix(cursor, SEQ_PREFIX) then
      var n := ParseUint(cursor[|SEQ_PREFIX|..]);
      if n.None? then Err(InvalidSequence) else Ok(n.value)
    else if !HasPrefix(cursor, OPAQUE_PREFIX) then Err(InvalidFormat)
    else
      var raw := Decode(cursor[|OPAQUE_PREFIX|..]);
      if raw.None? then Err(InvalidEncoding)
      else if |raw.value| != CURSOR_SIZE || raw.value[0] != CURSOR_VERSION then Err(InvalidFormat)
      else
        EightDigits();
        ValueHasDigits(raw.value[1..]);
        Ok(Value(raw.value[1..]))
  }

  // ---- The encoding is that of the standard ----

  /** The alphabet of table 2: capitals, small letters and digits in order, then the two signs. */
  lemma LettersAreUrlSafe(v: nat)
    requires v < 63
    ensures Letter(0) == 'A' && Letter(26) == 'a' && Letter(52) == '0' && Letter(62) == '-' && Letter(63) == '_'
    ensures v !in {25, 51, 61, 62} ==> Letter(v + 1) as int == Letter(v) as int + 1
  {
  }

  /** Four characters are the 24 bits of three bytes, most significant bits first. */
  lemma QuantumIsBitwise(a: Byte, b: Byte, c: Byte)
    ensures exists v0: nat, v1: nat, v2: nat, v3: nat ::
              && v0 < 64 && v1 < 64 && v2 < 64 && v3 < 64
              && 65536 * a as nat + 256 * b as nat + c as nat == 262144 * v0 + 4096 * v1 + 64 * v2 + v3
              && Quantum(a, b, c) == [Letter(v0), Letter(v1), Letter(v2), Letter(v3)]
  {
    var v0, v1: nat := (a / 4) as nat, (a % 4) as nat * 16 + (b / 16) as nat;
    var v2, v3: nat := (b % 16) as nat * 4 + (c / 64) as nat, (c % 64) as nat;
    assert Quantum(a, b, c) == [Letter(v0), Letter(v1), Letter(v2), Letter(v3)];
  }

  /** Without padding: one byte is spelled by two characters, two by three. */
  lemma EncodesWithoutPadding(s: Bytes)
    ensures |Encode(s)| == (4 * |s| + 2) / 3
    ensures |s| == 1 ==> Encode(s) == Quantum(s[0], 0, 0)[..2]
    ensures |s| == 2 ==> Encode(s) == Quantum(s[0], s[1], 0)[..3]
    ensures |s| >= 3 ==> Encode(s) == Quantum(s[0], s[1], s[2]) + Encode(s[3..])
  {
    if |s| >= 3 {
      EncodesWithoutPadding(s[3..]);
    }
  }

  // ---- Encoding and decoding are inverse ----

  predicate AllLetters(s: string) {
    forall i :: 0 <= i < |s| ==> Sextet(s[i]).Some?
  }

  lemma LetterDenotes(v: nat)
    requires v < 64
    ensures Sextet(Letter(v)) == Some(v)
  {
  }

  lemma SextetIsSpelled(c: char)
    requires Sextet(c).Some?
    ensures Letter(Sextet(c).value) == c
  {
  }

  lemma QuantumDenotes(a: Byte, b: Byte, c: Byte)
    ensures var s := Quantum(a, b, c);
            && AllLetters(s)
            && Sextet(s[0]) == Some((a / 4) as nat) && Sextet(s[1]) == Some((a % 4) as nat * 16 + (b / 16) as nat)
            && Sextet(s[2]) == Some((b % 16) as nat * 4 + (c / 64) as nat) && Sextet(s[3]) == Some((c % 64) as nat)
  {
    hide Letter, Sextet;
    LetterDenotes((a / 4) as nat);
    LetterDenotes((a % 4) as nat * 16 + (b / 16) as nat);
    LetterDenotes((b % 16) as nat * 4 + (c / 64) as nat);
    LetterDenotes((c % 64) as nat);
  }

  lemma JoinsBytes(a: Byte, b: Byte, c: Byte)
    ensures Join((a / 4) as nat, (a % 4) as nat * 16 + (b / 16) as nat, (b % 16) as nat * 4 + (c / 64) as nat,
                 (c % 64) as nat) == [a, b, c]
  {
  }

  /** Two characters spell one byte, three two, and four three. */
  lemma DecodesQuantum(a: Byte, b: Byte, c: Byte, k: nat)
    requires 2 <= k <= 4 && (k < 3 ==> b == 0) && (k < 4 ==> c == 0)
    ensures AllLetters(Quantum(a, b, c)[..k]) && Bytewise(Quantum(a, b, c)[..k]) == Some([a, b, c][..k - 1])
  {
    hide Quantum, Sextet, Join;
    QuantumDenotes(a, b, c);
    JoinsBytes(a, b, c);
  }

  lemma {:induction false} DecodesLetters(s: Bytes)
    ensures AllLetters(Encode(s)) && DecodeLetters(Encode(s)) == Some(s)
  {
    hide Quantum, Sextet, Bytewise;
    if |s| == 1 {
      DecodesQuantum(s[0], 0, 0, 2);
      assert s == [s[0], 0, 0][..1];
    } else if |s| == 2 {
      DecodesQuantum(s[0], s[1], 0, 3);
      assert s == [s[0], s[1], 0][..2];
    } else if |s| >= 3 {
      var first := Quantum(s[0], s[1], s[2]);
      DecodesQuantum(s[0], s[1], s[2], 4);
      assert first[..4] == first;
      DecodesLetters(s[3..]);
      assert s == [s[0], s[1], s[2]][..3] + s[3..];
      assert Encode(s)[..4] == first && Encode(s)[4..] == Encode(s[3..]);
    }
  }

  lemma {:induction false} StripKeepsLetters(s: string)
    requires AllLetters(s)
    ensures Strip(s) == s
  {
    if s != "" {
      assert Sextet(s[0]).Some?;
      StripKeepsLetters(s[1..]);
      assert s == [s[0]] + s[1..];
    }
  }

  /** Every byte string survives encoding and decoding. */
  lemma Base64RoundTrip(s: Bytes)
    ensures Decode(Encode(s)) == Some(s)
  {
    DecodesLetters(s);
    StripKeepsLetters(Encode(s));
  }

  lemma SplitsSextets(v0: nat, v1: nat, v2: nat, v3: nat)
    requires v0 < 64 && v1 < 64 && v2 < 64 && v3 < 64
    ensures var r := Join(v0, v1, v2, v3);
            && (r[0] / 4) as nat == v0 && (r[0] % 4) as nat * 16 + (r[1] / 16) as nat == v1
            && (r[1] % 16) as nat * 4 + (r[2] / 64) as nat == v2 && (r[2] % 64) as nat == v3
  {
  }

  lemma EncodesBytewise(s: string)
    requires |s| == 4 && Bytewise(s).Some?
    ensures var r := Bytewise(s).value; Quantum(r[0], r[1], r[2]) == s
  {
    hide Letter, Sextet, Join;
    var v0, v1, v2, v3 := Sextet(s[0]).value, Sextet(s[1]).value, Sextet(s[2]).value, Sextet(s[3]).value;
    SplitsSextets(v0, v1, v2, v3);
    SextetIsSpelled(s[0]);
    SextetIsSpelled(s[1]);
    SextetIsSpelled(s[2]);
    SextetIsSpelled(s[3]);
  }

  /** Without left-over bits nothing is ignored: the bytes spell the characters back. */
  lemma {:induction false} EncodesLetters(s: string, n: nat)
    requires |s| == 4 * n && DecodeLetters(s).Some?
    ensures Encode(DecodeLetters(s).value) == s
  {
    if s != "" {
      hide Quantum, Bytewise, Sextet, DecodeLetters, Encode;
      var head, tail := s[..4], s[4..];
      assert s == head + tail;
      DecodesFirst(head, tail);
      EncodesBytewise(head);
      EncodesLetters(tail, n - 1);
      EncodesFirst(Bytewise(head).value, DecodeLetters(tail).value);
    }
  }

  lemma DecodesFirst(head: string, tail: string)
    requires |head| == 4 && DecodeLetters(head + tail).Some?
    ensures Bytewise(head).Some? && DecodeLetters(tail).Some?
    ensures DecodeLetters(head + tail).value == Bytewise(head).value + DecodeLetters(tail).value
  {
    assert (head + tail)[..4] == head && (head + tail)[4..] == tail;
  }

  lemma EncodesFirst(r: Bytes, others: Bytes)
    requires |r| == 3
    ensures Encode(r + others) == Quantum(r[0], r[1], r[2]) + Encode(others)
  {
    assert (r + others)[3..] == others;
  }

  // ---- The cursor round trip ----

  lemma FrameIsRead(seqNo: nat)
    requires seqNo < UINT64_LIMIT
    ensures |Frame(seqNo)| == CURSOR_SIZE && Frame(seqNo)[0] == CURSOR_VERSION && Value(Frame(seqNo)[1..]) == seqNo
  {
    Uint64RoundTrip(seqNo);
    assert Frame(seqNo)[1..] == Digits(seqNo, 8);
  }

  /** An opaque cursor reads as a number exactly if it spells that number's frame, line breaks aside. */
  lemma OpaqueCursorIsFrame(cursor: string, seqNo: nat)
    requires HasPrefix(cursor, OPAQUE_PREFIX)
    ensures ParseRoomTimelineCursor(cursor) == Ok(seqNo) <==>
            seqNo < UINT64_LIMIT && Strip(cursor[|OPAQUE_PREFIX|..]) == Encode(Frame(seqNo))
  {
    hide Encode, DecodeLetters, Digits, Value, Strip;
    assert cursor[0] == 't';
    var letters := Strip(cursor[|OPAQUE_PREFIX|..]);
    if ParseRoomTimelineCursor(cursor) == Ok(seqNo) {
      var raw := DecodeLetters(letters).value;
      ValueHasDigits(raw[1..]);
      assert raw == [raw[0]] + raw[1..];
      EncodesLetters(letters, 3);
    }
    if seqNo < UINT64_LIMIT && letters == Encode(Frame(seqNo)) {
      DecodesLetters(Frame(seqNo));
      FrameIsRead(seqNo);
    }
  }

  /** Parsing the formatted cursor returns the sequence, zero included. */
  lemma FormatRoundTrips(seqNo: nat)
    requires seqNo < UINT64_LIMIT
    ensures ParseRoomTimelineCursor(Format(seqNo)) == Ok(seqNo)
  {
    if seqNo != 0 {
      hide Encode, Strip, ParseRoomTimelineCursor;
      var letters := Encode(Frame(seqNo));
      DecodesLetters(Frame(seqNo));
      StripKeepsLetters(letters);
      assert Format(seqNo)[|OPAQUE_PREFIX|..] == letters;
      OpaqueCursorIsFrame(Format(seqNo), seqNo);
    }
  }

  /** Hence no two sequences share a cursor. */
  lemma FormatIsInjective(a: nat, b: nat)
    requires a < UINT64_LIMIT && b < UINT64_LIMIT && Format(a) == Format(b)
    ensures a == b
  {
    FormatRoundTrips(a);
    FormatRoundTrips(b);
  }

  /** An opaque cursor without line breaks that reads as a number other than zero is the one the formatter writes. */
  lemma OpaqueCursorIsCanonical(cursor: string, seqNo: nat)
    requires HasPrefix(cursor, OPAQUE_PREFIX) && '\r' !in cursor && '\n' !in cursor
    requires ParseRoomTimelineCursor(cursor) == Ok(seqNo) && seqNo != 0
    ensures cursor == Format(seqNo)
  {
    hide Encode, ParseRoomTimelineCursor;
    OpaqueCursorIsFrame(cursor, seqNo);
    StripKeepsLine(cursor[|OPAQUE_PREFIX|..]);
    assert cursor == OPAQUE_PREFIX + cursor[|OPAQUE_PREFIX|..];
  }

  /** A line break anywhere makes no difference. */
  lemma {:induction false} StripDropsBreaks(front: string, c: char, back: string)
    requires c == '\r' || c == '\n'
    ensures Strip(front + [c] + back) == Strip(front + back)
  {
    if front == "" {
      assert front + [c] + back == [c] + back && front + back == back;
    } else {
      StripDropsBreaks(front[1..], c, back);
      assert (front + [c] + back)[1..] == front[1..] + [c] + back && (front + back)[1..] == front[1..] + back;
    }
  }

  lemma {:induction false} StripKeepsLine(s: string)
    requires '\r' !in s && '\n' !in s
    ensures Strip(s) == s
  {
    if s != "" {
      StripKeepsLine(s[1..]);
      assert s == [s[0]] + s[1..];
    }
  }

  lemma DigitDenotes(n: nat)
    requires n < 10
    ensures IsDigit(Digit(n)) && DigitValue(Digit(n)) == n
  {
  }

  lemma NumberAppends(s: string, n: nat)
    requires Number(s).Some? && n < 10
    ensures Number(s + [Digit(n)]) == Some(10 * Number(s).value + n)
  {
    hide IsDigit, Digit, DigitValue;
    DigitDenotes(n);
    assert (s + [Digit(n)])[..|s|] == s;
  }

  lemma {:induction false} DecimalDenotes(n: nat)
    ensures Decimal(n) != "" && Number(Decimal(n)) == Some(n)
  {
    hide Number, Digit;
    if n < 10 {
      EmptyNumber();
      NumberAppends("", n);
    } else {
      DecimalDenotes(n / 10);
      NumberAppends(Decimal(n / 10), n % 10);
    }
  }

  lemma EmptyNumber()
    ensures Number("") == Some(0)
  {
  }

  function Zeros(k: nat): string {
    if k == 0 then "" else Zeros(k - 1) + "0"
  }

  /** Digits are the decimal form of their number behind some zeros. */
  lemma {:induction false} DigitsAreDecimal(s: string) returns (k: nat)
    requires s != "" && Number(s).Some?
    ensures s == Zeros(k) + Decimal(Number(s).value)
  {
    var n := |s| - 1;
    LastDigit(s, n);
    hide IsDigit, Digit, DigitValue, Number;
    if n == 0 {
      NoDigits(s[..0]);
      k := 0;
    } else {
      k := DigitsAreDecimal(s[..n]);
      if Number(s[..n]).value == 0 {
        ZeroDigit();
        k := k + 1;
      }
    }
  }

  lemma DigitIsSpelled(c: char)
    requires IsDigit(c)
    ensures DigitValue(c) < 10 && Digit(DigitValue(c)) == c
  {
  }

  lemma LastDigit(s: string, n: nat)
    requires |s| == n + 1 && Number(s).Some?
    ensures Number(s[..n]).Some? && IsDigit(s[n]) && DigitValue(s[n]) < 10
    ensures Number(s).value == 10 * Number(s[..n]).value + DigitValue(s[n])
    ensures s == s[..n] + [Digit(DigitValue(s[n]))]
  {
    hide IsDigit, Digit, DigitValue;
    DigitIsSpelled(s[n]);
    assert s == s[..n] + [s[n]];
  }

  lemma NoDigits(s: string)
    requires s == ""
    ensures Number(s) == Some(0)
  {
  }

  lemma ZeroDigit()
    ensures Decimal(0) == [Digit(0)] == "0"
  {
  }

  lemma {:induction false} ZerosDenoteNothing(k: nat, s: string)
    requires Number(s).Some?
    ensures Number(Zeros(k) + s) == Number(s)
    decreases |s|, k
  {
    if s != "" {
      var n := |s| - 1;
      ZerosDenoteNothing(k, s[..n]);
      assert Zeros(k) + s == (Zeros(k) + s[..n]) + [s[n]];
    } else if k > 0 {
      ZerosDenoteNothing(k - 1, "");
      assert Zeros(k) + "" == Zeros(k) && Zeros(k - 1) + "" == Zeros(k - 1);
    }
  }

  /** A sequence cursor reads as n exactly if it is the decimal form of n, behind zeros at most, within 64 bits. */
  lemma SequenceCursorIsDecimal(rest: string, n: nat)
    ensures ParseRoomTimelineCursor("seq:" + rest) == Ok(n) <==> n < UINT64_LIMIT && IsDecimal(rest, n)
    ensures ParseRoomTimelineCursor("seq:" + rest).Err? ==>
              ParseRoomTimelineCursor("seq:" + rest) == Err(InvalidSequence)
  {
    assert ("seq:" + rest)[|SEQ_PREFIX|..] == rest;
    hide Zeros, Decimal, Number, Decode, Value;
    if ParseRoomTimelineCursor("seq:" + rest) == Ok(n) {
      var k := DigitsAreDecimal(rest);
    }
    if k: nat :| rest == Zeros(k) + Decimal(n) {
      DecimalDenotes(n);
      ZerosDenoteNothing(k, Decimal(n));
    }
  }

  ghost predicate IsDecimal(s: string, n: nat) {
    exists k: nat :: s == Zeros(k) + Decimal(n)
  }

  /** Without cursor the timeline starts at zero; any cursor of neither form is refused. */
  lemma OtherCursorsAreRefused(cursor: string)
    ensures ParseRoomTimelineCursor("") == Ok(0)
    ensures cursor != "" && !("seq:" <= cursor) && !("tl:" <= cursor) ==>
              ParseRoomTimelineCursor(cursor) == Err(InvalidFormat)
  {
  }

  /** The decimal form of a cursor reads as its number exactly within 64 bits. */
  lemma DecimalCursorRoundTrips(n: nat)
    ensures ParseRoomTimelineCursor(SEQ_PREFIX + Decimal(n)) ==
            if n < UINT64_LIMIT then Ok(n) else Err(InvalidSequence)
  {
    DecimalDenotes(n);
    assert (SEQ_PREFIX + Decimal(n))[|SEQ_PREFIX|..] == Decimal(n);
  }
}

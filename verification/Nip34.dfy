/** NIP-34 clone URLs (src/nip34.rs), with percent encoding as in sections 2.1 and 2.3 of RFC 3986.
    A Rust `str` is a sequence of bytes; a byte is written as the character with its code. */
module Nip34 {
  type byte = c: char | c as int < 256

  type Str = seq<byte>

  datatype Nip34Error =
    | InvalidScheme
    | EmptyAuthority
    | MissingIdentifier
    | InvalidPathSegments
    | InvalidPercentEncoding
    | UnsupportedRemoteScheme

  datatype Result<+T> = Ok(value: T) | Err(error: Nip34Error)

  datatype RelayHint = NoHint | Hint(relay: Str)

  datatype NostrRemote =
    | Announcement(naddr: Str)
    | Coordinate(owner: Str, relayHint: RelayHint, identifier: Str)

  const NOSTR: Str := "nostr://"
  const P2P: Str := "p2p://"

  // ---- UTF-8 (section 4 of RFC 3629) ----

  predicate InRange(b: byte, lo: int, hi: int) {
    lo <= b as int <= hi
  }

  /** Bounds on the second byte of a sequence that starts with `lead`. */
  function SecondLow(lead: int): int {
    if lead == 0xE0 then 0xA0 else if lead == 0xF0 then 0x90 else 0x80
  }

  function SecondHigh(lead: int): int {
    if lead == 0xED then 0x9F else if lead == 0xF4 then 0x8F else 0xBF
  }

  /** How many bytes the sequence that starts with `lead` has; 0 if none does. */
  function SequenceLength(lead: int): nat {
    if lead < 0x80 then 1
    else if 0xC2 <= lead <= 0xDF then 2
    else if 0xE0 <= lead <= 0xEF then 3
    else if 0xF0 <= lead <= 0xF4 then 4
    else 0
  }

  predicate ValidUtf8(s: Str) {
    s == [] ||
    var lead := s[0] as int;
    var n := SequenceLength(lead);
    && 0 < n <= |s|
    && (n > 1 ==> InRange(s[1], SecondLow(lead), SecondHigh(lead)))
    && (forall i | 2 <= i < n :: InRange(s[i], 0x80, 0xBF))
    && ValidUtf8(s[n..])
  }

  predicate IsScalar(c: nat) {
    c < 0xD800 || 0xE000 <= c < 0x11_0000
  }

  function ByteOf(n: int): byte
    requires 0 <= n < 256
  {
    n as char
  }

  /** The encoding of a scalar value (the table in section 3 of RFC 3629). */
  function Utf8Of(c: nat): Str
    requires IsScalar(c)
  {
    if c < 0x80 then [ByteOf(c)]
    else if c < 0x800 then [ByteOf(0xC0 + c / 64), ByteOf(0x80 + c % 64)]
    else if c < 0x1_0000 then [ByteOf(0xE0 + c / 4096), ByteOf(0x80 + c / 64 % 64), ByteOf(0x80 + c % 64)]
    else [ByteOf(0xF0 + c / 262144), ByteOf(0x80 + c / 4096 % 64), ByteOf(0x80 + c / 64 % 64), ByteOf(0x80 + c % 64)]
  }

  predicate AreScalars(scalars: seq<nat>) {
    forall i | 0 <= i < |scalars| :: IsScalar(scalars[i])
  }

  function Utf8(scalars: seq<nat>): Str
    requires AreScalars(scalars)
  {
    if scalars == [] then [] else Utf8Of(scalars[0]) + Utf8(scalars[1..])
  }

  /** Two continuation bytes carry six bits each. */
  lemma Pieces(high: int, mid: int, low: int)
    requires 0 <= mid < 64 && 0 <= low < 64 && 0 <= high
    ensures (high * 4096 + mid * 64 + low) / 4096 == high
    ensures (high * 4096 + mid * 64 + low) / 64 % 64 == mid
    ensures (high * 4096 + mid * 64 + low) % 64 == low
  {
    var c := high * 4096 + mid * 64 + low;
    assert c / 64 == high * 64 + mid;
  }

  lemma TwoBytes(lead: byte, b: byte) returns (c: nat)
    requires InRange(lead, 0xC2, 0xDF) && InRange(b, 0x80, 0xBF)
    ensures IsScalar(c) && Utf8Of(c) == [lead, b]
  {
    c := (lead as int - 0xC0) * 64 + (b as int - 0x80);
  }

  lemma ThreeBytes(lead: byte, b: byte, d: byte) returns (c: nat)
    requires InRange(lead, 0xE0, 0xEF) && InRange(d, 0x80, 0xBF)
    requires InRange(b, SecondLow(lead as int), SecondHigh(lead as int))
    ensures IsScalar(c) && Utf8Of(c) == [lead, b, d]
  {
    Pieces(lead as int - 0xE0, b as int - 0x80, d as int - 0x80);
    c := (lead as int - 0xE0) * 4096 + (b as int - 0x80) * 64 + (d as int - 0x80);
  }

  lemma FourBytes(lead: byte, b: byte, d: byte, e: byte) returns (c: nat)
    requires InRange(lead, 0xF0, 0xF4) && InRange(d, 0x80, 0xBF) && InRange(e, 0x80, 0xBF)
    requires InRange(b, SecondLow(lead as int), SecondHigh(lead as int))
    ensures IsScalar(c) && Utf8Of(c) == [lead, b, d, e]
  {
    var high := (lead as int - 0xF0) * 64 + (b as int - 0x80);
    Pieces(high, d as int - 0x80, e as int - 0x80);
    c := high * 4096 + (d as int - 0x80) * 64 + (e as int - 0x80);
  }

  /** The first sequence of a valid text encodes a scalar value. */
  lemma FirstScalar(s: Str) returns (c: nat)
    requires s != [] && ValidUtf8(s)
    ensures IsScalar(c) && Utf8Of(c) == s[..SequenceLength(s[0] as int)]
  {
    var n := SequenceLength(s[0] as int);
    if n == 1 {
      c := s[0] as int;
    } else if n == 2 {
      c := TwoBytes(s[0], s[1]);
    } else if n == 3 {
      c := ThreeBytes(s[0], s[1], s[2]);
    } else {
      c := FourBytes(s[0], s[1], s[2], s[3]);
    }
  }

  lemma ScalarIsValid(c: nat, rest: Str)
    requires IsScalar(c)
    ensures Utf8Of(c) != [] && SequenceLength(Utf8Of(c)[0] as int) == |Utf8Of(c)|
    ensures ValidUtf8(rest) ==> ValidUtf8(Utf8Of(c) + rest)
  {
  }

  lemma Utf8Front(c: nat, rest: seq<nat>)
    requires IsScalar(c) && AreScalars(rest)
    ensures AreScalars([c] + rest) && Utf8([c] + rest) == Utf8Of(c) + Utf8(rest)
  {
    assert ([c] + rest)[1..] == rest;
  }

  lemma FirstSequence(s: Str) returns (n: nat)
    requires s != [] && ValidUtf8(s)
    ensures n == SequenceLength(s[0] as int) && 0 < n <= |s| && ValidUtf8(s[n..])
    ensures s == s[..n] + s[n..]
  {
    n := SequenceLength(s[0] as int);
  }

  lemma {:induction false} DecodeUtf8(s: Str) returns (scalars: seq<nat>)
    requires ValidUtf8(s)
    ensures AreScalars(scalars) && Utf8(scalars) == s
  {
    if s == [] {
      scalars := [];
    } else {
      hide ValidUtf8, Utf8Of, Utf8, IsScalar, AreScalars, SequenceLength;
      var n := FirstSequence(s);
      var first := FirstScalar(s);
      var rest := DecodeUtf8(s[n..]);
      scalars := [first] + rest;
      Utf8Front(first, rest);
    }
  }

  lemma {:induction false} Utf8IsValid(scalars: seq<nat>)
    requires AreScalars(scalars)
    ensures ValidUtf8(Utf8(scalars))
  {
    if scalars == [] {
    } else {
      Utf8IsValid(scalars[1..]);
      ScalarIsValid(scalars[0], Utf8(scalars[1..]));
      hide ValidUtf8, Utf8Of;
    }
  }

  /** The validity check accepts exactly the encodings of sequences of scalar values. */
  lemma ValidUtf8Exactly(s: Str)
    ensures ValidUtf8(s) <==> exists scalars: seq<nat> :: AreScalars(scalars) && Utf8(scalars) == s
  {
    hide ValidUtf8, AreScalars, Utf8;
    if ValidUtf8(s) {
      var scalars := DecodeUtf8(s);
    }
    if scalars: seq<nat> :| AreScalars(scalars) && Utf8(scalars) == s {
      Utf8IsValid(scalars);
    }
  }

  // ---- percent encoding ----

  predicate Unreserved(b: byte) {
    'A' <= b <= 'Z' || 'a' <= b <= 'z' || '0' <= b <= '9' || b == '-' || b == '.' || b == '_' || b == '~'
  }

  const HEX: Str := "0123456789ABCDEF"

  function EncodeByte(b: byte): Str {
    if Unreserved(b) then [b] else ['%', HEX[b as int / 16], HEX[b as int % 16]]
  }

  function PercentEncode(value: Str): Str {
    if value == [] then [] else EncodeByte(value[0]) + PercentEncode(value[1..])
  }

  lemma EncodeNothing()
    ensures PercentEncode([]) == []
  {
  }

  lemma {:induction false} EncodeConcat(a: Str, b: Str)
    ensures PercentEncode(a + b) == PercentEncode(a) + PercentEncode(b)
  {
    hide EncodeByte;
    if a == [] {
      assert a + b == b;
    } else {
      assert (a + b)[1..] == a[1..] + b;
      EncodeConcat(a[1..], b);
    }
  }

  lemma EncodeOneMore(value: Str, i: nat)
    requires i < |value|
    ensures PercentEncode(value[..i + 1]) == PercentEncode(value[..i]) + EncodeByte(value[i])
  {
    assert value[..i + 1] == value[..i] + [value[i]];
    EncodeConcat(value[..i], [value[i]]);
    assert [value[i]][1..] == [];
  }

  method PercentEncodeLoop(value: Str) returns (out: Str)
    ensures out == PercentEncode(value)
  {
    out := [];
    hide PercentEncode;
    EncodeNothing();
    assert value[..0] == [];
    for i := 0 to |value|
      invariant out == PercentEncode(value[..i])
    {
      var b := value[i];
      EncodeOneMore(value, i);
      if Unreserved(b) {
        out := out + [b];
      } else {
        out := out + ['%', HEX[b as int / 16], HEX[b as int % 16]];
      }
    }
    assert value[..|value|] == value;
  }

  /** The value of a hexadecimal digit of either case, or -1. */
  function DecodeHex(b: byte): (v: int)
    ensures -1 <= v < 16
  {
    if '0' <= b <= '9' then b as int - '0' as int
    else if 'a' <= b <= 'f' then b as int - 'a' as int + 10
    else if 'A' <= b <= 'F' then b as int - 'A' as int + 10
    else -1
  }

  /** The decoded bytes, or an error at a `%` without two hexadecimal digits after it. */
  function DecodeBytes(value: Str): Result<Str> {
    if value == [] then Ok([])
    else if value[0] == '%' then
      if |value| < 3 || DecodeHex(value[1]) < 0 || DecodeHex(value[2]) < 0 then Err(InvalidPercentEncoding)
      else match DecodeBytes(value[3..])
        case Err(e) => Err(e)
        case Ok(rest) => Ok([ByteOf(DecodeHex(value[1]) * 16 + DecodeHex(value[2]))] + rest)
    else match DecodeBytes(value[1..])
      case Err(e) => Err(e)
      case Ok(rest) => Ok([value[0]] + rest)
  }

  function PercentDecode(value: Str): Result<Str> {
    match DecodeBytes(value)
    case Err(e) => Err(InvalidPercentEncoding)
    case Ok(bytes) => if ValidUtf8(bytes) then Ok(bytes) else Err(InvalidPercentEncoding)
  }

  /** `DecodeBytes(value)` given that the bytes before `rest` decoded to `done`. */
  ghost predicate DecodedSoFar(value: Str, done: Str, rest: Str) {
    match DecodeBytes(rest)
    case Err(e) => DecodeBytes(value) == Err(e)
    case Ok(tail) => DecodeBytes(value) == Ok(done + tail)
  }

  lemma DecodeStarts(value: Str)
    ensures DecodedSoFar(value, [], value)
  {
    hide DecodeBytes;
    match DecodeBytes(value)
    case Err(e) =>
    case Ok(tail) => assert [] + tail == tail;
  }

  lemma DecodeEnds(value: Str, done: Str)
    requires DecodedSoFar(value, done, [])
    ensures DecodeBytes(value) == Ok(done)
  {
    assert DecodeBytes([]) == Ok([]);
    assert done + [] == done;
  }

  lemma DecodedOne(value: Str, done: Str, b: byte, rest: Str, next: Str)
    requires DecodedSoFar(value, done, rest)
    requires match DecodeBytes(next)
             case Err(e) => DecodeBytes(rest) == Err(e)
             case Ok(tail) => DecodeBytes(rest) == Ok([b] + tail)
    ensures DecodedSoFar(value, done + [b], next)
  {
    hide DecodeBytes;
    match DecodeBytes(next)
    case Err(e) =>
    case Ok(tail) => assert done + ([b] + tail) == done + [b] + tail;
  }

  /** One round of the decoding loop. */
  lemma DecodeStep(value: Str, done: Str, rest: Str)
    requires rest != [] && DecodedSoFar(value, done, rest)
    ensures rest[0] != '%' ==> DecodedSoFar(value, done + [rest[0]], rest[1..])
    ensures rest[0] == '%' ==>
              if |rest| < 3 || DecodeHex(rest[1]) < 0 || DecodeHex(rest[2]) < 0 then DecodeBytes(value).Err?
              else DecodedSoFar(value, done + [ByteOf(DecodeHex(rest[1]) * 16 + DecodeHex(rest[2]))], rest[3..])
  {
    hide DecodeHex;
    if rest[0] != '%' {
      DecodedOne(value, done, rest[0], rest, rest[1..]);
    } else if |rest| >= 3 && DecodeHex(rest[1]) >= 0 && DecodeHex(rest[2]) >= 0 {
      DecodedOne(value, done, ByteOf(DecodeHex(rest[1]) * 16 + DecodeHex(rest[2])), rest, rest[3..]);
    }
  }

  method PercentDecodeLoop(value: Str) returns (result: Result<Str>)
    ensures result == PercentDecode(value)
  {
    hide DecodeBytes;
    var out: Str := [];
    var i := 0;
    DecodeStarts(value);
    assert value[0..] == value;
    while i < |value|
      invariant 0 <= i <= |value|
      invariant DecodedSoFar(value, out, value[i..])
    {
      ghost var rest := value[i..];
      hide DecodedSoFar;
      DecodeStep(value, out, rest);
      if value[i] == '%' {
        if i + 2 >= |value| {
          return Err(InvalidPercentEncoding);
        }
        var hi, lo := DecodeHex(value[i + 1]), DecodeHex(value[i + 2]);
        if hi < 0 || lo < 0 {
          return Err(InvalidPercentEncoding);
        }
        assert rest[3..] == value[i + 3..];
        out := out + [ByteOf(hi * 16 + lo)];
        i := i + 3;
      } else {
        assert rest[1..] == value[i + 1..];
        out := out + [value[i]];
        i := i + 1;
      }
    }
    assert value[i..] == [];
    DecodeEnds(value, out);
    result := if ValidUtf8(out) then Ok(out) else Err(InvalidPercentEncoding);
  }

  lemma HexDigitDecodes(n: int)
    requires 0 <= n < 16
    ensures DecodeHex(HEX[n]) == n && (('0' <= HEX[n] <= '9') || ('A' <= HEX[n] <= 'F'))
  {
    if n < 10 {
      assert HEX[n] == ('0' as int + n) as char;
    } else {
      assert HEX[n] == ('A' as int + n - 10) as char;
    }
  }

  predicate IsHexDigit(b: byte) {
    '0' <= b <= '9' || 'a' <= b <= 'f' || 'A' <= b <= 'F'
  }

  /** `b` is the hexadecimal digit of value `n`, in either case. */
  predicate IsDigitOf(b: byte, n: int)
    requires 0 <= n < 16
  {
    b == "0123456789ABCDEF"[n] || b == "0123456789abcdef"[n]
  }

  lemma DigitValue(b: byte, n: int)
    requires 0 <= n < 16
    ensures IsDigitOf(b, n) <==> DecodeHex(b) == n
  {
    if n < 10 {
      assert "0123456789ABCDEF"[n] == "0123456789abcdef"[n] == ('0' as int + n) as char;
    } else {
      assert "0123456789ABCDEF"[n] == ('A' as int + n - 10) as char;
      assert "0123456789abcdef"[n] == ('a' as int + n - 10) as char;
    }
  }

  lemma HexDigitsDecode(b: byte)
    ensures IsHexDigit(b) <==> DecodeHex(b) >= 0
  {
  }

  /** `text` spells `value`: each byte stands for itself, or is a `%` and its two hexadecimal digits. */
  ghost predicate Spells(text: Str, value: Str) {
    if value == [] then text == []
    else
      || (text != [] && text[0] != '%' && text[0] == value[0] && Spells(text[1..], value[1..]))
      || (|text| >= 3 && text[0] == '%'
          && IsDigitOf(text[1], value[0] as int / 16) && IsDigitOf(text[2], value[0] as int % 16)
          && Spells(text[3..], value[1..]))
  }

  lemma EscapedByte(hi: byte, lo: byte, b: byte)
    ensures IsDigitOf(hi, b as int / 16) && IsDigitOf(lo, b as int % 16) <==>
            DecodeHex(hi) >= 0 && DecodeHex(lo) >= 0 && ByteOf(DecodeHex(hi) * 16 + DecodeHex(lo)) == b
  {
    DigitValue(hi, b as int / 16);
    DigitValue(lo, b as int % 16);
    hide DecodeHex, IsDigitOf;
  }

  lemma PutFirst(b: byte, rest: Str, value: Str)
    ensures [b] + rest == value <==> value != [] && value[0] == b && rest == value[1..]
  {
    assert value != [] ==> value == [value[0]] + value[1..];
  }

  /** Decoding a text gives `value` exactly when the text spells it. */
  lemma {:induction false} DecodedExactly(text: Str, value: Str)
    ensures DecodeBytes(text) == Ok(value) <==> Spells(text, value)
    decreases |text|
  {
    hide DecodeHex, IsDigitOf;
    if text == [] {
    } else if text[0] != '%' {
      if value != [] { DecodedExactly(text[1..], value[1..]); }
      var rest := DecodeBytes(text[1..]);
      if rest.Ok? { PutFirst(text[0], rest.value, value); }
    } else if |text| < 3 {
    } else {
      if value != [] {
        DecodedExactly(text[3..], value[1..]);
        EscapedByte(text[1], text[2], value[0]);
      }
      var rest := DecodeBytes(text[3..]);
      if DecodeHex(text[1]) >= 0 && DecodeHex(text[2]) >= 0 && rest.Ok? {
        PutFirst(ByteOf(DecodeHex(text[1]) * 16 + DecodeHex(text[2])), rest.value, value);
      }
    }
  }

  /** If there is a `%` here, two hexadecimal digits follow. */
  predicate EscapeFits(text: Str, i: nat)
    requires i < |text|
  {
    text[i] == '%' ==> i + 2 < |text| && IsHexDigit(text[i + 1]) && IsHexDigit(text[i + 2])
  }

  /** Every `%` is followed by two hexadecimal digits. */
  ghost predicate WellEscaped(text: Str) {
    forall i | 0 <= i < |text| :: EscapeFits(text, i)
  }

  lemma WellEscapedTail(text: Str, n: nat)
    requires n <= |text|
    ensures WellEscaped(text) <==> WellEscaped(text[n..]) && forall i | 0 <= i < n :: EscapeFits(text, i)
  {
    forall i: nat | n <= i < |text| ensures EscapeFits(text, i) <==> EscapeFits(text[n..], i - n) {
      assert text[n..][i - n] == text[i];
    }
    hide EscapeFits;
    if WellEscaped(text) {
      forall i: nat | i < |text[n..]| ensures EscapeFits(text[n..], i) {
        assert EscapeFits(text, n + i);
      }
    }
  }

  lemma HexDigitIsNoPercent(b: byte)
    ensures IsHexDigit(b) ==> b != '%'
  {
  }

  /** A text decodes exactly when every `%` in it is followed by two hexadecimal digits. */
  lemma {:induction false} DecodableExactly(text: Str)
    ensures DecodeBytes(text).Ok? <==> WellEscaped(text)
    ensures DecodeBytes(text).Err? ==> DecodeBytes(text) == Err(InvalidPercentEncoding)
    decreases |text|
  {
    if text == [] {
    } else if text[0] != '%' {
      DecodableExactly(text[1..]);
      WellEscapedTail(text, 1);
      assert EscapeFits(text, 0);
    } else if |text| < 3 {
      assert !EscapeFits(text, 0);
    } else {
      HexDigitsDecode(text[1]);
      HexDigitsDecode(text[2]);
      HexDigitIsNoPercent(text[1]);
      HexDigitIsNoPercent(text[2]);
      hide DecodeHex, IsHexDigit;
      DecodableExactly(text[3..]);
      WellEscapedTail(text, 3);
      assert EscapeFits(text, 0) ==> EscapeFits(text, 1) && EscapeFits(text, 2);
      hide WellEscaped;
    }
  }

  /** The same hexadecimal digit, possibly in the other case. */
  predicate SameDigit(a: byte, b: byte) {
    a == b || ('A' <= b <= 'F' && a as int == b as int + 32)
  }

  /** `text` is `encoded`, except that the digits of escapes may be in lower case. */
  ghost predicate CaseVariant(text: Str, encoded: Str) {
    if encoded == [] then text == []
    else if encoded[0] == '%' && |encoded| >= 3 then
      |text| >= 3 && text[0] == '%' && SameDigit(text[1], encoded[1]) && SameDigit(text[2], encoded[2])
      && CaseVariant(text[3..], encoded[3..])
    else text != [] && text[0] == encoded[0] && CaseVariant(text[1..], encoded[1..])
  }

  lemma SameDigitSpells(b: byte, n: int)
    requires 0 <= n < 16 && SameDigit(b, HEX[n])
    ensures IsDigitOf(b, n)
  {
    if n < 10 {
      assert HEX[n] == ('0' as int + n) as char;
    } else {
      assert HEX[n] == ('A' as int + n - 10) as char;
      assert "0123456789abcdef"[n] == ('a' as int + n - 10) as char;
    }
  }

  /** Escapes mean the same in either case (section 2.1 of RFC 3986). */
  lemma {:induction false} EncodedSpells(text: Str, value: Str)
    requires CaseVariant(text, PercentEncode(value))
    ensures Spells(text, value)
    decreases |value|
  {
    if value == [] {
    } else {
      var b, rest := value[0], PercentEncode(value[1..]);
      var enc := EncodeByte(b) + rest;
      assert PercentEncode(value) == enc;
      hide PercentEncode, IsDigitOf, SameDigit;
      if Unreserved(b) {
        assert enc[1..] == rest && enc[0] == b != '%';
        EncodedSpells(text[1..], value[1..]);
      } else {
        assert enc[0] == '%' && enc[1] == HEX[b as int / 16] && enc[2] == HEX[b as int % 16] && enc[3..] == rest;
        EncodedSpells(text[3..], value[1..]);
        SameDigitSpells(text[1], b as int / 16);
        SameDigitSpells(text[2], b as int % 16);
      }
    }
  }

  lemma CaseDoesNotMatter(text: Str, value: Str)
    requires CaseVariant(text, PercentEncode(value))
    ensures DecodeBytes(text) == Ok(value)
  {
    EncodedSpells(text, value);
    DecodedExactly(text, value);
  }

  lemma {:induction false} CaseVariantSelf(text: Str)
    ensures CaseVariant(text, text)
    decreases |text|
  {
    if text == [] {
    } else if text[0] == '%' && |text| >= 3 {
      CaseVariantSelf(text[3..]);
    } else {
      CaseVariantSelf(text[1..]);
    }
  }

  /** Decoding inverts encoding on every byte string. */
  lemma DecodeInvertsEncode(value: Str)
    ensures DecodeBytes(PercentEncode(value)) == Ok(value)
  {
    CaseVariantSelf(PercentEncode(value));
    CaseDoesNotMatter(PercentEncode(value), value);
  }

  lemma UpperListed(b: byte)
    ensures 'A' <= b <= 'Z' <==> b in "ABCDEFGHIJKLMNOPQRSTUVWXYZ"
  {
    if 'A' <= b <= 'Z' {
      assert "ABCDEFGHIJKLMNOPQRSTUVWXYZ"[b as int - 'A' as int] == b;
    }
  }

  lemma LowerListed(b: byte)
    ensures 'a' <= b <= 'z' <==> b in "abcdefghijklmnopqrstuvwxyz"
  {
    if 'a' <= b <= 'z' {
      assert "abcdefghijklmnopqrstuvwxyz"[b as int - 'a' as int] == b;
    }
  }

  lemma OthersListed(b: byte)
    ensures '0' <= b <= '9' || b == '-' || b == '.' || b == '_' || b == '~' <==> b in "0123456789-._~"
  {
    if '0' <= b <= '9' {
      assert "0123456789-._~"[b as int - '0' as int] == b;
    }
    assert "0123456789-._~"[10] == '-' && "0123456789-._~"[11] == '.';
    assert "0123456789-._~"[12] == '_' && "0123456789-._~"[13] == '~';
  }

  /** The unreserved characters (section 2.3 of RFC 3986), listed. */
  lemma UnreservedListed(b: byte)
    ensures Unreserved(b) <==>
            b in "ABCDEFGHIJKLMNOPQRSTUVWXYZ" || b in "abcdefghijklmnopqrstuvwxyz" || b in "0123456789-._~"
  {
    UpperListed(b);
    LowerListed(b);
    OthersListed(b);
  }

  /** The encoded text uses unreserved characters, `%` and upper-case hexadecimal digits only. */
  lemma {:induction false} EncodedCharacters(value: Str)
    ensures forall b | b in PercentEncode(value) :: Unreserved(b) || b == '%'
    ensures PercentEncode(value) == [] <==> value == []
  {
    if value == [] {
    } else {
      EncodedCharacters(value[1..]);
      HexDigitDecodes(value[0] as int / 16);
      HexDigitDecodes(value[0] as int % 16);
    }
  }

  predicate IsUpperHex(b: byte) {
    '0' <= b <= '9' || 'A' <= b <= 'F'
  }

  /** In encoded text every `%` is followed by two upper-case hexadecimal digits. */
  lemma {:induction false} EncodedEscapes(value: Str, i: nat)
    requires i < |PercentEncode(value)| && PercentEncode(value)[i] == '%'
    ensures i + 2 < |PercentEncode(value)|
    ensures IsUpperHex(PercentEncode(value)[i + 1]) && IsUpperHex(PercentEncode(value)[i + 2])
  {
    var first, rest := EncodeByte(value[0]), PercentEncode(value[1..]);
    assert PercentEncode(value) == first + rest;
    HexDigitDecodes(value[0] as int / 16);
    HexDigitDecodes(value[0] as int % 16);
    hide PercentEncode;
    if i < |first| {
    } else {
      assert rest[i - |first|] == '%';
      EncodedEscapes(value[1..], i - |first|);
    }
  }

  /** Text is left alone exactly when it is unreserved throughout. */
  lemma {:induction false} UnreservedStays(value: Str)
    ensures PercentEncode(value) == value <==> forall b | b in value :: Unreserved(b)
    ensures |PercentEncode(value)| >= |value|
  {
    if value == [] {
    } else {
      UnreservedStays(value[1..]);
      var rest := PercentEncode(value[1..]);
      assert PercentEncode(value) == EncodeByte(value[0]) + rest;
      hide PercentEncode;
      assert value == [value[0]] + value[1..];
      if Unreserved(value[0]) {
        assert ([value[0]] + rest)[1..] == rest;
      }
    }
  }

  lemma DecodedIsNonempty(value: Str)
    requires value != [] && DecodeBytes(value).Ok?
    ensures DecodeBytes(value).value != []
  {
  }

  /** Percent encoding round-trips every `str`. */
  lemma PercentRoundTrip(value: Str)
    requires ValidUtf8(value)
    ensures PercentDecode(PercentEncode(value)) == Ok(value)
  {
    DecodeInvertsEncode(value);
  }

  // ---- clone URLs ----

  function Split(s: Str, separator: byte): (parts: seq<Str>)
    ensures parts != []
  {
    if s == [] then [[]]
    else
      var rest := Split(s[1..], separator);
      if s[0] == separator then [[]] + rest else [[s[0]] + rest[0]] + rest[1..]
  }

  predicate StartsWith(s: Str, prefix: Str) {
    prefix <= s
  }

  /** The match on the number of path segments. */
  function ParseParts(parts: seq<Str>): Result<NostrRemote>
    requires parts != []
  {
    if parts[0] == [] then Err(EmptyAuthority)
    else if |parts| == 1 then Ok(Announcement(parts[0]))
    else if |parts| == 2 then
      if parts[1] == [] then Err(MissingIdentifier)
      else match PercentDecode(parts[1])
        case Err(e) => Err(e)
        case Ok(identifier) => Ok(Coordinate(parts[0], NoHint, identifier))
    else if |parts| == 3 then
      if parts[1] == [] || parts[2] == [] then Err(MissingIdentifier)
      else match PercentDecode(parts[1])
        case Err(e) => Err(e)
        case Ok(relay) =>
          match PercentDecode(parts[2])
          case Err(e) => Err(e)
          case Ok(identifier) => Ok(Coordinate(parts[0], Hint(relay), identifier))
    else Err(InvalidPathSegments)
  }

  function ParseCloneUrl(input: Str, scheme: Str): Result<NostrRemote> {
    if !StartsWith(input, scheme) then Err(InvalidScheme)
    else
      var rest := input[|scheme|..];
      if rest == [] then Err(EmptyAuthority)
      else if '?' in rest || '#' in rest then Err(InvalidPathSegments)
      else ParseParts(Split(rest, '/'))
  }

  function FormatParts(remote: NostrRemote): (parts: seq<Str>)
    ensures parts != []
  {
    match remote
    case Announcement(naddr) => [naddr]
    case Coordinate(owner, NoHint, identifier) => [owner, PercentEncode(identifier)]
    case Coordinate(owner, Hint(relay), identifier) => [owner, PercentEncode(relay), PercentEncode(identifier)]
  }

  function Slashed(parts: seq<Str>): Str
    requires parts != []
  {
    if |parts| == 1 then parts[0] else parts[0] + ['/'] + Slashed(parts[1..])
  }

  function FormatCloneUrl(scheme: Str, remote: NostrRemote): Str {
    scheme + Slashed(FormatParts(remote))
  }

  /** Parse under one scheme and print under another. */
  function Convert(input: Str, from: Str, to: Str): Result<Str> {
    match ParseCloneUrl(input, from)
    case Err(e) => Err(e)
    case Ok(remote) => Ok(FormatCloneUrl(to, remote))
  }

  function NormalizeNostrCloneUrl(input: Str): Result<Str> { Convert(input, NOSTR, NOSTR) }

  function NormalizeP2pCloneUrl(input: Str): Result<Str> { Convert(input, P2P, P2P) }

  function NostrToP2pCloneUrl(input: Str): Result<Str> { Convert(input, NOSTR, P2P) }

  function P2pToNostrCloneUrl(input: Str): Result<Str> { Convert(input, P2P, NOSTR) }

  /** A string that can stand before the first `/` of a URL. */
  predicate IsAuthority(s: Str) {
    s != [] && '/' !in s && '?' !in s && '#' !in s
  }

  /** A remote whose parts can be told apart again after printing. */
  predicate WellFormed(remote: NostrRemote) {
    match remote
    case Announcement(naddr) => IsAuthority(naddr)
    case Coordinate(owner, hint, identifier) =>
      && IsAuthority(owner)
      && identifier != [] && ValidUtf8(identifier)
      && (hint.Hint? ==> hint.relay != [] && ValidUtf8(hint.relay))
  }

  lemma {:induction false} SplitAtSeparator(a: Str, b: Str, separator: byte)
    requires separator !in a
    ensures Split(a, separator) == [a]
    ensures Split(a + [separator] + b, separator) == [a] + Split(b, separator)
  {
    if a == [] {
      assert a + [separator] + b == [separator] + b;
    } else {
      SplitAtSeparator(a[1..], b, separator);
      assert (a + [separator] + b)[1..] == a[1..] + [separator] + b;
      assert a == [a[0]] + a[1..];
      assert (a + [separator] + b)[0] == a[0];
    }
  }

  lemma {:induction false} SplitParts(s: Str, separator: byte, part: Str)
    requires part in Split(s, separator)
    ensures separator !in part && forall b | b in part :: b in s
  {
    if s == [] {
    } else {
      var rest := Split(s[1..], separator);
      if s[0] == separator {
        if part != [] { SplitParts(s[1..], separator, part); }
      } else {
        var i :| 0 <= i < |Split(s, separator)| && Split(s, separator)[i] == part;
        if i == 0 {
          SplitParts(s[1..], separator, rest[0]);
        } else {
          assert part == rest[i];
          SplitParts(s[1..], separator, part);
        }
      }
    }
  }

  lemma EncodedIsPlain(value: Str)
    ensures '/' !in PercentEncode(value) && '?' !in PercentEncode(value) && '#' !in PercentEncode(value)
    ensures PercentEncode(value) == [] <==> value == []
  {
    EncodedCharacters(value);
  }

  lemma DecodeOfEncoded(value: Str)
    requires ValidUtf8(value) && value != []
    ensures '/' !in PercentEncode(value) && '?' !in PercentEncode(value) && '#' !in PercentEncode(value)
    ensures PercentEncode(value) != [] && PercentDecode(PercentEncode(value)) == Ok(value)
  {
    EncodedIsPlain(value);
    PercentRoundTrip(value);
  }

  lemma {:induction false} SplitOfSlashed(parts: seq<Str>)
    requires parts != [] && forall i | 0 <= i < |parts| :: '/' !in parts[i]
    ensures Split(Slashed(parts), '/') == parts
  {
    hide Split;
    if |parts| == 1 {
      SplitAtSeparator(parts[0], [], '/');
      assert parts == [parts[0]];
    } else {
      SplitOfSlashed(parts[1..]);
      SplitAtSeparator(parts[0], Slashed(parts[1..]), '/');
      assert parts == [parts[0]] + parts[1..];
    }
  }

  lemma {:induction false} SlashedCharacters(parts: seq<Str>, b: byte)
    requires parts != [] && b != '/' && forall i | 0 <= i < |parts| :: b !in parts[i]
    ensures b !in Slashed(parts)
  {
    if |parts| == 1 {
    } else {
      SlashedCharacters(parts[1..], b);
    }
  }

  lemma FormattedParts(remote: NostrRemote)
    requires WellFormed(remote)
    ensures var parts := FormatParts(remote);
            && (forall i | 0 <= i < |parts| :: parts[i] != [] && '/' !in parts[i] && '?' !in parts[i] && '#' !in parts[i])
            && ParseParts(parts) == Ok(remote)
  {
    hide PercentEncode, PercentDecode, ValidUtf8;
    if remote.Coordinate? {
      DecodeOfEncoded(remote.identifier);
      if remote.relayHint.Hint? {
        DecodeOfEncoded(remote.relayHint.relay);
      }
    }
  }

  /** Printing a well-formed remote and parsing the result gives the remote back. */
  lemma FormatThenParse(scheme: Str, remote: NostrRemote)
    requires WellFormed(remote)
    ensures ParseCloneUrl(FormatCloneUrl(scheme, remote), scheme) == Ok(remote)
  {
    var parts := FormatParts(remote);
    FormattedParts(remote);
    SplitOfSlashed(parts);
    SlashedCharacters(parts, '?');
    SlashedCharacters(parts, '#');
    assert Slashed(parts) != [] by { assert parts[0] != []; }
    hide FormatParts, ParseParts, Slashed, Split, WellFormed;
    assert FormatCloneUrl(scheme, remote)[|scheme|..] == Slashed(parts);
  }

  /** A byte put in front of the first segment comes out in front of the whole. */
  lemma SlashedPrepend(b: byte, parts: seq<Str>)
    requires parts != []
    ensures Slashed([[b] + parts[0]] + parts[1..]) == [b] + Slashed(parts)
  {
    var longer := [[b] + parts[0]] + parts[1..];
    assert longer[1..] == parts[1..];
  }

  lemma {:induction false} SlashedOfSplit(s: Str)
    ensures Slashed(Split(s, '/')) == s
  {
    if s == [] {
    } else {
      SlashedOfSplit(s[1..]);
      var rest := Split(s[1..], '/');
      assert s == [s[0]] + s[1..];
      if s[0] == '/' {
        assert Split(s, '/') == [[]] + rest;
        hide Split;
        assert ([[]] + rest)[1..] == rest;
      } else {
        assert Split(s, '/') == [[s[0]] + rest[0]] + rest[1..];
        hide Split;
        SlashedPrepend(s[0], rest);
      }
    }
  }

  /** One to three nonempty segments free of delimiters, the ones after the first decodable. */
  ghost predicate AcceptableParts(parts: seq<Str>) {
    && 1 <= |parts| <= 3
    && (forall i | 0 <= i < |parts| :: parts[i] != [] && '/' !in parts[i] && '?' !in parts[i] && '#' !in parts[i])
    && forall i | 1 <= i < |parts| :: PercentDecode(parts[i]).Ok?
  }

  /** A URL is accepted exactly when it is the scheme followed by acceptable parts with slashes between. */
  lemma AcceptedExactly(input: Str, scheme: Str)
    ensures ParseCloneUrl(input, scheme).Ok? <==>
            exists parts :: AcceptableParts(parts) && input == scheme + Slashed(parts)
  {
    if ParseCloneUrl(input, scheme).Ok? {
      var rest := input[|scheme|..];
      var parts := Split(rest, '/');
      SlashedOfSplit(rest);
      forall i | 0 <= i < |parts| ensures '/' !in parts[i] && '?' !in parts[i] && '#' !in parts[i] {
        SplitParts(rest, '/', parts[i]);
      }
      hide Split, Slashed, PercentDecode;
      assert AcceptableParts(parts);
      assert input == scheme + rest;
    }
    if parts :| AcceptableParts(parts) && input == scheme + Slashed(parts) {
      SplitOfSlashed(parts);
      SlashedCharacters(parts, '?');
      SlashedCharacters(parts, '#');
      assert parts[0] != [] && Slashed(parts) != [];
      hide Split, Slashed, PercentDecode;
      assert input[|scheme|..] == Slashed(parts);
    }
  }

  ghost predicate SlashFree(parts: seq<Str>) {
    forall i | 0 <= i < |parts| :: '/' !in parts[i]
  }

  lemma {:induction false} SlashedHolds(parts: seq<Str>, b: byte, i: nat)
    requires i < |parts| && b in parts[i]
    ensures b in Slashed(parts)
  {
    if i == 0 {
    } else {
      SlashedHolds(parts[1..], b, i - 1);
    }
  }

  lemma SlashedHas(parts: seq<Str>, b: byte)
    requires parts != [] && b != '/'
    ensures b in Slashed(parts) <==> exists i :: 0 <= i < |parts| && b in parts[i]
  {
    if i :| 0 <= i < |parts| && b in parts[i] {
      SlashedHolds(parts, b, i);
    } else {
      SlashedCharacters(parts, b);
    }
  }

  lemma SlashedEmpty(parts: seq<Str>)
    requires parts != []
    ensures Slashed(parts) == [] <==> parts == [[]]
  {
  }

  lemma SegmentsParsed(parts: seq<Str>)
    requires parts != []
    ensures ParseParts(parts) ==
            if parts[0] == [] then Err(EmptyAuthority)
            else if |parts| > 3 then Err(InvalidPathSegments)
            else if [] in parts[1..] then Err(MissingIdentifier)
            else if exists i :: 1 <= i < |parts| && PercentDecode(parts[i]).Err? then Err(InvalidPercentEncoding)
            else if |parts| == 1 then Ok(Announcement(parts[0]))
            else if |parts| == 2 then Ok(Coordinate(parts[0], NoHint, PercentDecode(parts[1]).value))
            else Ok(Coordinate(parts[0], Hint(PercentDecode(parts[1]).value), PercentDecode(parts[2]).value))
  {
    forall i | 1 <= i < |parts| ensures PercentDecode(parts[i]).Err? ==> PercentDecode(parts[i]) == Err(InvalidPercentEncoding) {
    }
    hide PercentDecode;
    if |parts| == 2 {
      assert parts[1..] == [parts[1]];
    } else if |parts| == 3 {
      assert parts[1..] == [parts[1], parts[2]];
    }
  }

  /** Every outcome of parsing, errors included, read off the segments between the slashes. */
  lemma ParsedExactly(scheme: Str, parts: seq<Str>)
    requires parts != [] && SlashFree(parts)
    ensures ParseCloneUrl(scheme + Slashed(parts), scheme) ==
            if parts == [[]] then Err(EmptyAuthority)
            else if exists i :: 0 <= i < |parts| && ('?' in parts[i] || '#' in parts[i]) then Err(InvalidPathSegments)
            else if parts[0] == [] then Err(EmptyAuthority)
            else if |parts| > 3 then Err(InvalidPathSegments)
            else if [] in parts[1..] then Err(MissingIdentifier)
            else if exists i :: 1 <= i < |parts| && PercentDecode(parts[i]).Err? then Err(InvalidPercentEncoding)
            else if |parts| == 1 then Ok(Announcement(parts[0]))
            else if |parts| == 2 then Ok(Coordinate(parts[0], NoHint, PercentDecode(parts[1]).value))
            else Ok(Coordinate(parts[0], Hint(PercentDecode(parts[1]).value), PercentDecode(parts[2]).value))
  {
    SlashedHas(parts, '?');
    SlashedHas(parts, '#');
    SplitOfSlashed(parts);
    SlashedEmpty(parts);
    SegmentsParsed(parts);
    hide Slashed, Split, PercentDecode, ParseParts;
    assert (scheme + Slashed(parts))[|scheme|..] == Slashed(parts);
  }

  lemma OtherSchemesRejected(input: Str, scheme: Str)
    ensures !(scheme <= input) <==> ParseCloneUrl(input, scheme) == Err(InvalidScheme)
  {
    if scheme <= input {
      var rest := input[|scheme|..];
      var parts := Split(rest, '/');
      SegmentsParsed(parts);
      hide Split, ParseParts, PercentDecode;
    }
  }

  lemma SlashedTwoOrThree(a: Str, b: Str, c: Str)
    ensures Slashed([a, b]) == a + "/" + b
    ensures Slashed([a, b, c]) == a + "/" + b + "/" + c
  {
    assert [a, b][1..] == [b] && [a, b, c][1..] == [b, c] && [b, c][1..] == [c];
    assert Slashed([b, c]) == b + "/" + c;
    assert a + "/" + (b + "/" + c) == a + "/" + b + "/" + c;
  }

  /** How the two kinds of remote are written. */
  lemma WrittenForm(scheme: Str, owner: Str, relay: Str, identifier: Str)
    ensures FormatCloneUrl(scheme, Announcement(owner)) == scheme + owner
    ensures FormatCloneUrl(scheme, Coordinate(owner, NoHint, identifier))
         == scheme + (owner + "/" + PercentEncode(identifier))
    ensures FormatCloneUrl(scheme, Coordinate(owner, Hint(relay), identifier))
         == scheme + (owner + "/" + PercentEncode(relay) + "/" + PercentEncode(identifier))
  {
    SlashedTwoOrThree(owner, PercentEncode(identifier), []);
    SlashedTwoOrThree(owner, PercentEncode(relay), PercentEncode(identifier));
    hide PercentEncode;
  }

  /** What each of the four conversions reads and writes. */
  lemma SchemesKept(input: Str)
    ensures NormalizeNostrCloneUrl(input).Ok? ==>
              "nostr://" <= input && "nostr://" <= NormalizeNostrCloneUrl(input).value
    ensures NormalizeP2pCloneUrl(input).Ok? ==> "p2p://" <= input && "p2p://" <= NormalizeP2pCloneUrl(input).value
    ensures NostrToP2pCloneUrl(input).Ok? ==> "nostr://" <= input && "p2p://" <= NostrToP2pCloneUrl(input).value
    ensures P2pToNostrCloneUrl(input).Ok? ==> "p2p://" <= input && "nostr://" <= P2pToNostrCloneUrl(input).value
  {
    hide ParseParts, Split, FormatParts, Slashed;
  }

  lemma DecodedIsText(value: Str)
    requires value != [] && PercentDecode(value).Ok?
    ensures PercentDecode(value).value != [] && ValidUtf8(PercentDecode(value).value)
  {
    DecodedIsNonempty(value);
  }

  /** Parsing only yields well-formed remotes. */
  lemma ParsedIsWellFormed(input: Str, scheme: Str)
    requires ParseCloneUrl(input, scheme).Ok?
    ensures WellFormed(ParseCloneUrl(input, scheme).value)
  {
    var rest := input[|scheme|..];
    var parts := Split(rest, '/');
    SplitParts(rest, '/', parts[0]);
    hide PercentDecode, ValidUtf8, Split;
    if |parts| == 2 {
      DecodedIsText(parts[1]);
    } else if |parts| == 3 {
      DecodedIsText(parts[1]);
      DecodedIsText(parts[2]);
    }
  }

  /** A remote survives printing and parsing exactly when it is well formed. */
  lemma RoundTripsExactlyWellFormed(scheme: Str, remote: NostrRemote)
    ensures ParseCloneUrl(FormatCloneUrl(scheme, remote), scheme) == Ok(remote) <==> WellFormed(remote)
  {
    if WellFormed(remote) {
      FormatThenParse(scheme, remote);
    } else if ParseCloneUrl(FormatCloneUrl(scheme, remote), scheme).Ok? {
      ParsedIsWellFormed(FormatCloneUrl(scheme, remote), scheme);
    }
  }

  /** Converting to a scheme and on to another is converting there directly, errors included. */
  lemma ConversionsCompose(input: Str, from: Str, via: Str, to: Str)
    ensures match Convert(input, from, via)
            case Err(e) => Convert(input, from, to) == Err(e)
            case Ok(url) => Convert(url, via, to) == Convert(input, from, to)
  {
    match ParseCloneUrl(input, from)
    case Err(e) =>
    case Ok(remote) =>
      ParsedIsWellFormed(input, from);
      FormatThenParse(via, remote);
      hide ParseCloneUrl, FormatCloneUrl;
  }

  /** Normalizing twice is normalizing once. */
  lemma NormalizeIsIdempotent(input: Str)
    ensures NormalizeNostrCloneUrl(input).Ok? ==>
              NormalizeNostrCloneUrl(NormalizeNostrCloneUrl(input).value) == NormalizeNostrCloneUrl(input)
    ensures NormalizeP2pCloneUrl(input).Ok? ==>
              NormalizeP2pCloneUrl(NormalizeP2pCloneUrl(input).value) == NormalizeP2pCloneUrl(input)
  {
    hide Convert;
    ConversionsCompose(input, NOSTR, NOSTR, NOSTR);
    ConversionsCompose(input, P2P, P2P, P2P);
  }

  /** Going to `p2p://` and back is normalization, on every URL that is accepted. */
  lemma ThereAndBackNormalizes(input: Str)
    ensures match NostrToP2pCloneUrl(input)
            case Err(e) => NormalizeNostrCloneUrl(input) == Err(e)
            case Ok(url) => P2pToNostrCloneUrl(url) == NormalizeNostrCloneUrl(input)
    ensures match P2pToNostrCloneUrl(input)
            case Err(e) => NormalizeP2pCloneUrl(input) == Err(e)
            case Ok(url) => NostrToP2pCloneUrl(url) == NormalizeP2pCloneUrl(input)
  {
    hide Convert;
    ConversionsCompose(input, NOSTR, P2P, NOSTR);
    ConversionsCompose(input, P2P, NOSTR, P2P);
  }
}

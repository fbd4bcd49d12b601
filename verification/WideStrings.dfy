/** Wide strings, in UTF-16 or UTF-32 as wchar_t has two or four bytes, written as UTF-8. */
module WideStrings {
  import opened Options
  import opened Bits
  import opened Utf8

  type UInt32 = c: nat | c < 0x1_0000_0000

  /** A wide C string: no NUL inside; reading one past the end gives the NUL. */
  type WideString = s: seq<UInt32> | 0 !in s

  function At(s: WideString, i: nat): UInt32
    requires i <= |s|
  {
    if i == |s| then 0 else s[i]
  }

  function FormatHexInt(value: nat): seq<Byte> {
    (if value < 16 then [] else FormatHexInt(value / 16)) + [HexDigit(value % 16) as nat]
  }

  predicate IsAscii(s: string) { forall i | 0 <= i < |s| :: s[i] as nat < 128 }

  function Bytes(s: string): (bytes: seq<Byte>)
    requires IsAscii(s)
    ensures |bytes| == |s| && forall i | 0 <= i < |s| :: bytes[i] == s[i] as nat
  {
    seq(|s|, i requires 0 <= i < |s| => s[i] as nat)
  }

  /** The message that stands for a value that is not a code point. */
  function Message(c: UInt32): (text: seq<Byte>)
    ensures |text| >= 20
  {
    Bytes("(Invalid Unicode 0x") + FormatHexInt(c) + Bytes(")")
  }

  /** What is written for a code point: nothing for NUL, which ends a C string. */
  function Written(c: UInt32): seq<Byte> {
    if c > MAX_CODE_POINT_4 then Message(c) else if c == 0 then [] else Encode(c)
  }

  function WrittenAll(codePoints: seq<UInt32>): seq<Byte> {
    if codePoints == [] then [] else Written(codePoints[0]) + WrittenAll(codePoints[1..])
  }

  /** Shifts the n lowest bits out. */
  method ChopLowBits(bits: nat, n: nat) returns (lowBits: int, rest: int)
    ensures lowBits == bits % Pow2(n) && rest == bits / Pow2(n)
  {
    lowBits := bits % Pow2(n);
    rest := bits / Pow2(n);
  }

  /** The six lowest bits make a continuation byte. */
  method ChopContinuation(bits: UInt32) returns (continuation: Byte, rest: UInt32)
    ensures continuation == 0x80 + bits % 0x40 && rest == bits / 0x40
  {
    var low;
    assert Pow2(6) == 0x40;
    low, rest := ChopLowBits(bits, 6);
    continuation := 0x80 + low;
  }

  /** The bytes of a buffer up to its first NUL. */
  function UpToNul(buffer: seq<Byte>): seq<Byte>
    requires 0 in buffer
  {
    if buffer[0] == 0 then [] else [buffer[0]] + UpToNul(buffer[1..])
  }

  lemma {:induction false} UpToNulIs(buffer: seq<Byte>, n: nat)
    requires n < |buffer| && buffer[n] == 0 && forall k | 0 <= k < n :: buffer[k] != 0
    ensures UpToNul(buffer) == buffer[..n]
  {
    if n > 0 {
      UpToNulIs(buffer[1..], n - 1);
      assert buffer[..n] == [buffer[0]] + buffer[1..][..n - 1];
    }
  }

  method CodePointToUtf8(c: UInt32) returns (text: seq<Byte>)
    ensures text == Written(c)
  {
    if c > MAX_CODE_POINT_4 {
      return Message(c);
    }
    var str := new Byte[5];
    var codePoint := c;
    if codePoint <= MAX_CODE_POINT_1 {
      str[1] := 0;
      str[0] := codePoint;
      UpToNulIs(str[..], if c == 0 then 0 else 1);
      assert UpToNul(str[..]) == Written(c);
    } else if codePoint <= MAX_CODE_POINT_2 {
      str[2] := 0;
      str[1], codePoint := ChopContinuation(codePoint);
      str[0] := 0xC0 + codePoint;
      UpToNulIs(str[..], 2);
      assert UpToNul(str[..]) == Written(c);
    } else if codePoint <= MAX_CODE_POINT_3 {
      str[3] := 0;
      str[2], codePoint := ChopContinuation(codePoint);
      str[1], codePoint := ChopContinuation(codePoint);
      assert codePoint == c / 0x1000;
      str[0] := 0xE0 + codePoint;
      UpToNulIs(str[..], 3);
      assert UpToNul(str[..]) == Written(c);
    } else {
      str[4] := 0;
      str[3], codePoint := ChopContinuation(codePoint);
      str[2], codePoint := ChopContinuation(codePoint);
      assert codePoint == c / 0x1000;
      str[1], codePoint := ChopContinuation(codePoint);
      assert codePoint == c / 0x4_0000;
      str[0] := 0xF0 + codePoint;
      UpToNulIs(str[..], 4);
      assert UpToNul(str[..]) == Written(c);
    }
    text := UpToNul(str[..]);
  }

  /** The high and the low half of a UTF-16 pair. */
  predicate IsUtf16SurrogatePair(wcharSize: nat, first: UInt32, second: UInt32) {
    wcharSize == 2 && first / 0x400 == 0xD800 / 0x400 && second / 0x400 == 0xDC00 / 0x400
  }

  function CreateCodePointFromUtf16SurrogatePair(wcharSize: nat, first: UInt32, second: UInt32): UInt32 {
    if wcharSize == 2 then first % 0x400 * 0x400 + second % 0x400 + 0x1_0000 else first
  }

  /** The code points in str[i..limit]. */
  function CodePoints(wcharSize: nat, str: WideString, i: nat, limit: nat): seq<UInt32>
    requires i <= limit <= |str|
    decreases limit - i
  {
    if i == limit then []
    else if i + 1 < limit && IsUtf16SurrogatePair(wcharSize, str[i], str[i + 1]) then
      [CreateCodePointFromUtf16SurrogatePair(wcharSize, str[i], str[i + 1])] + CodePoints(wcharSize, str, i + 2, limit)
    else [str[i]] + CodePoints(wcharSize, str, i + 1, limit)
  }

  /** How much of the string a limit leaves; -1 is none. */
  function Limit(length: nat, numChars: int): nat {
    if numChars == -1 || numChars > length then length else if numChars < 0 then 0 else numChars
  }

  /** Writes "\\0" for NULs. */
  method StringStreamToString(stream: seq<Byte>) returns (result: seq<Byte>)
    ensures 0 !in result && (0 !in stream ==> result == stream)
  {
    result := [];
    for ch := 0 to |stream|
      invariant 0 !in result && (0 !in stream[..ch] ==> result == stream[..ch])
    {
      if stream[ch] == 0 {
        result := result + ['\\' as nat, '0' as nat];
      } else {
        result := result + [stream[ch]];
      }
      assert stream[..ch + 1] == stream[..ch] + [stream[ch]];
    }
    assert stream == stream[..|stream|];
  }

  predicate Fits(wcharSize: nat, str: WideString) {
    (wcharSize == 2 || wcharSize == 4) && (wcharSize == 2 ==> forall i | 0 <= i < |str| :: str[i] < 0x1_0000)
  }

  lemma WrittenCons(c: UInt32, rest: seq<UInt32>)
    ensures WrittenAll([c] + rest) == Written(c) + WrittenAll(rest)
  {
    assert ([c] + rest)[1..] == rest;
  }

  /** No NUL is written, so nothing is replaced in the end. */
  lemma NoNulWritten(c: UInt32)
    ensures 0 !in Written(c)
  {
    if c > MAX_CODE_POINT_4 {
      NoNulInHex(c);
      NoNulInBytes("(Invalid Unicode 0x");
    }
  }

  lemma NoNulInBytes(s: string)
    requires IsAscii(s) && forall i | 0 <= i < |s| :: s[i] != '\0'
    ensures 0 !in Bytes(s)
  {
    forall i | 0 <= i < |s| ensures Bytes(s)[i] != 0 {
      assert s[i] != 0 as char;
    }
  }

  lemma {:induction false} NoNulInHex(value: nat)
    ensures 0 !in FormatHexInt(value)
  {
    if value >= 16 {
      NoNulInHex(value / 16);
    }
  }

  lemma {:induction false} NoNulWrittenAll(codePoints: seq<UInt32>)
    ensures 0 !in WrittenAll(codePoints)
  {
    if codePoints != [] {
      NoNulWritten(codePoints[0]);
      NoNulWrittenAll(codePoints[1..]);
    }
  }

  /** The code point at i, and where the next one is. */
  method NextCodePoint(wcharSize: nat, str: WideString, i: nat, n: int) returns (codePoint: UInt32, next: nat)
    requires Fits(wcharSize, str) && i < |str| && i < n
    ensures var limit := Limit(|str|, n);
      i < next <= limit && CodePoints(wcharSize, str, i, limit) == [codePoint] + CodePoints(wcharSize, str, next, limit)
  {
    next := i;
    if i + 1 < n && IsUtf16SurrogatePair(wcharSize, str[i], At(str, i + 1)) {
      codePoint := CreateCodePointFromUtf16SurrogatePair(wcharSize, str[i], str[i + 1]);
      next := next + 1;
    } else {
      codePoint := str[i];
    }
    next := next + 1;
  }

  lemma OneMoreWritten(stream: seq<Byte>, c: UInt32, rest: seq<UInt32>)
    ensures stream + WrittenAll([c] + rest) == stream + Written(c) + WrittenAll(rest)
  {
    WrittenCons(c, rest);
  }

  // The message.

  function DigitOf(b: Byte): Option<nat> {
    if '0' as nat <= b <= '9' as nat then Some(b - '0' as nat)
    else if 'A' as nat <= b <= 'F' as nat then Some(b - 'A' as nat + 10)
    else None
  }

  /** The value of the first n upper-case hexadecimal digits. */
  function HexNumber(digits: seq<Byte>, n: nat): Option<nat>
    requires n <= |digits|
  {
    if n == 0 then Some(0)
    else
      var rest, d := HexNumber(digits, n - 1), DigitOf(digits[n - 1]);
      if rest.Some? && d.Some? then Some(16 * rest.value + d.value) else None
  }

  lemma {:induction false} HexPrefix(a: seq<Byte>, b: seq<Byte>, n: nat)
    requires n <= |a| && a <= b
    ensures HexNumber(a, n) == HexNumber(b, n)
  {
    if n > 0 {
      HexPrefix(a, b, n - 1);
    }
  }

  lemma DigitIsRead(d: nat)
    requires d < 16
    ensures DigitOf(HexDigit(d) as nat) == Some(d)
  {
  }

  /** The number in the message is the value, without a leading zero. */
  lemma {:induction false} HexIsRead(value: nat)
    ensures var text := FormatHexInt(value);
      text != [] && HexNumber(text, |text|) == Some(value) && (text[0] == '0' as nat ==> value == 0)
  {
    var text := FormatHexInt(value);
    DigitIsRead(value % 16);
    if value >= 16 {
      HexIsRead(value / 16);
      HexPrefix(FormatHexInt(value / 16), text, |text| - 1);
    } else {
      assert HexNumber(text, 0) == Some(0);
    }
  }

  /** The message is "(Invalid Unicode 0x", the value, and ")". */
  lemma MessageIsRead(c: UInt32)
    ensures var text := Message(c);
      && text[..19] == Bytes("(Invalid Unicode 0x") && text[|text| - 1..] == Bytes(")")
      && HexNumber(text[19..|text| - 1], |text| - 20) == Some(c)
  {
    var text := Message(c);
    HexIsRead(c);
    assert text[19..|text| - 1] == FormatHexInt(c);
  }

  // What the result decodes to.

  predicate AreCodePoints(s: seq<UInt32>) { forall i | 0 <= i < |s| :: 0 < s[i] <= MAX_CODE_POINT_4 }

  lemma {:induction false} WrittenIsEncoded(s: seq<UInt32>, codePoints: seq<CodePoint>, i: nat)
    requires AreCodePoints(s) && codePoints == s && i <= |s|
    ensures WrittenAll(s[i..]) == EncodeAll(codePoints, i)
    decreases |s| - i
  {
    if i < |s| {
      WrittenIsEncoded(s, codePoints, i + 1);
      assert s[i..][0] == s[i] && s[i..][1..] == s[i + 1..];
    }
  }

  /** Code points are read back from what is written for them. */
  lemma WrittenIsDecoded(s: seq<UInt32>)
    requires AreCodePoints(s)
    ensures Decode(WrittenAll(s), 0) == Some(s)
  {
    var codePoints: seq<CodePoint> := s;
    assert s[0..] == s;
    WrittenIsEncoded(s, codePoints, 0);
    DecodeEncode(codePoints);
  }

  lemma {:induction false} NoPairs(str: WideString, i: nat, limit: nat)
    requires i <= limit <= |str|
    ensures CodePoints(4, str, i, limit) == str[i..limit]
    decreases limit - i
  {
    if i < limit {
      NoPairs(str, i + 1, limit);
      assert str[i..limit] == [str[i]] + str[i + 1..limit];
    }
  }

  /** Where wchar_t has four bytes, every string of code points is read back from its UTF-8, as far as the
      limit goes. */
  lemma Utf32IsDecoded(str: WideString, limit: nat)
    requires AreCodePoints(str) && limit <= |str|
    ensures Decode(WrittenAll(CodePoints(4, str, 0, limit)), 0) == Some(str[..limit])
  {
    NoPairs(str, 0, limit);
    assert str[0..limit] == str[..limit];
    WrittenIsDecoded(str[..limit]);
  }

  /** A Unicode scalar value other than NUL. */
  predicate IsScalar(c: nat) { 0 < c <= 0x10_ffff && !(0xD800 <= c < 0xE000) }

  /** UTF-16 as RFC 2781 defines it. */
  function Utf16(c: nat): (units: seq<UInt32>)
    requires IsScalar(c)
    ensures 1 <= |units| <= 2 && forall i | 0 <= i < |units| :: 0 < units[i] < 0x1_0000
  {
    if c < 0x1_0000 then [c] else [0xD800 + (c - 0x1_0000) / 0x400, 0xDC00 + (c - 0x1_0000) % 0x400]
  }

  predicate AreScalars(s: seq<UInt32>) { forall i | 0 <= i < |s| :: IsScalar(s[i]) }

  function Utf16All(s: seq<UInt32>, i: nat): (units: WideString)
    requires AreScalars(s) && i <= |s|
    ensures Fits(2, units)
    decreases |s| - i
  {
    if i == |s| then [] else Utf16(s[i]) + Utf16All(s, i + 1)
  }

  predicate IsHighSurrogate(c: nat) { 0xD800 <= c < 0xDC00 }

  predicate IsLowSurrogate(c: nat) { 0xDC00 <= c < 0xE000 }

  /** The units of one value, which may be a surrogate that is not part of a pair. */
  function Units(c: UInt32): seq<UInt32> {
    if IsScalar(c) then Utf16(c) else [c]
  }

  function UnitsAll(codePoints: seq<UInt32>): seq<UInt32> {
    if codePoints == [] then [] else Units(codePoints[0]) + UnitsAll(codePoints[1..])
  }

  lemma PairUnits(first: UInt32, second: UInt32)
    requires first < 0x1_0000 && second < 0x1_0000
    ensures IsUtf16SurrogatePair(2, first, second) <==> IsHighSurrogate(first) && IsLowSurrogate(second)
    ensures IsUtf16SurrogatePair(2, first, second) ==>
      Units(CreateCodePointFromUtf16SurrogatePair(2, first, second)) == [first, second]
  {
  }

  lemma UnitsCons(c: UInt32, rest: seq<UInt32>)
    ensures UnitsAll([c] + rest) == Units(c) + UnitsAll(rest)
  {
    assert ([c] + rest)[1..] == rest;
  }

  /** No two values that follow each other are a pair. */
  ghost predicate HasNoPairs(codePoints: seq<UInt32>) {
    forall k | 0 <= k < |codePoints| - 1 :: !(IsHighSurrogate(codePoints[k]) && IsLowSurrogate(codePoints[k + 1]))
  }

  /** Where wchar_t has two bytes, valid text or not: the units of the code points are those of the string,
      and no two code points that follow each other are a pair. */
  lemma {:induction false} UnitsAreKept(str: WideString, i: nat, limit: nat)
    requires Fits(2, str) && i <= limit <= |str|
    ensures var codePoints := CodePoints(2, str, i, limit);
      && UnitsAll(codePoints) == str[i..limit] && HasNoPairs(codePoints)
      && (codePoints != [] ==> i < limit && (IsLowSurrogate(codePoints[0]) ==> codePoints[0] == str[i]))
    decreases limit - i
  {
    if i < limit {
      if i + 1 < limit {
        PairUnits(str[i], str[i + 1]);
      }
      var next := if i + 1 < limit && IsUtf16SurrogatePair(2, str[i], str[i + 1]) then i + 2 else i + 1;
      var c := if next == i + 2 then CreateCodePointFromUtf16SurrogatePair(2, str[i], str[i + 1]) else str[i];
      UnitsAreKept(str, next, limit);
      UnitsCons(c, CodePoints(2, str, next, limit));
      assert str[i..limit] == Units(c) + str[next..limit];
    }
  }

  lemma UnitsDiffer(c: UInt32, d: UInt32)
    requires Units(c) == Units(d)
    ensures c == d
  {
    assert Units(c)[0] == Units(d)[0];
    if |Units(c)| == 2 {
      assert Units(c)[1] == Units(d)[1];
    }
  }

  /** Where one list takes the first two units as a pair and the other does not, the other one leaves a pair. */
  lemma PairIsLeft(a: seq<UInt32>, b: seq<UInt32>)
    requires a != [] && b != [] && UnitsAll(a) == UnitsAll(b)
    requires |Units(a[0])| == 1 && |Units(b[0])| == 2
    ensures !HasNoPairs(a)
  {
    var all := UnitsAll(a);
    assert all[0] == Units(b[0])[0] == a[0] && all[1] == Units(b[0])[1];
    assert all[1..] == UnitsAll(a[1..]);
    assert all[1] == all[1..][0] == Units(a[1])[0];
    assert IsHighSurrogate(a[0]) && IsLowSurrogate(a[0 + 1]);
  }

  /** There is only one such list: what the units are read as is determined. */
  lemma {:induction false} UnitsAreUnique(a: seq<UInt32>, b: seq<UInt32>)
    requires UnitsAll(a) == UnitsAll(b) && HasNoPairs(a) && HasNoPairs(b)
    ensures a == b
    decreases |a|
  {
    if a != [] && b != [] {
      var u, v := Units(a[0]), Units(b[0]);
      if |u| == |v| {
        assert u == UnitsAll(a)[..|u|] && v == UnitsAll(b)[..|v|];
        UnitsDiffer(a[0], b[0]);
        assert UnitsAll(a[1..]) == UnitsAll(a)[|u|..] && UnitsAll(b[1..]) == UnitsAll(b)[|v|..];
        UnitsAreUnique(a[1..], b[1..]);
        assert a == [a[0]] + a[1..] && b == [b[0]] + b[1..];
      } else if |u| < |v| {
        PairIsLeft(a, b);
      } else {
        PairIsLeft(b, a);
      }
    }
  }

  lemma {:induction false} UnitsOfScalars(s: seq<UInt32>, i: nat)
    requires AreScalars(s) && i <= |s|
    ensures Utf16All(s, i) == UnitsAll(s[i..])
    decreases |s| - i
  {
    if i < |s| {
      UnitsOfScalars(s, i + 1);
      assert s[i..] == [s[i]] + s[i + 1..];
      UnitsCons(s[i], s[i + 1..]);
    }
  }

  /** Where wchar_t has two bytes, every Unicode text is read back from the UTF-8 made of its UTF-16. */
  lemma Utf16IsDecoded(s: seq<UInt32>)
    requires AreScalars(s)
    ensures var str := Utf16All(s, 0);
      Decode(WrittenAll(CodePoints(2, str, 0, |str|)), 0) == Some(s)
  {
    var str := Utf16All(s, 0);
    UnitsAreKept(str, 0, |str|);
    UnitsOfScalars(s, 0);
    assert str[0..|str|] == str && s[0..] == s;
    UnitsAreUnique(CodePoints(2, str, 0, |str|), s);
    WrittenIsDecoded(s);
  }

  /** Writes the string, or as much of it as the limit leaves. */
  method WideStringToUtf8(wcharSize: nat, str: WideString, numChars: int) returns (text: seq<Byte>)
    requires Fits(wcharSize, str)
    ensures numChars == -1 || numChars >= |str| ==> text == WrittenAll(CodePoints(wcharSize, str, 0, |str|))
    ensures 0 <= numChars <= |str| ==> text == WrittenAll(CodePoints(wcharSize, str, 0, numChars))
    ensures numChars < -1 ==> text == []
    ensures wcharSize == 4 && AreCodePoints(str) && numChars == -1 ==> Decode(text, 0) == Some(str)
    ensures wcharSize == 4 && AreCodePoints(str) && 0 <= numChars <= |str| ==> Decode(text, 0) == Some(str[..numChars])
    ensures forall s | wcharSize == 2 && AreScalars(s) && str == Utf16All(s, 0) && numChars == -1 ::
      Decode(text, 0) == Some(s)
  {
    var n := if numChars == -1 then |str| else numChars;
    ghost var limit := Limit(|str|, numChars);
    var stream := [];
    var i := 0;
    while i < n && At(str, i) != 0
      invariant i <= limit
      invariant stream + WrittenAll(CodePoints(wcharSize, str, i, limit))
        == WrittenAll(CodePoints(wcharSize, str, 0, limit))
      decreases limit - i
    {
      var codePoint, next := NextCodePoint(wcharSize, str, i, n);
      var bytes := CodePointToUtf8(codePoint);
      OneMoreWritten(stream, codePoint, CodePoints(wcharSize, str, next, limit));
      stream := stream + bytes;
      i := next;
    }
    assert stream + [] == stream;
    NoNulWrittenAll(CodePoints(wcharSize, str, 0, limit));
    text := StringStreamToString(stream);
    ResultIsDecoded(wcharSize, str, limit, text);
    assert limit == |str| ==> str[..limit] == str;
  }

  lemma ResultIsDecoded(wcharSize: nat, str: WideString, limit: nat, text: seq<Byte>)
    requires limit <= |str| && text == WrittenAll(CodePoints(wcharSize, str, 0, limit))
    ensures wcharSize == 4 && AreCodePoints(str) ==> Decode(text, 0) == Some(str[..limit])
    ensures forall s | wcharSize == 2 && AreScalars(s) && str == Utf16All(s, 0) && limit == |str| ::
      Decode(text, 0) == Some(s)
  {
    if wcharSize == 4 && AreCodePoints(str) {
      Utf32IsDecoded(str, limit);
    }
    forall s | wcharSize == 2 && AreScalars(s) && str == Utf16All(s, 0) && limit == |str|
      ensures Decode(text, 0) == Some(s)
    {
      Utf16IsDecoded(s);
    }
  }

  // What is documented.

  const MAX_UNICODE := 0x10_ffff

  /** What is documented to be written: the message for everything beyond Unicode. */
  function Documented(c: UInt32): seq<Byte> {
    if c > MAX_UNICODE then Message(c) else if c == 0 then [] else Encode(c)
  }

  function DocumentedAll(codePoints: seq<UInt32>): seq<Byte> {
    if codePoints == [] then [] else Documented(codePoints[0]) + DocumentedAll(codePoints[1..])
  }

  /** The value is beyond Unicode and still fits the four-byte layout. */
  predicate IsBeyond(c: UInt32) { MAX_UNICODE < c <= MAX_CODE_POINT_4 }

  /** A code point is written as documented exactly when it is not one of these. */
  lemma WrittenAsDocumented(c: UInt32)
    ensures Written(c) == Documented(c) <==> !IsBeyond(c)
    ensures |Written(c)| < |Documented(c)| <==> IsBeyond(c)
  {
  }

  lemma {:induction false} WrittenAllAsDocumented(codePoints: seq<UInt32>)
    ensures WrittenAll(codePoints) == DocumentedAll(codePoints) <==> forall c | c in codePoints :: !IsBeyond(c)
    ensures |WrittenAll(codePoints)| < |DocumentedAll(codePoints)| <==> exists c :: c in codePoints && IsBeyond(c)
    ensures |WrittenAll(codePoints)| <= |DocumentedAll(codePoints)|
  {
    if codePoints != [] {
      var c, rest := codePoints[0], codePoints[1..];
      assert codePoints == [c] + rest;
      WrittenAsDocumented(c);
      WrittenAllAsDocumented(rest);
    }
  }

  /** The whole string is converted as documented exactly when none of its code points is beyond Unicode
      and still fits four bytes. */
  lemma ConvertedAsDocumented(wcharSize: nat, str: WideString, limit: nat)
    requires limit <= |str|
    ensures var codePoints := CodePoints(wcharSize, str, 0, limit);
      WrittenAll(codePoints) == DocumentedAll(codePoints) <==> forall c | c in codePoints :: !IsBeyond(c)
  {
    WrittenAllAsDocumented(CodePoints(wcharSize, str, 0, limit));
  }

  /** For instance, 0x110000 comes out as four bytes and not as the message. */
  lemma BeyondUnicodeIsEncoded()
    ensures CodePoints(4, [0x11_0000], 0, 1) == [0x11_0000]
    ensures WrittenAll([0x11_0000]) == [0xF4, 0x90, 0x80, 0x80] != DocumentedAll([0x11_0000])
  {
    var c: UInt32 := 0x11_0000;
    NoPairs([c], 0, 1);
    EncodedBeyond();
    WrittenOne(c);
    WrittenAllAsDocumented([c]);
    assert c in [c] && IsBeyond(c);
  }

  lemma EncodedBeyond()
    ensures Written(0x11_0000) == [0xF4, 0x90, 0x80, 0x80]
  {
  }

  lemma {:induction false} WrittenOne(c: UInt32)
    ensures WrittenAll([c]) == Written(c)
  {
    WrittenCons(c, []);
    assert [c] + [] == [c] && Written(c) + WrittenAll([]) == Written(c);
  }

  /** Where wchar_t has two bytes there are no such code points, and all is converted as documented. */
  lemma {:induction false} NothingBeyondInUtf16(str: WideString, i: nat, limit: nat)
    requires Fits(2, str) && i <= limit <= |str|
    ensures forall c | c in CodePoints(2, str, i, limit) :: !IsBeyond(c)
    decreases limit - i
  {
    if i < limit {
      if i + 1 < limit && IsUtf16SurrogatePair(2, str[i], str[i + 1]) {
        NothingBeyondInUtf16(str, i + 2, limit);
      } else {
        NothingBeyondInUtf16(str, i + 1, limit);
      }
    }
  }
}

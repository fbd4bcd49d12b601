/** UTF-8 as RFC 3629 lays it out, with four-byte sequences for all of 21 bits, and a strict decoder. */
module Utf8 {
  import opened Options
  import opened Sequences

  type Byte = x: nat | x < 256

  const MAX_CODE_POINT_1 := 0x7f
  const MAX_CODE_POINT_2 := 0x7ff
  const MAX_CODE_POINT_3 := 0xffff
  const MAX_CODE_POINT_4 := 0x1f_ffff

  type CodePoint = c: nat | c <= MAX_CODE_POINT_4

  /** The bits of a code point, from the highest on, in groups of six after the first byte. */
  function Encode(c: CodePoint): (bytes: seq<Byte>)
    ensures 1 <= |bytes| <= 4
  {
    if c <= MAX_CODE_POINT_1 then [c]
    else if c <= MAX_CODE_POINT_2 then [0xC0 + c / 0x40, 0x80 + c % 0x40]
    else if c <= MAX_CODE_POINT_3 then [0xE0 + c / 0x1000, 0x80 + c / 0x40 % 0x40, 0x80 + c % 0x40]
    else [0xF0 + c / 0x4_0000, 0x80 + c / 0x1000 % 0x40, 0x80 + c / 0x40 % 0x40, 0x80 + c % 0x40]
  }

  function EncodeAll(codePoints: seq<CodePoint>, i: nat): seq<Byte>
    requires i <= |codePoints|
    decreases |codePoints| - i
  {
    if i == |codePoints| then [] else Encode(codePoints[i]) + EncodeAll(codePoints, i + 1)
  }

  /** How many bytes a sequence has that starts with this byte; none if none can. */
  function Length(lead: Byte): nat {
    if lead < 0x80 then 1 else if lead < 0xC0 then 0 else if lead < 0xE0 then 2
    else if lead < 0xF0 then 3 else if lead < 0xF8 then 4 else 0
  }

  /** The value of n continuation bytes at i behind the bits so far. */
  function Continued(s: seq<Byte>, i: nat, n: nat, bits: nat): Option<nat>
    requires i + n <= |s|
    decreases n
  {
    if n == 0 then Some(bits)
    else if 0x80 <= s[i] < 0xC0 then Continued(s, i + 1, n - 1, bits * 0x40 + (s[i] - 0x80))
    else None
  }

  function LeadBits(lead: Byte): nat {
    if lead < 0x80 then lead else if lead < 0xE0 then lead % 0x20 else if lead < 0xF0 then lead % 0x10 else lead % 8
  }

  /** The code point at i, unless the sequence is broken or longer than it need be. */
  function DecodeAt(s: seq<Byte>, i: nat): (c: Option<CodePoint>)
    requires i < |s|
    ensures c.Some? ==> 0 < Length(s[i]) && i + Length(s[i]) <= |s|
  {
    var n := Length(s[i]);
    if n == 0 || i + n > |s| then None
    else
      var value := Continued(s, i + 1, n - 1, LeadBits(s[i]));
      if value.Some? && Smallest(n) <= value.value <= MAX_CODE_POINT_4 then Some(value.value) else None
  }

  /** The first code point that needs n bytes. */
  function Smallest(n: nat): nat {
    if n <= 1 then 0 else if n == 2 then 0x80 else if n == 3 then 0x800 else 0x1_0000
  }

  function Decode(s: seq<Byte>, i: nat): Option<seq<CodePoint>>
    requires i <= |s|
    decreases |s| - i
  {
    if i == |s| then Some([])
    else
      var c := DecodeAt(s, i);
      if c.None? then None
      else
        var rest := Decode(s, i + Length(s[i]));
        if rest.Some? then Some([c.value] + rest.value) else None
  }

  lemma TwoBytes(s: seq<Byte>, i: nat, c: CodePoint)
    requires i + 1 < |s| && MAX_CODE_POINT_1 < c <= MAX_CODE_POINT_2
    requires s[i] == 0xC0 + c / 0x40 && s[i + 1] == 0x80 + c % 0x40
    ensures DecodeAt(s, i) == Some(c) && Length(s[i]) == 2
  {
    assert Continued(s, i + 2, 0, c) == Some(c);
    assert Continued(s, i + 1, 1, c / 0x40) == Some(c);
  }

  lemma ThreeBytes(s: seq<Byte>, i: nat, c: CodePoint)
    requires i + 2 < |s| && MAX_CODE_POINT_2 < c <= MAX_CODE_POINT_3
    requires s[i] == 0xE0 + c / 0x1000 && s[i + 1] == 0x80 + c / 0x40 % 0x40 && s[i + 2] == 0x80 + c % 0x40
    ensures DecodeAt(s, i) == Some(c) && Length(s[i]) == 3
  {
    assert c / 0x1000 * 0x40 + c / 0x40 % 0x40 == c / 0x40;
    assert Continued(s, i + 3, 0, c) == Some(c);
    assert Continued(s, i + 2, 1, c / 0x40) == Some(c);
    assert Continued(s, i + 1, 2, c / 0x1000) == Some(c);
  }

  lemma FourBytes(s: seq<Byte>, i: nat, c: CodePoint)
    requires i + 3 < |s| && MAX_CODE_POINT_3 < c
    requires s[i] == 0xF0 + c / 0x4_0000 && s[i + 1] == 0x80 + c / 0x1000 % 0x40
    requires s[i + 2] == 0x80 + c / 0x40 % 0x40 && s[i + 3] == 0x80 + c % 0x40
    ensures DecodeAt(s, i) == Some(c) && Length(s[i]) == 4
  {
    assert c / 0x4_0000 * 0x40 + c / 0x1000 % 0x40 == c / 0x1000;
    assert c / 0x1000 * 0x40 + c / 0x40 % 0x40 == c / 0x40;
    assert Continued(s, i + 4, 0, c) == Some(c);
    assert Continued(s, i + 3, 1, c / 0x40) == Some(c);
    assert Continued(s, i + 2, 2, c / 0x1000) == Some(c);
    assert Continued(s, i + 1, 3, c / 0x4_0000) == Some(c);
  }

  lemma EncodedIsDecoded(s: seq<Byte>, i: nat, c: CodePoint)
    requires HasAt(s, i, Encode(c))
    ensures i < |s| && DecodeAt(s, i) == Some(c) && Length(s[i]) == |Encode(c)|
  {
    var w := Encode(c);
    assert s[i + 0] == w[0];
    if c <= MAX_CODE_POINT_1 {
    } else if c <= MAX_CODE_POINT_2 {
      assert s[i + 1] == w[1];
      TwoBytes(s, i, c);
    } else if c <= MAX_CODE_POINT_3 {
      assert s[i + 1] == w[1] && s[i + 2] == w[2];
      ThreeBytes(s, i, c);
    } else {
      assert s[i + 1] == w[1] && s[i + 2] == w[2] && s[i + 3] == w[3];
      FourBytes(s, i, c);
    }
  }

  lemma Split(c: nat, hi: nat, lo: nat)
    requires c == hi * 0x40 + lo && lo < 0x40
    ensures c / 0x40 == hi && c % 0x40 == lo
  {
  }

  lemma LeadIs(lead: Byte)
    ensures Length(lead) == 1 ==> lead == LeadBits(lead)
    ensures Length(lead) == 2 ==> lead == 0xC0 + LeadBits(lead)
    ensures Length(lead) == 3 ==> lead == 0xE0 + LeadBits(lead)
    ensures Length(lead) == 4 ==> lead == 0xF0 + LeadBits(lead)
  {
  }

  lemma TwoDecoded(s: seq<Byte>, i: nat)
    requires i < |s| && DecodeAt(s, i).Some? && Length(s[i]) == 2
    ensures s[i..i + 2] == Encode(DecodeAt(s, i).value)
  {
    var c, b := DecodeAt(s, i).value, LeadBits(s[i]);
    OneContinued(s, i + 1, 1, b);
    Split(c, b, s[i + 1] - 0x80);
    LeadIs(s[i]);
  }

  lemma ThreeDecoded(s: seq<Byte>, i: nat)
    requires i < |s| && DecodeAt(s, i).Some? && Length(s[i]) == 3
    ensures s[i..i + 3] == Encode(DecodeAt(s, i).value)
  {
    var c, b := DecodeAt(s, i).value, LeadBits(s[i]);
    var b1 := b * 0x40 + (s[i + 1] - 0x80);
    OneContinued(s, i + 1, 2, b);
    OneContinued(s, i + 2, 1, b1);
    Split(c, b1, s[i + 2] - 0x80);
    Split(b1, b, s[i + 1] - 0x80);
    assert c / 0x1000 == c / 0x40 / 0x40;
    LeadIs(s[i]);
  }

  lemma FourDecoded(s: seq<Byte>, i: nat)
    requires i < |s| && DecodeAt(s, i).Some? && Length(s[i]) == 4
    ensures s[i..i + 4] == Encode(DecodeAt(s, i).value)
  {
    var c, b := DecodeAt(s, i).value, LeadBits(s[i]);
    var b1 := b * 0x40 + (s[i + 1] - 0x80);
    var b2 := b1 * 0x40 + (s[i + 2] - 0x80);
    OneContinued(s, i + 1, 3, b);
    OneContinued(s, i + 2, 2, b1);
    OneContinued(s, i + 3, 1, b2);
    Split(c, b2, s[i + 3] - 0x80);
    Split(b2, b1, s[i + 2] - 0x80);
    Split(b1, b, s[i + 1] - 0x80);
    assert c / 0x1000 == c / 0x40 / 0x40 && c / 0x4_0000 == c / 0x40 / 0x40 / 0x40;
    LeadIs(s[i]);
  }

  /** What is decoded at i is encoded there. */
  lemma DecodedIsEncoded(s: seq<Byte>, i: nat)
    requires i < |s| && DecodeAt(s, i).Some?
    ensures s[i..i + Length(s[i])] == Encode(DecodeAt(s, i).value)
  {
    if Length(s[i]) == 2 {
      TwoDecoded(s, i);
    } else if Length(s[i]) == 3 {
      ThreeDecoded(s, i);
    } else if Length(s[i]) == 4 {
      FourDecoded(s, i);
    }
  }

  lemma OneContinued(s: seq<Byte>, i: nat, n: nat, bits: nat)
    requires 0 < n && i + n <= |s| && Continued(s, i, n, bits).Some?
    ensures 0x80 <= s[i] < 0xC0
    ensures Continued(s, i, n, bits) == Continued(s, i + 1, n - 1, bits * 0x40 + (s[i] - 0x80))
    ensures n == 1 ==> Continued(s, i, n, bits) == Some(bits * 0x40 + (s[i] - 0x80))
  {
  }

  lemma {:induction false} DecodeFrom(s: seq<Byte>, p: nat, codePoints: seq<CodePoint>, i: nat)
    requires p <= |s| && i <= |codePoints| && s[p..] == EncodeAll(codePoints, i)
    ensures Decode(s, p) == Some(codePoints[i..])
    decreases |codePoints| - i
  {
    if i < |codePoints| {
      var q := Parts(s, p, Encode(codePoints[i]), EncodeAll(codePoints, i + 1));
      EncodedIsDecoded(s, p, codePoints[i]);
      DecodeFrom(s, q, codePoints, i + 1);
      assert codePoints[i..] == [codePoints[i]] + codePoints[i + 1..];
    }
  }

  /** Decoding undoes encoding. */
  lemma DecodeEncode(codePoints: seq<CodePoint>)
    ensures Decode(EncodeAll(codePoints, 0), 0) == Some(codePoints)
  {
    var s := EncodeAll(codePoints, 0);
    assert s[0..] == s && codePoints[0..] == codePoints;
    DecodeFrom(s, 0, codePoints, 0);
  }

  lemma FirstOf<T>(s: seq<T>, i: nat, x: T, rest: seq<T>)
    requires i <= |s| && s[i..] == [x] + rest
    ensures i < |s| && s[i] == x && s[i + 1..] == rest
  {
    assert s[i..][0] == s[i] && s[i..][1..] == s[i + 1..];
  }

  lemma {:induction false} EncodeFrom(s: seq<Byte>, p: nat, codePoints: seq<CodePoint>, i: nat)
    requires p <= |s| && i <= |codePoints| && Decode(s, p) == Some(codePoints[i..])
    ensures s[p..] == EncodeAll(codePoints, i)
    decreases |codePoints| - i
  {
    if p < |s| {
      DecodedIsEncoded(s, p);
      var c, n := DecodeAt(s, p).value, Length(s[p]);
      FirstOf(codePoints, i, c, Decode(s, p + n).value);
      EncodeFrom(s, p + n, codePoints, i + 1);
      assert s[p..] == s[p..p + n] + s[p + n..];
    }
  }

  /** Encoding undoes decoding: the decoder accepts nothing but what the encoder writes. */
  lemma EncodeDecode(s: seq<Byte>)
    requires Decode(s, 0).Some?
    ensures EncodeAll(Decode(s, 0).value, 0) == s
  {
    var codePoints := Decode(s, 0).value;
    assert codePoints[0..] == codePoints && s[0..] == s;
    EncodeFrom(s, 0, codePoints, 0);
  }

  /** No code point's bytes begin those of another, so different lists have different bytes. */
  lemma PrefixFree(c: CodePoint, d: CodePoint)
    requires HasAt(Encode(d), 0, Encode(c))
    ensures c == d
  {
    EncodedIsDecoded(Encode(d), 0, c);
    EncodedIsDecoded(Encode(d), 0, d);
  }

  lemma Injective(a: seq<CodePoint>, b: seq<CodePoint>)
    requires EncodeAll(a, 0) == EncodeAll(b, 0)
    ensures a == b
  {
    DecodeEncode(a);
    DecodeEncode(b);
  }
}

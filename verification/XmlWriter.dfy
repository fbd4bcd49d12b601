/** What the XML report writes for a string, read back as XML. */
module XmlWriter {
  import opened Options
  import opened Sequences
  import opened XmlReader
  import opened Bits

  predicate IsNormalizableWhitespace(c: char) { c == '\t' || c == '\n' || c == '\r' }

  /** Where char is signed, bytes from 0x80 on are negative, and so below the space. */
  predicate IsValidXmlCharacter(c: char, signedChar: bool) {
    IsNormalizableWhitespace(c) || (c >= ' ' && !(signedChar && c as int >= 0x80))
  }

  /** A byte as two hexadecimal digits. */
  function FormatByte(value: nat): (text: string)
    requires value < 256
    ensures |text| == 2
  {
    [HexDigit(value / 16), HexDigit(value % 16)]
  }

  lemma FormatByteIsRead(value: nat)
    requires value < 256
    ensures var text := FormatByte(value);
      && HexValue(text[0]).Some? && HexValue(text[1]).Some?
      && 16 * HexValue(text[0]).value + HexValue(text[1]).value == value
  {
  }

  function EscapedChar(c: char, isAttribute: bool, signedChar: bool): string {
    if c == '<' then "&lt;"
    else if c == '>' then "&gt;"
    else if c == '&' then "&amp;"
    else if c == '\'' then if isAttribute then "&apos;" else "'"
    else if c == '\"' then if isAttribute then "&quot;" else "\""
    else if !IsValidXmlCharacter(c, signedChar) then ""
    else if isAttribute && IsNormalizableWhitespace(c) then "&#x" + FormatByte(c as nat) + ";"
    else [c]
  }

  function Escaped(s: string, i: nat, isAttribute: bool, signedChar: bool): string
    requires i <= |s|
    decreases |s| - i
  {
    if i == |s| then "" else EscapedChar(s[i], isAttribute, signedChar) + Escaped(s, i + 1, isAttribute, signedChar)
  }

  function Valid(s: string, i: nat, signedChar: bool): string
    requires i <= |s|
    decreases |s| - i
  {
    if i == |s| then ""
    else (if IsValidXmlCharacter(s[i], signedChar) then [s[i]] else "") + Valid(s, i + 1, signedChar)
  }

  method EscapeChar(ch: char, isAttribute: bool, signedChar: bool) returns (piece: string)
    ensures piece == EscapedChar(ch, isAttribute, signedChar)
  {
    match ch
    case '<' => piece := "&lt;";
    case '>' => piece := "&gt;";
    case '&' => piece := "&amp;";
    case '\'' => piece := if isAttribute then "&apos;" else "'";
    case '\"' => piece := if isAttribute then "&quot;" else "\"";
    case _ =>
      if !IsValidXmlCharacter(ch, signedChar) {
        piece := "";
      } else if isAttribute && IsNormalizableWhitespace(ch) {
        piece := "&#x" + FormatByte(ch as nat) + ";";
      } else {
        piece := [ch];
      }
  }

  lemma OneMoreEscaped(m: string, s: string, i: nat, isAttribute: bool, signedChar: bool)
    requires i < |s|
    ensures m + Escaped(s, i, isAttribute, signedChar)
         == m + EscapedChar(s[i], isAttribute, signedChar) + Escaped(s, i + 1, isAttribute, signedChar)
  {
  }

  method EscapeXml(str: string, isAttribute: bool, signedChar: bool) returns (m: string)
    ensures m == Escaped(str, 0, isAttribute, signedChar)
  {
    m := "";
    for i := 0 to |str|
      invariant m + Escaped(str, i, isAttribute, signedChar) == Escaped(str, 0, isAttribute, signedChar)
    {
      OneMoreEscaped(m, str, i, isAttribute, signedChar);
      var piece := EscapeChar(str[i], isAttribute, signedChar);
      m := m + piece;
    }
  }

  method RemoveInvalidXmlCharacters(str: string, signedChar: bool) returns (output: string)
    ensures output == Valid(str, 0, signedChar)
  {
    output := "";
    for i := 0 to |str|
      invariant output + Valid(str, i, signedChar) == Valid(str, 0, signedChar)
    {
      if IsValidXmlCharacter(str[i], signedChar) {
        assert output + ([str[i]] + Valid(str, i + 1, signedChar)) == output + [str[i]] + Valid(str, i + 1, signedChar);
        output := output + [str[i]];
      }
    }
  }

  /** Exactly the valid characters are kept, in order, and keeping them twice changes nothing. */
  lemma {:induction false} ValidKeepsAll(s: string, i: nat, signedChar: bool)
    requires i <= |s|
    ensures forall c :: c in Valid(s, i, signedChar) <==> c in s[i..] && IsValidXmlCharacter(c, signedChar)
    ensures Valid(s, i, signedChar) == s[i..] <==> forall c | c in s[i..] :: IsValidXmlCharacter(c, signedChar)
    ensures |Valid(s, i, signedChar)| <= |s| - i
    decreases |s| - i
  {
    if i < |s| {
      ValidKeepsAll(s, i + 1, signedChar);
      assert s[i..] == [s[i]] + s[i + 1..];
    }
  }

  /** What is not valid leaves no trace: the valid characters on their own are escaped in the same way. */
  lemma {:induction false} EscapingDropsInvalid(s: string, i: nat, t: string, j: nat, isAttribute: bool,
                                                signedChar: bool)
    requires i <= |s| && j <= |t| && t[j..] == Valid(s, i, signedChar)
    ensures Escaped(s, i, isAttribute, signedChar) == Escaped(t, j, isAttribute, signedChar)
    decreases |s| - i
  {
    if i < |s| {
      if IsValidXmlCharacter(s[i], signedChar) {
        assert t[j..][0] == s[i] && t[j..][1..] == t[j + 1..] == Valid(s, i + 1, signedChar);
        EscapingDropsInvalid(s, i + 1, t, j + 1, isAttribute, signedChar);
      } else {
        EscapingDropsInvalid(s, i + 1, t, j, isAttribute, signedChar);
        InvalidIsDropped(s[i], isAttribute, signedChar);
      }
    }
  }

  lemma InvalidIsDropped(c: char, isAttribute: bool, signedChar: bool)
    requires !IsValidXmlCharacter(c, signedChar)
    ensures EscapedChar(c, isAttribute, signedChar) == ""
  {
  }

  /** No markup is left in escaped text. */
  lemma {:induction false} NoMarkup(s: string, i: nat, isAttribute: bool, signedChar: bool)
    requires i <= |s|
    ensures var t := Escaped(s, i, isAttribute, signedChar);
      '<' !in t && '>' !in t && (isAttribute ==> '\"' !in t && '\'' !in t)
    decreases |s| - i
  {
    if i < |s| {
      NoMarkup(s, i + 1, isAttribute, signedChar);
      PieceHasNoMarkup(s[i], isAttribute, signedChar);
    }
  }

  lemma PieceHasNoMarkup(c: char, isAttribute: bool, signedChar: bool)
    ensures var t := EscapedChar(c, isAttribute, signedChar);
      '<' !in t && '>' !in t && (isAttribute ==> '\"' !in t && '\'' !in t)
  {
  }

  /** Must the character be written differently? */
  predicate IsSpecial(c: char, isAttribute: bool) {
    c == '<' || c == '>' || c == '&' || (isAttribute && (c in ['\'', '\"', '\t', '\n', '\r']))
  }

  /** What is written consists of valid characters, of which only '&' is one of these. */
  predicate CanBeWritten(c: char, isAttribute: bool, signedChar: bool) {
    IsValidXmlCharacter(c, signedChar) && (c == '&' || !IsSpecial(c, isAttribute))
  }

  lemma {:induction false} WrittenCharacters(s: string, i: nat, isAttribute: bool, signedChar: bool)
    requires i <= |s|
    ensures forall c | c in Escaped(s, i, isAttribute, signedChar) :: CanBeWritten(c, isAttribute, signedChar)
    decreases |s| - i
  {
    if i < |s| {
      WrittenCharacters(s, i + 1, isAttribute, signedChar);
      PieceCharacters(s[i], isAttribute, signedChar);
    }
  }

  lemma PieceCharacters(c: char, isAttribute: bool, signedChar: bool)
    ensures forall d | d in EscapedChar(c, isAttribute, signedChar) :: CanBeWritten(d, isAttribute, signedChar)
  {
  }

  /** Of such characters, one that is written as more than itself makes the text longer. */
  lemma {:induction false} WrittenLength(s: string, i: nat, isAttribute: bool, signedChar: bool)
    requires i <= |s| && forall k | i <= k < |s| :: CanBeWritten(s[k], isAttribute, signedChar)
    ensures |Escaped(s, i, isAttribute, signedChar)| >= |s| - i
    ensures (exists k :: i <= k < |s| && s[k] == '&') ==> |Escaped(s, i, isAttribute, signedChar)| > |s| - i
    ensures (forall k | i <= k < |s| :: s[k] != '&') ==> Escaped(s, i, isAttribute, signedChar) == s[i..]
    decreases |s| - i
  {
    if i < |s| {
      WrittenLength(s, i + 1, isAttribute, signedChar);
      assert s[i..] == [s[i]] + s[i + 1..];
    }
  }

  /** Exactly the strings without special or invalid characters are written as they are. */
  lemma WrittenAsIsIff(s: string, isAttribute: bool, signedChar: bool)
    ensures Escaped(s, 0, isAttribute, signedChar) == s <==>
            forall k | 0 <= k < |s| :: IsValidXmlCharacter(s[k], signedChar) && !IsSpecial(s[k], isAttribute)
  {
    if Escaped(s, 0, isAttribute, signedChar) == s {
      WrittenCharacters(s, 0, isAttribute, signedChar);
      assert forall k | 0 <= k < |s| :: s[k] in s;
      WrittenLength(s, 0, isAttribute, signedChar);
    }
    if forall k | 0 <= k < |s| :: IsValidXmlCharacter(s[k], signedChar) && !IsSpecial(s[k], isAttribute) {
      WrittenLength(s, 0, isAttribute, signedChar);
      assert s[0..] == s;
    }
  }

  /** The five predefined entities are told apart by their second and third characters. */
  lemma EntityIsRead(c: char, t: string, out: string, p: nat)
    requires (c == '<' && t == "&lt;") || (c == '>' && t == "&gt;") || (c == '&' && t == "&amp;")
          || (c == '\'' && t == "&apos;") || (c == '\"' && t == "&quot;")
    requires HasAt(out, p, t)
    ensures ReferenceAt(out, p) == Reference(c, |t|)
  {
    StartsWith(out, p, t, 1);
    StartsWith(out, p, t, 2);
    StartsWith(out, p, t, 3);
    if |t| > 4 { StartsWith(out, p, t, 4); }
    if |t| > 5 { StartsWith(out, p, t, 5); }
  }

  /** A white space character is read back from its number. */
  lemma NumberIsRead(c: char, out: string, p: nat)
    requires IsNormalizableWhitespace(c) && HasAt(out, p, "&#x" + FormatByte(c as nat) + ";")
    ensures ReferenceAt(out, p) == Reference(c, 6)
  {
    var t := "&#x" + FormatByte(c as nat) + ";";
    StartsWith(out, p, t, 1);
    StartsWith(out, p, t, 2);
    StartsWith(out, p, t, 3);
    StartsWith(out, p, t, 4);
    StartsWith(out, p, t, 5);
    assert t[1] == '#' && t[2] == 'x' && t[3] == '0' && t[4] == HexDigit(c as nat) && t[5] == ';';
    assert HexValue('0') == Some(0) && HexValue(t[4]) == Some(c as nat);
    assert CharReference(out, p + 5, c as nat, 2) == Reference(c, 1);
    assert CharReference(out, p + 4, 0, 1) == Reference(c, 2);
    assert CharReference(out, p + 3, 0, 0) == Reference(c, 3);
  }

  lemma PieceIsRead(c: char, isAttribute: bool, signedChar: bool, out: string, p: nat)
    requires IsValidXmlCharacter(c, signedChar) && HasAt(out, p, EscapedChar(c, isAttribute, signedChar))
    ensures var t := EscapedChar(c, isAttribute, signedChar);
      0 < |t| && p + |t| <= |out|
      && if t[0] == '&' then ReferenceAt(out, p) == Reference(c, |t|)
         else t == [c] && (isAttribute ==> !IsNormalizableWhitespace(c))
    ensures EscapedChar(c, isAttribute, signedChar)[0] == out[p]
  {
    var t := EscapedChar(c, isAttribute, signedChar);
    assert out[p + 0] == t[0];
    if c == '<' || c == '>' || c == '&' || (isAttribute && (c == '\'' || c == '\"')) {
      EntityIsRead(c, t, out, p);
    } else if isAttribute && IsNormalizableWhitespace(c) {
      NumberIsRead(c, out, p);
    }
  }

  lemma PieceBegins(c: char, signedChar: bool)
    requires IsValidXmlCharacter(c, signedChar)
    ensures var t := EscapedChar(c, false, signedChar); |t| > 0 && (t[0] == '\n' <==> c == '\n')
  {
  }

  /** Nothing in the text reads as markup. */
  predicate IsEscaped(out: string, isAttribute: bool) { '<' !in out && '>' !in out && (isAttribute ==> '\"' !in out) }

  function ModeOf(isAttribute: bool): Mode { if isAttribute then Attribute else Text }

  lemma PieceStep(c: char, isAttribute: bool, signedChar: bool, out: string, p: nat, next: nat)
    requires IsValidXmlCharacter(c, signedChar) && HasAt(out, p, EscapedChar(c, isAttribute, signedChar))
    requires IsEscaped(out, isAttribute) && (c == '\r' ==> isAttribute)
    requires next == p + |EscapedChar(c, isAttribute, signedChar)|
    ensures p < next <= |out| && Read(out, p, ModeOf(isAttribute)) == Cons(c, Read(out, next, ModeOf(isAttribute)))
  {
    PieceIsRead(c, isAttribute, signedChar, out, p);
  }

  lemma CarriageReturnStep(out: string, p: nat)
    requires p < |out| && out[p] == '\r'
    ensures Read(out, p, Text) == Cons('\n', Read(out, p + LineEnd(out, p), Text))
  {
  }

  /** The escaped form of s[i..] is at p, with that of s[i + 1..] behind its first piece. */
  lemma FirstPiece(s: string, i: nat, isAttribute: bool, signedChar: bool, out: string, p: nat) returns (q: nat)
    requires i < |s| && p <= |out| && out[p..] == Escaped(s, i, isAttribute, signedChar)
    ensures HasAt(out, p, EscapedChar(s[i], isAttribute, signedChar))
    ensures q == p + |EscapedChar(s[i], isAttribute, signedChar)|
    ensures q <= |out| && out[q..] == Escaped(s, i + 1, isAttribute, signedChar)
  {
    q := Parts(out, p, EscapedChar(s[i], isAttribute, signedChar), Escaped(s, i + 1, isAttribute, signedChar));
  }

  /** A valid character of an attribute value is read, and what follows it is at q. */
  lemma AttributeStep(s: string, i: nat, signedChar: bool, out: string, p: nat) returns (q: nat)
    requires i < |s| && p <= |out| && out[p..] == Escaped(s, i, true, signedChar) && IsEscaped(out, true)
    requires IsValidXmlCharacter(s[i], signedChar)
    ensures q <= |out| && out[q..] == Escaped(s, i + 1, true, signedChar)
    ensures Read(out, p, Attribute) == Cons(s[i], Read(out, q, Attribute))
  {
    q := FirstPiece(s, i, true, signedChar, out, p);
    PieceStep(s[i], true, signedChar, out, p, q);
  }

  lemma InvalidStep(s: string, i: nat, signedChar: bool)
    requires i < |s| && !IsValidXmlCharacter(s[i], signedChar)
    ensures Escaped(s, i, true, signedChar) == Escaped(s, i + 1, true, signedChar)
    ensures Valid(s, i, signedChar) == Valid(s, i + 1, signedChar)
  {
    InvalidIsDropped(s[i], true, signedChar);
  }

  lemma ReadsOn(s: string, i: nat, signedChar: bool, out: string, p: nat, q: nat)
    requires i < |s| && IsValidXmlCharacter(s[i], signedChar) && p <= |out| && q <= |out|
    requires Read(out, p, Attribute) == Cons(s[i], Read(out, q, Attribute))
    requires Read(out, q, Attribute) == Some(Valid(s, i + 1, signedChar))
    ensures Read(out, p, Attribute) == Some(Valid(s, i, signedChar))
  {
  }

  /** An attribute value is read back from its escaped form, without what is not valid. */
  lemma {:induction false} AttributeIsRead(s: string, i: nat, signedChar: bool, out: string, p: nat)
    requires i <= |s| && p <= |out| && out[p..] == Escaped(s, i, true, signedChar) && IsEscaped(out, true)
    ensures Read(out, p, Attribute) == Some(Valid(s, i, signedChar))
    decreases |s| - i
  {
    if i == |s| {
      assert Read(out, p, Attribute) == Some("");
    } else if IsValidXmlCharacter(s[i], signedChar) {
      var q := AttributeStep(s, i, signedChar, out, p);
      AttributeIsRead(s, i + 1, signedChar, out, q);
      ReadsOn(s, i, signedChar, out, p, q);
    } else {
      InvalidStep(s, i, signedChar);
      AttributeIsRead(s, i + 1, signedChar, out, p);
    }
  }

  /** A line end character is written as it is. */
  lemma LineEndCharIsKept(s: string, i: nat, signedChar: bool, out: string, p: nat)
    requires i < |s| && (s[i] == '\r' || s[i] == '\n') && p <= |out| && out[p..] == Escaped(s, i, false, signedChar)
    ensures p < |out| && out[p] == s[i] && out[p + 1..] == Escaped(s, i + 1, false, signedChar)
  {
    var q := FirstPiece(s, i, false, signedChar, out, p);
    StartsWith(out, p, [s[i]], 0);
  }

  lemma NoLineFeedIsNext(s: string, i: nat, signedChar: bool, out: string, p: nat)
    requires i <= |s| && (i < |s| ==> IsValidXmlCharacter(s[i], signedChar) && s[i] != '\n')
    requires p <= |out| && out[p..] == Escaped(s, i, false, signedChar)
    ensures p < |out| ==> out[p] != '\n'
  {
    if p < |out| {
      assert out[p] == out[p..][0];
      PieceBegins(s[i], signedChar);
    }
  }

  /** A line end is written as it is. */
  lemma LineEndIsKept(s: string, i: nat, signedChar: bool, out: string, p: nat)
    requires i < |s| && s[i] == '\r' && p <= |out| && out[p..] == Escaped(s, i, false, signedChar)
    requires i + 1 < |s| ==> IsValidXmlCharacter(s[i + 1], signedChar)
    ensures p < |out| && out[p] == '\r' && LineEnd(out, p) == LineEnd(s, i)
    ensures out[p + LineEnd(out, p)..] == Escaped(s, i + LineEnd(s, i), false, signedChar)
  {
    LineEndCharIsKept(s, i, signedChar, out, p);
    if LineEnd(s, i) == 2 {
      LineEndCharIsKept(s, i + 1, signedChar, out, p + 1);
    } else {
      NoLineFeedIsNext(s, i + 1, signedChar, out, p + 1);
    }
  }

  predicate AllValid(s: string, signedChar: bool) { forall c | c in s :: IsValidXmlCharacter(c, signedChar) }

  /** A character that is no carriage return is read, and what follows it is at q. */
  lemma PlainStep(s: string, i: nat, signedChar: bool, out: string, p: nat) returns (q: nat)
    requires i < |s| && p <= |out| && out[p..] == Escaped(s, i, false, signedChar) && IsEscaped(out, false)
    requires IsValidXmlCharacter(s[i], signedChar) && s[i] != '\r'
    ensures q <= |out| && out[q..] == Escaped(s, i + 1, false, signedChar)
    ensures Read(out, p, Text) == Cons(s[i], Read(out, q, Text))
  {
    q := FirstPiece(s, i, false, signedChar, out, p);
    PieceStep(s[i], false, signedChar, out, p, q);
  }

  /** A line end that begins with one is read as a line feed, and what follows it is at q. */
  lemma LineEndStep(s: string, i: nat, signedChar: bool, out: string, p: nat) returns (q: nat)
    requires i < |s| && s[i] == '\r' && p <= |out| && out[p..] == Escaped(s, i, false, signedChar)
    requires AllValid(s, signedChar)
    ensures q <= |out| && out[q..] == Escaped(s, i + LineEnd(s, i), false, signedChar)
    ensures Read(out, p, Text) == Cons('\n', Read(out, q, Text))
  {
    LineEndIsKept(s, i, signedChar, out, p);
    CarriageReturnStep(out, p);
    q := p + LineEnd(out, p);
  }

  /** Either way, one character or line end is read, and what follows it is at q. */
  lemma TextStep(s: string, i: nat, signedChar: bool, out: string, p: nat) returns (q: nat)
    requires i < |s| && p <= |out| && out[p..] == Escaped(s, i, false, signedChar) && IsEscaped(out, false)
    requires AllValid(s, signedChar)
    ensures q <= |out| && out[q..] == Escaped(s, i + LineEnd(s, i), false, signedChar)
    ensures Read(out, p, Text) == Cons(if s[i] == '\r' then '\n' else s[i], Read(out, q, Text))
  {
    if s[i] == '\r' {
      q := LineEndStep(s, i, signedChar, out, p);
    } else {
      q := PlainStep(s, i, signedChar, out, p);
    }
  }

  /** Text is read back with line feeds for its line ends. */
  lemma {:induction false} TextIsRead(s: string, i: nat, signedChar: bool, out: string, p: nat)
    requires i <= |s| && p <= |out| && out[p..] == Escaped(s, i, false, signedChar) && IsEscaped(out, false)
    requires AllValid(s, signedChar)
    ensures Read(out, p, Text) == Some(WithLineFeeds(s, i))
    decreases |s| - i
  {
    if i < |s| {
      var q := TextStep(s, i, signedChar, out, p);
      var next := i + LineEnd(s, i);
      TextIsRead(s, next, signedChar, out, q);
      assert WithLineFeeds(s, i) == [if s[i] == '\r' then '\n' else s[i]] + WithLineFeeds(s, next);
    }
  }

  /** Whatever the string, reading its escaped form gives its valid characters: as an attribute value
      exactly, and as text with line feeds for the line ends. */
  lemma EscapedReadsBack(s: string, isAttribute: bool, signedChar: bool)
    ensures var valid := Valid(s, 0, signedChar);
      Read(Escaped(s, 0, isAttribute, signedChar), 0, ModeOf(isAttribute))
      == Some(if isAttribute then valid else WithLineFeeds(valid, 0))
  {
    var valid, out := Valid(s, 0, signedChar), Escaped(s, 0, isAttribute, signedChar);
    NoMarkup(s, 0, isAttribute, signedChar);
    assert out[0..] == out;
    if isAttribute {
      AttributeIsRead(s, 0, signedChar, out, 0);
    } else {
      assert valid[0..] == valid;
      EscapingDropsInvalid(s, 0, valid, 0, isAttribute, signedChar);
      ValidKeepsAll(s, 0, signedChar);
      TextIsRead(valid, 0, signedChar, out, 0);
    }
  }

  // What is documented.

  /** May c appear in an XML document? The bytes from 0x80 on are those of the characters beyond ASCII. */
  predicate IsXmlCharacter(c: char) { IsNormalizableWhitespace(c) || c >= ' ' }

  /** The string without the characters that may not appear. */
  function XmlCharacters(s: string, i: nat): string
    requires i <= |s|
    decreases |s| - i
  {
    if i == |s| then "" else (if IsXmlCharacter(s[i]) then [s[i]] else "") + XmlCharacters(s, i + 1)
  }

  /** All bytes from i on are ASCII. */
  predicate IsAsciiFrom(s: string, i: nat) { forall k | i <= k < |s| :: s[k] as int < 0x80 }

  /** Only what may not appear is removed exactly when char is unsigned or the string is ASCII. */
  lemma {:induction false} RemovedAsDocumented(s: string, i: nat, signedChar: bool)
    requires i <= |s|
    ensures Valid(s, i, signedChar) == XmlCharacters(s, i) <==> !signedChar || IsAsciiFrom(s, i)
    ensures |Valid(s, i, signedChar)| < |XmlCharacters(s, i)| <==> signedChar && !IsAsciiFrom(s, i)
    ensures |Valid(s, i, signedChar)| <= |XmlCharacters(s, i)|
    decreases |s| - i
  {
    if i < |s| {
      RemovedAsDocumented(s, i + 1, signedChar);
      assert IsAsciiFrom(s, i) <==> s[i] as int < 0x80 && IsAsciiFrom(s, i + 1);
    }
  }

  /** And exactly then an attribute value is read back without any other loss. */
  lemma AttributeKeepsAllIff(s: string, signedChar: bool)
    ensures Read(Escaped(s, 0, true, signedChar), 0, Attribute) == Some(XmlCharacters(s, 0))
       <==> !signedChar || IsAsciiFrom(s, 0)
  {
    EscapedReadsBack(s, true, signedChar);
    RemovedAsDocumented(s, 0, signedChar);
  }

  /** For instance, the two bytes of an accented letter disappear. */
  lemma AccentedLetterIsDropped()
    ensures Valid("\U{C3}\U{A9}", 0, true) == "" && XmlCharacters("\U{C3}\U{A9}", 0) == "\U{C3}\U{A9}"
  {
    var s := "\U{C3}\U{A9}";
    assert XmlCharacters(s, 2) == "" && XmlCharacters(s, 1) == [s[1]] && XmlCharacters(s, 0) == [s[0]] + [s[1]];
    assert Valid(s, 2, true) == Valid(s, 1, true) == "";
  }
}

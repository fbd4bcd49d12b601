/** How XML 1.0 reads back an attribute value, character data and CDATA sections. Characters stand for
    bytes. */
module XmlReader {
  import opened Options
  import opened Sequences

  lemma StartsNot(s: string, i: nat, w: string, k: nat)
    requires k < |w| && i + k < |s| && s[i + k] != w[k]
    ensures !HasAt(s, i, w)
  {
  }

  lemma StartsWith(s: string, i: nat, w: string, k: nat)
    requires HasAt(s, i, w) && k < |w|
    ensures i + k < |s| && s[i + k] == w[k]
  {
  }

  /** A reference and how long it is. */
  datatype Reference = NoReference | Reference(c: char, length: nat)

  function HexValue(c: char): Option<nat> {
    if '0' <= c <= '9' then Some((c - '0') as nat)
    else if 'A' <= c <= 'F' then Some((c - 'A') as nat + 10)
    else if 'a' <= c <= 'f' then Some((c - 'a') as nat + 10)
    else None
  }

  /** The rest of a character reference, after n digits of this value. */
  function CharReference(s: string, i: nat, value: nat, n: nat): (r: Reference)
    ensures r.Reference? ==> 0 < r.length && i + r.length <= |s|
    decreases |s| - i
  {
    if i >= |s| then NoReference
    else if s[i] == ';' then if n > 0 && value < 128 then Reference(value as char, 1) else NoReference
    else
      var digit := HexValue(s[i]);
      if digit.None? then NoReference
      else
        var rest := CharReference(s, i + 1, 16 * value + digit.value, n + 1);
        if rest.Reference? then Reference(rest.c, rest.length + 1) else NoReference
  }

  predicate Has3(s: string, i: nat, a: char, b: char, c: char) {
    i + 2 < |s| && s[i] == a && s[i + 1] == b && s[i + 2] == c
  }

  predicate Has4(s: string, i: nat, a: char, b: char, c: char, d: char) {
    Has3(s, i, a, b, c) && i + 3 < |s| && s[i + 3] == d
  }

  predicate Has5(s: string, i: nat, a: char, b: char, c: char, d: char, e: char) {
    Has4(s, i, a, b, c, d) && i + 4 < |s| && s[i + 4] == e
  }

  /** The reference at i, after its '&': one of the five predefined entities, or a character by its
      hexadecimal number. */
  function ReferenceAt(s: string, i: nat): (r: Reference)
    ensures r.Reference? ==> 0 < r.length && i + r.length <= |s|
  {
    if Has3(s, i + 1, 'l', 't', ';') then Reference('<', 4)
    else if Has3(s, i + 1, 'g', 't', ';') then Reference('>', 4)
    else if Has4(s, i + 1, 'a', 'm', 'p', ';') then Reference('&', 5)
    else if Has5(s, i + 1, 'a', 'p', 'o', 's', ';') then Reference('\'', 6)
    else if Has5(s, i + 1, 'q', 'u', 'o', 't', ';') then Reference('\"', 6)
    else if i + 2 < |s| && s[i + 1] == '#' && s[i + 2] == 'x' then
      var rest := CharReference(s, i + 3, 0, 0);
      if rest.Reference? then Reference(rest.c, rest.length + 3) else NoReference
    else NoReference
  }

  datatype Mode = Attribute | Text | CData

  function Cons(c: char, rest: Option<string>): Option<string> {
    if rest.Some? then Some([c] + rest.value) else None
  }

  /** A line end is a carriage return with the line feed after it, if there is one. */
  function LineEnd(s: string, i: nat): (length: nat)
    requires i < |s|
    ensures 0 < length && i + length <= |s|
  {
    if s[i] == '\r' && i + 1 < |s| && s[i + 1] == '\n' then 2 else 1
  }

  /** What s[i..] says, if it is well formed. Line ends are read as line feeds (section 2.11), and white
      space in attribute values as spaces (section 3.3.3). */
  function Read(s: string, i: nat, mode: Mode): Option<string>
    requires i <= |s|
    decreases |s| - i
  {
    if i == |s| then if mode.CData? then None else Some("")
    else if mode.CData? then
      if Has3(s, i, ']', ']', '>') then Read(s, i + 3, Text) else ReadChar(s, i, mode)
    else if s[i] == '&' then
      var r := ReferenceAt(s, i);
      if r.Reference? then Cons(r.c, Read(s, i + r.length, mode)) else None
    else if mode.Text? then
      if s[i] == '<' then if HasAt(s, i, "<![CDATA[") then Read(s, i + 9, CData) else None
      else if Has3(s, i, ']', ']', '>') then None
      else ReadChar(s, i, mode)
    else if s[i] == '<' || s[i] == '\"' then None
    else ReadChar(s, i, mode)
  }

  function ReadChar(s: string, i: nat, mode: Mode): Option<string>
    requires i < |s|
    decreases |s| - i, 0
  {
    if s[i] == '\r' then Cons(if mode.Attribute? then ' ' else '\n', Read(s, i + LineEnd(s, i), mode))
    else Cons(if mode.Attribute? && (s[i] == '\n' || s[i] == '\t') then ' ' else s[i], Read(s, i + 1, mode))
  }

  /** s[i..] with line feeds for all its line ends. */
  function WithLineFeeds(s: string, i: nat): (t: string)
    requires i <= |s|
    ensures |t| <= |s| - i
    decreases |s| - i
  {
    if i == |s| then "" else [if s[i] == '\r' then '\n' else s[i]] + WithLineFeeds(s, i + LineEnd(s, i))
  }

  /** Only a carriage return is not read back as it was. */
  lemma {:induction false} LineFeedsKept(s: string, i: nat)
    requires i <= |s|
    ensures WithLineFeeds(s, i) == s[i..] <==> forall k | i <= k < |s| :: s[k] != '\r'
    decreases |s| - i
  {
    if i < |s| && s[i] != '\r' {
      LineFeedsKept(s, i + 1);
      var t, rest := WithLineFeeds(s, i), WithLineFeeds(s, i + 1);
      assert t == [s[i]] + rest && s[i..] == [s[i]] + s[i + 1..];
      assert t[1..] == rest && s[i..][1..] == s[i + 1..];
    } else if i < |s| {
      assert WithLineFeeds(s, i)[0] == '\n' && s[i..][0] == '\r';
    }
  }
}

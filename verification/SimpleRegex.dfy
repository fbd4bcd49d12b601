/** The simple regular expressions of the death-test matcher: their grammar, and the strings they denote. */
module SimpleRegex {

  /** A C string: no NUL inside; reading one past the end gives the NUL. */
  type CString = s: string | '\0' !in s

  function CharAt(s: CString, i: nat): char
    requires i <= |s|
  {
    if i == |s| then '\0' else s[i]
  }

  // ---------------------------------------------------------------------------
  // Character classes
  // ---------------------------------------------------------------------------

  predicate IsInSet(ch: char, str: string) { ch != '\0' && ch in str }

  predicate IsAsciiDigit(ch: char) { '0' <= ch <= '9' }

  predicate IsAsciiPunct(ch: char) { IsInSet(ch, "^-!\"#$%&'()*+,./:;<=>?@[\\]_`{|}~") }

  predicate IsRepeat(ch: char) { IsInSet(ch, "?*+") }

  predicate IsAsciiWhiteSpace(ch: char) {
    ch == ' ' || ch == '\U{0C}' || ch == '\n' || ch == '\r' || ch == '\t' || ch == '\U{0B}'
  }

  predicate IsAsciiWordChar(ch: char) {
    ('a' <= ch <= 'z') || ('A' <= ch <= 'Z') || ('0' <= ch <= '9') || ch == '_'
  }

  predicate IsValidEscape(c: char) { IsAsciiPunct(c) || IsInSet(c, "dDfnrsStvwW") }

  predicate AtomMatchesChar(escaped: bool, patternChar: char, ch: char) {
    if escaped then
      match patternChar
      case 'd' => IsAsciiDigit(ch)
      case 'D' => !IsAsciiDigit(ch)
      case 'f' => ch == '\U{0C}'
      case 'n' => ch == '\n'
      case 'r' => ch == '\r'
      case 's' => IsAsciiWhiteSpace(ch)
      case 'S' => !IsAsciiWhiteSpace(ch)
      case 't' => ch == '\t'
      case 'v' => ch == '\U{0B}'
      case 'w' => IsAsciiWordChar(ch)
      case 'W' => !IsAsciiWordChar(ch)
      case _ => IsAsciiPunct(patternChar) && patternChar == ch
    else
      (patternChar == '.' && ch != '\n') || patternChar == ch
  }

  // ---------------------------------------------------------------------------
  // Grammar
  // ---------------------------------------------------------------------------

  datatype Repeat = Once | Optional | Star | Plus

  /** An atom, plain or escaped, with its repetition. */
  datatype Item = Item(escaped: bool, c: char, repeat: Repeat)

  /** Items up to the end of the expression, and whether a '$' stands there. */
  datatype Items = End(anchored: bool) | More(item: Item, rest: Items)

  /** A whole expression, and whether it starts with '^'. */
  datatype Regex = Regex(anchored: bool, items: Items)

  predicate ValidItem(item: Item) {
    if item.escaped then IsValidEscape(item.c)
    else item.c != '\0' && item.c !in "\\^$?*+()[]{}|"
  }

  predicate ValidItems(items: Items) {
    match items
    case End(_) => true
    case More(item, rest) => ValidItem(item) && ValidItems(rest)
  }

  function RepeatLength(repeat: Repeat): nat { if repeat == Once then 0 else 1 }

  function ItemLength(item: Item): (n: nat)
    ensures n > 0
  {
    (if item.escaped then 2 else 1) + RepeatLength(item.repeat)
  }

  function RepeatChar(repeat: Repeat): char
    requires repeat != Once
  {
    match repeat
    case Optional => '?'
    case Star => '*'
    case Plus => '+'
  }

  /** The text from position p on starts with this item. */
  predicate SpellsItem(text: string, p: nat, item: Item) {
    var q := if item.escaped then p + 1 else p;
    && p + ItemLength(item) <= |text|
    && (item.escaped ==> text[p] == '\\')
    && text[q] == item.c
    && (item.repeat != Once ==> text[q + 1] == RepeatChar(item.repeat))
  }

  /** The text from position p to its end spells these items. */
  predicate SpellsItems(text: string, p: nat, items: Items)
    decreases items
  {
    match items
    case End(anchored) => if anchored then p + 1 == |text| && text[p] == '$' else p == |text|
    case More(item, rest) => SpellsItem(text, p, item) && SpellsItems(text, p + ItemLength(item), rest)
  }

  /** The text is the expression r, written out. */
  predicate Spells(text: string, r: Regex) {
    && ValidItems(r.items)
    && (r.anchored ==> text != [] && text[0] == '^')
    && SpellsItems(text, if r.anchored then 1 else 0, r.items)
  }

  ghost predicate IsRegex(text: string) { exists r :: Spells(text, r) }

  // ---------------------------------------------------------------------------
  // Meaning
  // ---------------------------------------------------------------------------

  predicate CountFits(repeat: Repeat, n: nat) {
    match repeat
    case Once => n == 1
    case Optional => n <= 1
    case Star => true
    case Plus => n >= 1
  }

  /** str[from..to] is a repetition of the item's atom that the item allows. */
  predicate ItemMatches(item: Item, str: string, from: nat, to: nat) {
    && from <= to <= |str|
    && CountFits(item.repeat, to - from)
    && forall i | from <= i < to :: AtomMatchesChar(item.escaped, item.c, str[i])
  }

  /** str[from..to] is a concatenation of what the items match, and ends where '$' wants it to. */
  ghost predicate Matches(items: Items, str: string, from: nat, to: nat) {
    match items
    case End(anchored) => from == to <= |str| && (anchored ==> to == |str|)
    case More(item, rest) => exists mid: nat :: ItemMatches(item, str, from, mid) && Matches(rest, str, mid, to)
  }

  /** Some part of str that starts at from matches. */
  ghost predicate MatchesHead(items: Items, str: string, from: nat) {
    exists to: nat :: Matches(items, str, from, to)
  }

  lemma {:induction false} MatchesInOrder(items: Items, str: string, from: nat, to: nat)
    requires Matches(items, str, from, to)
    ensures from <= to <= |str|
  {
    if items.More? {
      var mid: nat :| ItemMatches(items.item, str, from, mid) && Matches(items.rest, str, mid, to);
      MatchesInOrder(items.rest, str, mid, to);
    }
  }

  lemma HeadOfMore(items: Items, str: string, from: nat)
    requires items.More?
    ensures MatchesHead(items, str, from) <==>
            exists mid: nat :: ItemMatches(items.item, str, from, mid) && MatchesHead(items.rest, str, mid)
  {
    if MatchesHead(items, str, from) {
      var to: nat :| Matches(items, str, from, to);
      var mid: nat :| ItemMatches(items.item, str, from, mid) && Matches(items.rest, str, mid, to);
      assert MatchesHead(items.rest, str, mid);
    }
    if mid: nat :| ItemMatches(items.item, str, from, mid) && MatchesHead(items.rest, str, mid) {
      var to: nat :| Matches(items.rest, str, mid, to);
      assert Matches(items, str, from, to);
    }
  }

  // ---------------------------------------------------------------------------
  // A text spells at most one expression
  // ---------------------------------------------------------------------------

  /** The first character of what spells items: never a repetition. */
  lemma FirstCharOfItems(text: CString, p: nat, items: Items)
    requires SpellsItems(text, p, items) && ValidItems(items)
    ensures p <= |text| && !IsRepeat(CharAt(text, p)) && CharAt(text, p) != '^'
    ensures items == End(false) <==> CharAt(text, p) == '\0'
    ensures items == End(true) <==> CharAt(text, p) == '$'
    ensures items.More? && items.item.escaped <==> CharAt(text, p) == '\\'
  {
    if items.More? {
      assert SpellsItem(text, p, items.item);
    }
  }

  lemma {:induction false} SpellingIsUnique(text: CString, p: nat, items: Items, items': Items)
    requires SpellsItems(text, p, items) && ValidItems(items)
    requires SpellsItems(text, p, items') && ValidItems(items')
    ensures items == items'
    decreases items
  {
    FirstCharOfItems(text, p, items);
    FirstCharOfItems(text, p, items');
    if items.More? {
      FirstCharOfItems(text, p + ItemLength(items.item), items.rest);
      FirstCharOfItems(text, p + ItemLength(items'.item), items'.rest);
      SpellingIsUnique(text, p + ItemLength(items.item), items.rest, items'.rest);
    }
  }

  /** So what an expression means is a property of its text. */
  lemma RegexIsUnique(text: CString, r: Regex, r': Regex)
    requires Spells(text, r) && Spells(text, r')
    ensures r == r'
  {
    if !r.anchored {
      FirstCharOfItems(text, 0, r.items);
    }
    if !r'.anchored {
      FirstCharOfItems(text, 0, r'.items);
    }
    SpellingIsUnique(text, if r.anchored then 1 else 0, r.items, r'.items);
  }
}

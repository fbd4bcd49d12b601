/** What the atoms and the repetitions of a simple regular expression mean, one by one. */
module RegexMeaning {
  import opened SimpleRegex

  predicate IsLetter(c: char) { 'a' <= c <= 'z' || 'A' <= c <= 'Z' }

  predicate IsDigit(c: char) { 48 <= c as int <= 57 }

  /** '.' stands for every character but the line feed, and any other plain atom for itself. */
  lemma PlainAtom(c: char, ch: char)
    ensures AtomMatchesChar(false, c, ch) <==> if c == '.' then ch != '\n' else ch == c
  {
  }

  /** \d, \s and \w stand for the digits, the white space and the word characters of ASCII. */
  lemma ClassAtom(ch: char)
    ensures AtomMatchesChar(true, 'd', ch) <==> IsDigit(ch)
    ensures AtomMatchesChar(true, 'w', ch) <==> IsLetter(ch) || IsDigit(ch) || ch == '_'
    ensures AtomMatchesChar(true, 's', ch) <==> 9 <= ch as int <= 13 || ch as int == 32
  {
  }

  /** \D, \S and \W are their complements. */
  lemma ComplementAtom(ch: char)
    ensures AtomMatchesChar(true, 'D', ch) <==> !AtomMatchesChar(true, 'd', ch)
    ensures AtomMatchesChar(true, 'S', ch) <==> !AtomMatchesChar(true, 's', ch)
    ensures AtomMatchesChar(true, 'W', ch) <==> !AtomMatchesChar(true, 'w', ch)
  {
  }

  /** \f, \n, \r, \t and \v stand for control characters. */
  lemma ControlAtom(ch: char)
    ensures AtomMatchesChar(true, 'f', ch) <==> ch as int == 12
    ensures AtomMatchesChar(true, 'n', ch) <==> ch as int == 10
    ensures AtomMatchesChar(true, 'r', ch) <==> ch as int == 13
    ensures AtomMatchesChar(true, 't', ch) <==> ch as int == 9
    ensures AtomMatchesChar(true, 'v', ch) <==> ch as int == 11
  {
  }

  /** The punctuation characters are the visible ones but letters and digits. */
  predicate IsPunctuation(c: char) {
    33 <= c as int <= 47 || 58 <= c as int <= 64 || 91 <= c as int <= 96 || 123 <= c as int <= 126
  }

  lemma Punctuation(c: char)
    ensures IsAsciiPunct(c) <==> IsPunctuation(c)
  {
    var all := "^-!\"#$%&'()*+,./:;<=>?@[\\]_`{|}~";
    if c in all {
      assert IsPunctuation(c);
    }
    if IsPunctuation(c) {
      assert c in all;
    }
  }

  lemma ValidEscapes(c: char)
    ensures IsValidEscape(c) <==> IsPunctuation(c) || c in "dDfnrsStvwW"
  {
    Punctuation(c);
  }

  /** An escaped one stands for itself. */
  lemma EscapedPunctuation(c: char, ch: char)
    requires IsPunctuation(c)
    ensures AtomMatchesChar(true, c, ch) <==> ch == c
  {
    Punctuation(c);
  }

  /** An atom without a repetition takes one character. */
  lemma OnceIs(escaped: bool, c: char, rest: Items, str: string, from: nat, to: nat)
    ensures Matches(More(Item(escaped, c, Once), rest), str, from, to)
       <==> from < |str| && AtomMatchesChar(escaped, c, str[from]) && Matches(rest, str, from + 1, to)
  {
    var item := Item(escaped, c, Once);
    if from < |str| && AtomMatchesChar(escaped, c, str[from]) && Matches(rest, str, from + 1, to) {
      assert ItemMatches(item, str, from, from + 1);
    }
  }

  /** '?' takes the atom or nothing. */
  lemma OptionalIs(escaped: bool, c: char, rest: Items, str: string, from: nat, to: nat)
    ensures Matches(More(Item(escaped, c, Optional), rest), str, from, to)
       <==> Matches(rest, str, from, to) || Matches(More(Item(escaped, c, Once), rest), str, from, to)
  {
    var once, optional := Item(escaped, c, Once), Item(escaped, c, Optional);
    if Matches(rest, str, from, to) {
      MatchesInOrder(rest, str, from, to);
      assert ItemMatches(optional, str, from, from);
    }
    if Matches(More(once, rest), str, from, to) {
      var mid: nat :| ItemMatches(once, str, from, mid) && Matches(rest, str, mid, to);
      assert ItemMatches(optional, str, from, mid);
    }
    if Matches(More(optional, rest), str, from, to) {
      var mid: nat :| ItemMatches(optional, str, from, mid) && Matches(rest, str, mid, to);
      assert mid == from || ItemMatches(once, str, from, mid);
    }
  }

  /** '+' takes the atom, and then as '*' does. */
  lemma PlusIs(escaped: bool, c: char, rest: Items, str: string, from: nat, to: nat)
    ensures Matches(More(Item(escaped, c, Plus), rest), str, from, to)
       <==> Matches(More(Item(escaped, c, Once), More(Item(escaped, c, Star), rest)), str, from, to)
  {
    var plus, star := Item(escaped, c, Plus), Item(escaped, c, Star);
    OnceIs(escaped, c, More(star, rest), str, from, to);
    if Matches(More(plus, rest), str, from, to) {
      var mid: nat :| ItemMatches(plus, str, from, mid) && Matches(rest, str, mid, to);
      assert ItemMatches(star, str, from + 1, mid);
    }
    if from < |str| && AtomMatchesChar(escaped, c, str[from]) && Matches(More(star, rest), str, from + 1, to) {
      var mid: nat :| ItemMatches(star, str, from + 1, mid) && Matches(rest, str, mid, to);
      assert ItemMatches(plus, str, from, mid);
    }
  }

  /** '*' takes nothing, or as '+' does. */
  lemma StarIs(escaped: bool, c: char, rest: Items, str: string, from: nat, to: nat)
    ensures Matches(More(Item(escaped, c, Star), rest), str, from, to)
       <==> Matches(rest, str, from, to) || Matches(More(Item(escaped, c, Plus), rest), str, from, to)
  {
    var plus, star := Item(escaped, c, Plus), Item(escaped, c, Star);
    if Matches(rest, str, from, to) {
      MatchesInOrder(rest, str, from, to);
      assert ItemMatches(star, str, from, from);
    }
    if Matches(More(plus, rest), str, from, to) {
      var mid: nat :| ItemMatches(plus, str, from, mid) && Matches(rest, str, mid, to);
      assert ItemMatches(star, str, from, mid);
    }
    if Matches(More(star, rest), str, from, to) {
      var mid: nat :| ItemMatches(star, str, from, mid) && Matches(rest, str, mid, to);
      assert mid == from || ItemMatches(plus, str, from, mid);
    }
  }

  /** What is left when all items are taken ends anywhere, or with '$' at the end of the string. */
  lemma EndIs(anchored: bool, str: string, from: nat, to: nat)
    ensures Matches(End(anchored), str, from, to) <==> to == from && if anchored then from == |str| else from <= |str|
  {
  }

  /** One expression with each of the repetitions, spelled out. */
  lemma SpelledOut()
    ensures Spells("^a?.*\\w+$", Regex(true, More(Item(false, 'a', Optional), More(Item(false, '.', Star),
                     More(Item(true, 'w', Plus), End(true))))))
  {
    var text, last := "^a?.*\\w+$", More(Item(true, 'w', Plus), End(true));
    assert SpellsItems(text, 8, End(true));
    assert SpellsItems(text, 5, last);
    assert SpellsItems(text, 3, More(Item(false, '.', Star), last));
  }
}

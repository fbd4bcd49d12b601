/** Class RE: Init, FullMatch, PartialMatch, and what the built full pattern means. */
module RegexClass {
  import opened Options
  import opened SimpleRegex
  import opened RegexValidator
  import opened RegexMatcher

  // ---------------------------------------------------------------------------
  // The full pattern
  // ---------------------------------------------------------------------------

  function FullPattern(regex: CString): CString {
    (if CharAt(regex, 0) != '^' then "^" else "")
    + regex
    + (if regex == "" || regex[|regex| - 1] != '$' then "$" else "")
  }

  predicate AnchoredEnd(items: Items) {
    match items
    case End(anchored) => anchored
    case More(_, rest) => AnchoredEnd(rest)
  }

  /** The text ends in an escaped '$'. */
  predicate EndsInEscapedDollar(items: Items) {
    match items
    case End(_) => false
    case More(item, rest) =>
      if rest.End? then !rest.anchored && item.escaped && item.c == '$' && item.repeat.Once?
      else EndsInEscapedDollar(rest)
  }

  function WithEnd(items: Items): Items {
    match items
    case End(_) => End(true)
    case More(item, rest) => More(item, WithEnd(rest))
  }

  /** The items of the full pattern. */
  function FullItems(items: Items): Items { if EndsInEscapedDollar(items) then items else WithEnd(items) }

  /** A text that ends with one item: only an item `\$` without repetition leaves a '$' at its end. */
  lemma LastItem(text: CString, p: nat, items: Items)
    requires SpellsItems(text, p, items) && ValidItems(items) && items.More? && p + ItemLength(items.item) == |text|
    ensures text[|text| - 1] == '$' <==> AnchoredEnd(items) || EndsInEscapedDollar(items)
  {
    FirstCharOfItems(text, |text|, items.rest);
    var item := items.item;
    assert items.rest.End? && !items.rest.anchored && !AnchoredEnd(items.rest);
    if item.repeat.Once? {
      assert text[|text| - 1] == item.c;
    } else {
      assert text[|text| - 1] == RepeatChar(item.repeat);
    }
  }

  lemma {:induction false} LastChar(text: CString, p: nat, items: Items)
    requires SpellsItems(text, p, items) && ValidItems(items) && p < |text|
    ensures text[|text| - 1] == '$' <==> AnchoredEnd(items) || EndsInEscapedDollar(items)
    decreases items
  {
    if items.More? {
      var next := p + ItemLength(items.item);
      FirstCharOfItems(text, next, items.rest);
      if next < |text| {
        LastChar(text, next, items.rest);
      } else {
        LastItem(text, p, items);
      }
    }
  }

  /** Moving a spelling behind a prefix. */
  lemma {:induction false} SpellsBehind(prefix: string, text: string, p: nat, items: Items)
    ensures SpellsItems(prefix + text, |prefix| + p, items) <==> SpellsItems(text, p, items)
    decreases items
  {
    if items.More? {
      var all, at := prefix + text, |prefix| + p;
      assert forall k | 0 <= k < |text| :: all[|prefix| + k] == text[k];
      assert SpellsItem(all, at, items.item) <==> SpellsItem(text, p, items.item);
      SpellsBehind(prefix, text, p + ItemLength(items.item), items.rest);
    }
  }

  /** Appending a '$' where there is none. */
  lemma {:induction false} SpellsWithEnd(text: string, p: nat, items: Items)
    requires SpellsItems(text, p, items) && !AnchoredEnd(items)
    ensures SpellsItems(text + "$", p, WithEnd(items))
    decreases items
  {
    if items.More? {
      assert SpellsItem(text + "$", p, items.item);
      SpellsWithEnd(text, p + ItemLength(items.item), items.rest);
    }
  }

  lemma {:induction false} WithEndKeeps(items: Items)
    ensures ValidItems(items) ==> ValidItems(WithEnd(items))
    ensures AnchoredEnd(items) ==> WithEnd(items) == items && !EndsInEscapedDollar(items)
  {
    if items.More? {
      WithEndKeeps(items.rest);
    }
  }

  /** The built pattern is itself a valid expression: the same items, anchored at the start, and
      anchored at the end unless they end in an escaped '$'. */
  lemma FullPatternIsValid(regex: CString, r: Regex)
    requires Spells(regex, r)
    ensures Spells(FullPattern(regex), Regex(true, FullItems(r.items)))
  {
    var start, end := if r.anchored then "" else "^", if regex == "" || regex[|regex| - 1] != '$' then "$" else "";
    var p := if r.anchored then 1 else 0;
    if !r.anchored { FirstCharOfItems(regex, 0, r.items); }
    WithEndKeeps(r.items);
    if p < |regex| { LastChar(regex, p, r.items); }
    if end == "$" { SpellsWithEnd(regex, p, r.items); }
    assert SpellsItems(regex + end, p, FullItems(r.items)) by { assert regex + "" == regex; }
    SpellsBehind(start, regex + end, p, FullItems(r.items));
    assert FullPattern(regex) == start + (regex + end);
  }

  // ---------------------------------------------------------------------------
  // What a full match means
  // ---------------------------------------------------------------------------

  /** A '$' at the end asks for the end of the string, and nothing else. */
  lemma {:induction false} WithEndMatches(items: Items, str: string, from: nat, to: nat)
    ensures Matches(WithEnd(items), str, from, to) <==> to == |str| && Matches(items, str, from, to)
    decreases items
  {
    if items.More? {
      if mid: nat :| ItemMatches(items.item, str, from, mid) && Matches(WithEnd(items.rest), str, mid, to) {
        WithEndMatches(items.rest, str, mid, to);
      }
      if mid: nat :| ItemMatches(items.item, str, from, mid) && Matches(items.rest, str, mid, to) {
        WithEndMatches(items.rest, str, mid, to);
      }
    }
  }

  /** The whole of str matches. */
  ghost predicate MatchesWhole(items: Items, str: string) { Matches(items, str, 0, |str|) }

  /** What the matcher makes of the full pattern: the whole string, or a prefix of it when the
      expression ends in an escaped '$'. */
  lemma FullMeaning(items: Items, str: string)
    ensures MatchesHead(FullItems(items), str, 0) <==>
            if EndsInEscapedDollar(items) then MatchesHead(items, str, 0) else MatchesWhole(items, str)
  {
    if !EndsInEscapedDollar(items) {
      if to: nat :| Matches(WithEnd(items), str, 0, to) {
        WithEndMatches(items, str, 0, to);
      }
      WithEndMatches(items, str, 0, |str|);
    }
  }

  // ---------------------------------------------------------------------------
  // Exactly when FullMatch is right
  // ---------------------------------------------------------------------------

  /** A character that an item's atom matches. */
  function Sample(item: Item): char {
    if item.escaped then
      match item.c
      case 'd' => '0'
      case 'D' => 'a'
      case 'f' => '\U{0C}'
      case 'n' => '\n'
      case 'r' => '\r'
      case 's' => ' '
      case 'S' => 'a'
      case 't' => '\t'
      case 'v' => '\U{0B}'
      case 'w' => 'a'
      case 'W' => ' '
      case c => c
    else item.c
  }

  lemma SampleMatches(item: Item)
    requires ValidItem(item)
    ensures Sample(item) != '\0' && AtomMatchesChar(item.escaped, item.c, Sample(item))
  {
  }

  /** Every valid expression matches something: a string that goes on where prefix ends. */
  lemma {:induction false} SomethingMatches(items: Items, prefix: CString) returns (str: CString)
    requires ValidItems(items)
    ensures prefix <= str && Matches(items, str, |prefix|, |str|)
    decreases items
  {
    str := prefix;
    if items.More? {
      SampleMatches(items.item);
      str := SomethingMatches(items.rest, prefix + [Sample(items.item)]);
      assert str[|prefix|] == Sample(items.item);
      assert ItemMatches(items.item, str, |prefix|, |prefix| + 1);
    }
  }

  lemma {:induction false} MatchesInLonger(items: Items, str: string, more: string, from: nat, to: nat)
    requires Matches(items, str, from, to) && !AnchoredEnd(items) && str <= more
    ensures Matches(items, more, from, to)
    decreases items
  {
    if items.More? {
      var mid: nat :| ItemMatches(items.item, str, from, mid) && Matches(items.rest, str, mid, to);
      assert ItemMatches(items.item, more, from, mid);
      MatchesInLonger(items.rest, str, more, mid, to);
    }
  }

  lemma {:induction false} EscapedDollarMatchesDollar(items: Items, str: string, from: nat, to: nat)
    requires Matches(items, str, from, to) && EndsInEscapedDollar(items)
    ensures 0 < to <= |str| && str[to - 1] == '$' && !AnchoredEnd(items)
    decreases items
  {
    var mid: nat :| ItemMatches(items.item, str, from, mid) && Matches(items.rest, str, mid, to);
    if items.rest != End(false) {
      EscapedDollarMatchesDollar(items.rest, str, mid, to);
    }
  }

  /** For an expression that ends in an escaped '$', some string is accepted that does not match as a whole. */
  lemma EscapedDollarAcceptsMore(items: Items) returns (str: CString)
    requires ValidItems(items) && EndsInEscapedDollar(items)
    ensures MatchesHead(FullItems(items), str, 0) && !MatchesWhole(items, str)
  {
    var s := SomethingMatches(items, "");
    EscapedDollarMatchesDollar(items, s, 0, |s|);
    str := s + "x";
    MatchesInLonger(items, s, str, 0, |s|);
    assert MatchesHead(items, str, 0);
    if MatchesWhole(items, str) {
      EscapedDollarMatchesDollar(items, str, 0, |str|);
    }
  }

  /** The text of a backslash and '$' is such an expression. */
  lemma EscapedDollarIsRegex() returns (r: Regex)
    ensures Spells("\\$", r) && EndsInEscapedDollar(r.items)
  {
    r := Regex(false, More(Item(true, '$', Once), End(false)));
    assert SpellsItems("\\$", 2, End(false));
  }

  /** Main result: FullMatch asks for a match of the whole string, on every string, exactly when the
      expression does not end in an escaped '$'. */
  lemma FullMatchIsWholeMatch(items: Items)
    requires ValidItems(items)
    ensures (forall str: CString :: MatchesHead(FullItems(items), str, 0) <==> MatchesWhole(items, str)) <==>
            !EndsInEscapedDollar(items)
  {
    if EndsInEscapedDollar(items) {
      var str := EscapedDollarAcceptsMore(items);
    } else {
      forall str: CString ensures MatchesHead(FullItems(items), str, 0) <==> MatchesWhole(items, str) {
        FullMeaning(items, str);
      }
    }
  }

  // ---------------------------------------------------------------------------
  // The class
  // ---------------------------------------------------------------------------

  class RE {
    var pattern: Option<CString>
    var fullPattern: Option<CString>
    var isValid: bool

    /** What Init leaves behind: the patterns, and whether the text is an expression of the grammar. */
    ghost predicate Valid()
      reads this
    {
      && (isValid <==> pattern.Some? && IsRegex(pattern.value))
      && fullPattern == if isValid then Some(FullPattern(pattern.value)) else None
    }

    constructor (regex: Option<CString>)
      ensures Valid() && pattern == regex
    {
      new;
      Init(regex);
    }

    method Init(regex: Option<CString>)
      modifies this
      ensures Valid() && pattern == regex
    {
      pattern, fullPattern := None, None;
      if regex != None {
        pattern := regex;
      }
      isValid := ValidateRegex(regex);
      if !isValid {
        return;
      }
      var buffer := BuildFullPattern(regex.value);
      fullPattern := Some(buffer);
    }

    static method BuildFullPattern(regex: CString) returns (buffer: CString)
      ensures buffer == FullPattern(regex)
    {
      var len := |regex|;
      buffer := "";
      if CharAt(regex, 0) != '^' {
        buffer := buffer + "^";
      }
      buffer := buffer + regex;
      if len == 0 || regex[len - 1] != '$' {
        buffer := buffer + "$";
      }
      assert "" + regex == regex && regex + "" == regex;
    }

    /** Whether the entire str matches: exactly so for the expression r that the pattern spells, but for
        an escaped '$' at its end. */
    static method FullMatch(str: Option<CString>, re: RE, ghost r: Regex) returns (matched: bool)
      requires re.Valid() && (re.isValid ==> Spells(re.pattern.value, r))
      requires str.Some? ==> |str.value| <= MAX_COUNT
      ensures matched <==> re.isValid && str.Some? &&
                           if EndsInEscapedDollar(r.items) then MatchesHead(r.items, str.value, 0)
                           else MatchesWhole(r.items, str.value)
    {
      if !re.isValid {
        return false;
      }
      FullPatternIsValid(re.pattern.value, r);
      if str.Some? { FullMeaning(r.items, str.value); }
      matched := MatchRegexAnywhere(re.fullPattern, str, Regex(true, FullItems(r.items)));
    }

    /** Whether some substring of str matches. */
    static method PartialMatch(str: Option<CString>, re: RE, ghost r: Regex) returns (matched: bool)
      requires re.Valid() && (re.isValid ==> Spells(re.pattern.value, r))
      requires str.Some? ==> |str.value| <= MAX_COUNT
      ensures matched <==> re.isValid && str.Some? && MatchesSomewhere(r, str.value)
    {
      if !re.isValid {
        return false;
      }
      matched := MatchRegexAnywhere(re.pattern, str, r);
    }
  }
}

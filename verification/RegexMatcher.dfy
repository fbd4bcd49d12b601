/** The backtracking matcher and class RE. */
module RegexMatcher {
  import opened Options
  import opened SimpleRegex

  /** The largest count the repetition loop reaches: a string longer than this cannot be indexed. */
  const MAX_COUNT: nat := 0xFFFF_FFFF_FFFF_FFFE

  /** Tries one more atom at a time, then what follows. The text from p on spells rest. */
  method MatchRepetitionAndRegexAtHead(escaped: bool, c: char, repeat: char, regex: CString, p: nat,
                                       str: CString, q: nat,
                                       ghost item: Item, ghost rest: Items)
    returns (matched: bool)
    requires item.escaped == escaped && item.c == c && item.repeat != Once && RepeatChar(item.repeat) == repeat
    requires ValidItems(rest) && SpellsItems(regex, p, rest)
    requires q <= |str| <= MAX_COUNT
    ensures matched <==> MatchesHead(More(item, rest), str, q)
    decreases |regex| - p, 1
  {
    var minCount := if repeat == '+' then 1 else 0;
    var maxCount := if repeat == '?' then 1 else MAX_COUNT;
    HeadOfMore(More(item, rest), str, q);
    FirstCharOfItems(regex, p, rest);
    var i := 0;
    while i <= maxCount
      invariant 0 <= i <= maxCount + 1 && (i <= maxCount ==> q + i <= |str|)
      invariant forall k | q <= k < q + i :: k < |str| && AtomMatchesChar(escaped, c, str[k])
      invariant forall mid: nat | mid < q + i :: !(ItemMatches(item, str, q, mid) && MatchesHead(rest, str, mid))
      decreases maxCount + 1 - i
    {
      if i >= minCount {
        matched := MatchRegexAtHead(regex, p, str, q + i, rest);
        if matched {
          assert ItemMatches(item, str, q, q + i);
          return true;
        }
      }
      if CharAt(str, q + i) == '\0' || !AtomMatchesChar(escaped, c, str[q + i]) {
        assert forall mid: nat | mid > q + i :: !ItemMatches(item, str, q, mid);
        return false;
      }
      i := i + 1;
    }
    return false;
  }

  /** Whether the expression that the text from p on spells matches some part of str that starts at q. */
  method MatchRegexAtHead(regex: CString, p: nat, str: CString, q: nat, ghost items: Items) returns (matched: bool)
    requires ValidItems(items) && SpellsItems(regex, p, items)
    requires q <= |str| <= MAX_COUNT
    ensures matched <==> MatchesHead(items, str, q)
    decreases |regex| - p, 0
  {
    FirstCharOfItems(regex, p, items);
    if CharAt(regex, p) == '\0' {
      assert Matches(items, str, q, q);
      return true;
    }
    if CharAt(regex, p) == '$' {
      assert CharAt(str, q) == '\0' ==> Matches(items, str, q, q);
      return CharAt(str, q) == '\0';
    }
    var escaped := CharAt(regex, p) == '\\';
    var at := if escaped then p + 1 else p;
    ghost var next := p + ItemLength(items.item);
    FirstCharOfItems(regex, next, items.rest);
    if IsRepeat(CharAt(regex, at + 1)) {
      matched := MatchRepetitionAndRegexAtHead(escaped, CharAt(regex, at), CharAt(regex, at + 1), regex, at + 2, str, q,
                                               items.item, items.rest);
    } else {
      HeadOfMore(items, str, q);
      if CharAt(str, q) != '\0' && AtomMatchesChar(escaped, CharAt(regex, at), str[q]) {
        matched := MatchRegexAtHead(regex, at + 1, str, q + 1, items.rest);
        assert ItemMatches(items.item, str, q, q + 1);
      } else {
        matched := false;
      }
    }
  }

  /** Some substring of str matches; with '^', one that starts where str does. */
  ghost predicate MatchesSomewhere(r: Regex, str: string) {
    if r.anchored then MatchesHead(r.items, str, 0) else exists from: nat :: MatchesHead(r.items, str, from)
  }

  method MatchRegexAnywhere(regex: Option<CString>, str: Option<CString>, ghost r: Regex) returns (matched: bool)
    requires regex.Some? ==> Spells(regex.value, r)
    requires str.Some? ==> |str.value| <= MAX_COUNT
    ensures matched <==> regex.Some? && str.Some? && MatchesSomewhere(r, str.value)
  {
    if regex == None || str == None {
      return false;
    }
    var text, s := regex.value, str.value;
    if !r.anchored {
      FirstCharOfItems(text, 0, r.items);
    }
    if CharAt(text, 0) == '^' {
      matched := MatchRegexAtHead(text, 1, s, 0, r.items);
      return;
    }
    var q := 0;
    while true
      invariant 0 <= q <= |s|
      invariant forall from: nat | from < q :: !MatchesHead(r.items, s, from)
      decreases |s| - q
    {
      matched := MatchRegexAtHead(text, 0, s, q, r.items);
      if matched {
        return true;
      }
      if CharAt(s, q) == '\0' {
        break;
      }
      q := q + 1;
    }
    forall from: nat | from > |s| ensures !MatchesHead(r.items, s, from) {
      if to: nat :| Matches(r.items, s, from, to) { MatchesInOrder(r.items, s, from, to); }
    }
    return false;
  }
}

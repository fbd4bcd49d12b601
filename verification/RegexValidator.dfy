/** ValidateRegex, and what it accepts. */
module RegexValidator {
  import opened Options
  import opened SimpleRegex

  /** What is left of the validator's loop from index i on, when no error has been found so far. */
  predicate ValidFrom(regex: CString, i: nat, prevRepeatable: bool)
    requires i <= |regex|
    decreases |regex| - i
  {
    if i == |regex| then true
    else if regex[i] == '\\' then
      i + 1 < |regex| && IsValidEscape(regex[i + 1]) && ValidFrom(regex, i + 2, true)
    else
      var ch := regex[i];
      && !(ch == '^' && i > 0)
      && !(ch == '$' && i + 1 < |regex|)
      && !IsInSet(ch, "()[]{}|")
      && !(IsRepeat(ch) && !prevRepeatable)
      && ValidFrom(regex, i + 1, !IsInSet(ch, "^$?*+"))
  }

  // ---------------------------------------------------------------------------
  // It accepts exactly the expressions of the grammar
  // ---------------------------------------------------------------------------

  function RepeatOf(ch: char): Repeat {
    if ch == '?' then Optional else if ch == '*' then Star else if ch == '+' then Plus else Once
  }

  /** After an atom, the loop accepts a repetition or goes on without one. */
  lemma AfterAtom(regex: CString, q: nat)
    requires q <= |regex|
    ensures ValidFrom(regex, q, true) <==>
            ValidFrom(regex, if IsRepeat(CharAt(regex, q)) then q + 1 else q, false)
  {
  }

  /** What the loop accepts begins with an item, unless it is at the end. */
  lemma FirstItem(regex: CString, i: nat) returns (item: Item)
    requires i < |regex| && regex[i] != '$' && ValidFrom(regex, i, false)
    requires i == 0 ==> CharAt(regex, 0) != '^'
    ensures ValidItem(item) && SpellsItem(regex, i, item) && ValidFrom(regex, i + ItemLength(item), false)
  {
    var escaped := regex[i] == '\\';
    var q := if escaped then i + 2 else i + 1;
    AfterAtom(regex, q);
    item := Item(escaped, regex[q - 1], RepeatOf(CharAt(regex, q)));
  }

  /** What the loop accepts from an item boundary on is spelled by some items. */
  lemma {:induction false} ValidIsSpelled(regex: CString, i: nat) returns (items: Items)
    requires i <= |regex| && ValidFrom(regex, i, false)
    requires i == 0 ==> CharAt(regex, 0) != '^'
    ensures ValidItems(items) && SpellsItems(regex, i, items)
    decreases |regex| - i
  {
    if i == |regex| {
      items := End(false);
    } else if regex[i] == '$' {
      items := End(true);
    } else {
      var item := FirstItem(regex, i);
      var rest := ValidIsSpelled(regex, i + ItemLength(item));
      items := More(item, rest);
    }
  }

  /** And what some items spell, the loop accepts. */
  lemma {:induction false} SpelledIsValid(regex: CString, i: nat, items: Items)
    requires ValidItems(items) && SpellsItems(regex, i, items)
    ensures i <= |regex| && ValidFrom(regex, i, false)
    decreases items
  {
    FirstCharOfItems(regex, i, items);
    if items.More? {
      var next := i + ItemLength(items.item);
      SpelledIsValid(regex, next, items.rest);
      FirstCharOfItems(regex, next, items.rest);
      AfterAtom(regex, next - RepeatLength(items.item.repeat));
    }
  }

  /** The loop accepts a text exactly when it spells an expression of the grammar. */
  lemma ValidIffRegex(regex: CString)
    ensures ValidFrom(regex, 0, false) <==> IsRegex(regex)
  {
    if ValidFrom(regex, 0, false) {
      var anchored := CharAt(regex, 0) == '^';
      var items := ValidIsSpelled(regex, if anchored then 1 else 0);
      assert Spells(regex, Regex(anchored, items));
    }
    if r :| Spells(regex, r) {
      SpelledIsValid(regex, if r.anchored then 1 else 0, r.items);
    }
  }

  /** The validator's loop. */
  method ValidateRegex(regex: Option<CString>) returns (isValid: bool)
    ensures isValid <==> regex.Some? && IsRegex(regex.value)
  {
    if regex == None {
      return false;
    }
    var text := regex.value;
    ValidIffRegex(text);
    isValid := true;
    var prevRepeatable := false;
    var i := 0;
    while CharAt(text, i) != '\0'
      invariant 0 <= i <= |text|
      invariant ValidFrom(text, 0, false) <==> isValid && ValidFrom(text, i, prevRepeatable)
      decreases |text| - i
    {
      if text[i] == '\\' {
        i := i + 1;
        if CharAt(text, i) == '\0' {
          return false;
        }
        if !IsValidEscape(text[i]) {
          isValid := false;
        }
        prevRepeatable := true;
      } else {
        var ch := text[i];
        if ch == '^' && i > 0 {
          isValid := false;
        } else if ch == '$' && CharAt(text, i + 1) != '\0' {
          isValid := false;
        } else if IsInSet(ch, "()[]{}|") {
          isValid := false;
        } else if IsRepeat(ch) && !prevRepeatable {
          isValid := false;
        }
        prevRepeatable := !IsInSet(ch, "^$?*+");
      }
      i := i + 1;
    }
  }
}

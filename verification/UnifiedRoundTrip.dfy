/** From two files to the text of their unified diff, and back: the text alone turns one file into the other. */
module UnifiedRoundTrip {
  import opened Options
  import opened EditScript
  import opened UnifiedText
  import opened UnifiedDiff
  import opened UnifiedPatch

  lemma ScriptAgrees(left: seq<string>, right: seq<string>)
    ensures Agrees(Script(left, right), left, right)
    ensures var edits := Script(left, right);
            LeftUsed(edits, |edits|) == |left| && RightUsed(edits, |edits|) == |right|
  {
    var edits := Script(left, right);
    ScriptIsCorrect(left, right);
    forall m | 0 <= m < |edits| ensures LinesFit(edits, left, right, m) {
      assert EditFits(edits, left, right, m);
    }
  }

  // ---------------------------------------------------------------------------
  // NULs and line breaks inside lines
  // ---------------------------------------------------------------------------

  /** The lines that edit k stands for have no NUL and no line break inside. */
  predicate EditIsPlain(edits: seq<EditType>, k: nat, left: seq<string>, right: seq<string>)
    requires k < |edits|
  {
    var i, j := LeftUsed(edits, k), RightUsed(edits, k);
    && (edits[k] != Add && i < |left| ==> IsOneLine(left[i]))
    && ((edits[k] == Add || edits[k] == Replace) && j < |right| ==> IsOneLine(right[j]))
  }

  predicate EntryIsPlain(e: Entry, left: seq<string>, right: seq<string>) {
    && IsMark(e.mark)
    && var lines := if e.mark == '+' then right else left; e.index < |lines| && IsOneLine(lines[e.index])
  }

  ghost predicate EntriesArePlain(entries: seq<Entry>, left: seq<string>, right: seq<string>) {
    forall e | e in entries :: EntryIsPlain(e, left, right)
  }

  lemma PlainConcat(a: seq<Entry>, b: seq<Entry>, left: seq<string>, right: seq<string>)
    ensures EntriesArePlain(a + b, left, right) <==> EntriesArePlain(a, left, right) && EntriesArePlain(b, left, right)
  {
    assert forall e :: e in a + b <==> e in a || e in b;
  }

  lemma {:induction false} LogIsPlain(edits: seq<EditType>, from: nat, k: nat, left: seq<string>, right: seq<string>)
    requires from <= k <= |edits| && forall m | 0 <= m < |edits| :: InBounds(edits, |left|, |right|, m)
    ensures EntriesArePlain(LogOf(edits, from, k), left, right)
       <==> forall m | from <= m < k :: EditIsPlain(edits, m, left, right)
  {
    if from < k {
      LogIsPlain(edits, from, k - 1, left, right);
      assert InBounds(edits, |left|, |right|, k - 1);
      LineIsPlain(edits, k - 1, left, right);
      PlainConcat(LogOf(edits, from, k - 1), EditLines(edits[k - 1], LeftUsed(edits, k - 1), RightUsed(edits, k - 1)),
                  left, right);
    }
  }

  lemma {:induction false} LogHasOnlyMarks(edits: seq<EditType>, from: nat, k: nat)
    requires from <= k <= |edits|
    ensures forall e | e in LogOf(edits, from, k) :: IsMark(e.mark)
  {
    if from < k {
      LogHasOnlyMarks(edits, from, k - 1);
    }
  }

  lemma LineIsPlain(edits: seq<EditType>, k: nat, left: seq<string>, right: seq<string>)
    requires k < |edits| && InBounds(edits, |left|, |right|, k)
    ensures var lines := EditLines(edits[k], LeftUsed(edits, k), RightUsed(edits, k));
      && (EntriesArePlain(lines, left, right) <==> EditIsPlain(edits, k, left, right))
      && forall e | e in lines :: IsMark(e.mark)
  {
    var lines := EditLines(edits[k], LeftUsed(edits, k), RightUsed(edits, k));
    assert lines[0] in lines && lines[|lines| - 1] in lines;
  }

  /** Grouping removes before adds neither drops nor adds a line. */
  lemma {:induction false} GroupKeepsLines(log: seq<Entry>, n: nat, e: Entry)
    requires n <= |log| && forall x | x in log :: IsMark(x.mark)
    ensures e in Flushed(log, n) <==> e in log[..n]
    ensures e in Removes(log, n) || e in Adds(log, n) ==> e in log[..n]
  {
    if n > 0 {
      GroupKeepsLines(log, n - 1, e);
      assert log[..n] == log[..n - 1] + [log[n - 1]];
      assert log[n - 1] in log;
    }
  }

  lemma RangeIsPlain(edits: seq<EditType>, range: Range, left: seq<string>, right: seq<string>)
    requires range.from <= range.to <= |edits| && forall m | 0 <= m < |edits| :: InBounds(edits, |left|, |right|, m)
    requires Resolvable(HunkOf(edits, range).entries, left, right)
    ensures HunkIsPlain(Rendered(HunkOf(edits, range), left, right))
       <==> forall m | range.from <= m < range.to :: EditIsPlain(edits, m, left, right)
    ensures HasOnlyMarks(Rendered(HunkOf(edits, range), left, right))
  {
    var log := LogOf(edits, range.from, range.to);
    LogIsPlain(edits, range.from, range.to, left, right);
    LogHasOnlyMarks(edits, range.from, range.to);
    forall e ensures e in Flushed(log, |log|) <==> e in log {
      GroupKeepsLines(log, |log|, e);
      assert log[..|log|] == log;
    }
    PlainLines(Flushed(log, |log|), left, right);
  }

  lemma PlainLines(entries: seq<Entry>, left: seq<string>, right: seq<string>)
    requires Resolvable(entries, left, right)
    ensures var lines := Resolve(entries, left, right);
      (forall k | 0 <= k < |lines| :: IsPlain(lines[k])) <==> EntriesArePlain(entries, left, right)
  {
    var lines := Resolve(entries, left, right);
    assert forall k | 0 <= k < |entries| :: IsPlain(lines[k]) <==> EntryIsPlain(entries[k], left, right);
  }

  /** No line near a change has a NUL or a line break inside. */
  ghost predicate ShowsPlain(edits: seq<EditType>, context: nat, left: seq<string>, right: seq<string>) {
    forall k | 0 <= k < |edits| && Near(edits, context, k) :: EditIsPlain(edits, k, left, right)
  }

  /** Every printed line has a mark, and no printed line has a NUL or a line break inside exactly when no
      line near a change has one. */
  lemma HunksArePlainIff(edits: seq<EditType>, context: nat, ranges: seq<Range>, hunks: seq<PrintedHunk>,
                         left: seq<string>, right: seq<string>)
    requires AreHunks(edits, context, ranges) && AreHunksOf(edits, ranges, hunks)
    requires forall m | 0 <= m < |edits| :: InBounds(edits, |left|, |right|, m)
    requires forall h | 0 <= h < |hunks| :: Resolvable(hunks[h].entries, left, right)
    ensures var text := Render(hunks, left, right);
      && (AllPlain(text) <==> ShowsPlain(edits, context, left, right))
      && forall h | 0 <= h < |text| :: HasOnlyMarks(text[h])
  {
    var text := Render(hunks, left, right);
    forall h | 0 <= h < |hunks|
      ensures HunkIsPlain(text[h])
         <==> forall m | ranges[h].from <= m < ranges[h].to :: EditIsPlain(edits, m, left, right)
      ensures HasOnlyMarks(text[h])
    {
      RangeIsPlain(edits, ranges[h], left, right);
    }
    forall k | 0 <= k < |edits| ensures Covered(ranges, k) <==> Near(edits, context, k) {
      HunksShowWhatIsNear(edits, context, ranges, k);
    }
  }

  // ---------------------------------------------------------------------------
  // A diff that is read differently
  // ---------------------------------------------------------------------------

  /** Where line q shows on a side. */
  lemma {:induction false} TextAt<T>(lines: seq<Line<T>>, q: nat, n: nat, side: char)
    requires q < n <= |lines| && (lines[q].mark == ' ' || lines[q].mark == side)
    ensures var k := |TextUpTo(lines, q, side)|;
      k < |TextUpTo(lines, n, side)| && TextUpTo(lines, n, side)[k] == lines[q].text
  {
    if q + 1 < n {
      TextAt(lines, q, n - 1, side);
    }
  }

  lemma {:induction false} SameText<T>(a: seq<Line<T>>, b: seq<Line<T>>, n: nat, side: char)
    requires n <= |a| && n <= |b| && forall k | 0 <= k < n :: a[k] == b[k]
    ensures TextUpTo(a, n, side) == TextUpTo(b, n, side)
  {
    if n > 0 {
      SameText(a, b, n - 1, side);
    }
  }

  lemma {:induction false} SameCursor<T>(a: seq<TextHunk<T>>, b: seq<TextHunk<T>>, n: nat, left: seq<T>)
    requires n <= |a| && n <= |b| && forall k | 0 <= k < n :: a[k] == b[k]
    ensures ApplyHunks(a, n, left) == ApplyHunks(b, n, left)
  {
    if n > 0 {
      SameCursor(a, b, n - 1, left);
    }
  }

  /** What is written stays. */
  lemma {:induction false} OutStays<T>(hunks: seq<TextHunk<T>>, m: nat, n: nat, left: seq<T>)
    requires m <= n <= |hunks| && ApplyHunks(hunks, n, left).Some?
    ensures ApplyHunks(hunks, m, left).Some?
    ensures ApplyHunks(hunks, m, left).value.out <= ApplyHunks(hunks, n, left).value.out
  {
    if m < n {
      OutStays(hunks, m, n - 1, left);
    }
  }

  /** The place of line q in the old text, or in what a hunk writes. */
  function PlaceOf<T>(c: Cursor<T>, h: TextHunk<T>, q: nat, side: char): int
    requires q <= |h.lines|
  {
    StartOf(c, h) + |TextUpTo(h.lines, q, side)| + if side == '-' then 0 else |c.out| - c.used
  }

  lemma AppliedLine<T>(c: Cursor<T>, h: TextHunk<T>, left: seq<T>, q: nat)
    requires q < |h.lines| && ApplyHunk(c, h, left).Some?
    ensures h.lines[q].mark == ' ' || h.lines[q].mark == '-' ==>
      0 <= PlaceOf(c, h, q, '-') < |left| && left[PlaceOf(c, h, q, '-')] == h.lines[q].text
    ensures var out := ApplyHunk(c, h, left).value.out;
      h.lines[q].mark == '+' ==>
      0 <= PlaceOf(c, h, q, '+') < |out| && out[PlaceOf(c, h, q, '+')] == h.lines[q].text
  {
    var start := StartOf(c, h);
    if h.lines[q].mark == ' ' || h.lines[q].mark == '-' {
      TextAt(h.lines, q, |h.lines|, '-');
      assert left[start..start + |OldText(h.lines)|] == OldText(h.lines);
    } else if h.lines[q].mark == '+' {
      TextAt(h.lines, q, |h.lines|, '+');
    }
  }

  /** Two hunks that differ in one line cannot both be applied, unless they write different lines at one place. */
  lemma DifferentHunk<T>(c: Cursor<T>, a: TextHunk<T>, b: TextHunk<T>, q: nat, left: seq<T>) returns (p: nat)
    requires q < |a.lines| && q < |b.lines| && (forall k | 0 <= k < q :: a.lines[k] == b.lines[k])
    requires a.left == b.left && a.right == b.right && IsMark(a.lines[q].mark)
    requires a.lines[q].mark == b.lines[q].mark && a.lines[q].text != b.lines[q].text
    requires ApplyHunk(c, a, left).Some? && ApplyHunk(c, b, left).Some?
    ensures var x, y := ApplyHunk(c, a, left).value.out, ApplyHunk(c, b, left).value.out;
      p < |x| && p < |y| && x[p] != y[p]
  {
    SameText(a.lines, b.lines, q, '-');
    SameText(a.lines, b.lines, q, '+');
    AppliedLine(c, a, left, q);
    AppliedLine(c, b, left, q);
    p := PlaceOf(c, a, q, '+');
  }

  lemma PatchBegins<T>(hunks: seq<TextHunk<T>>, n: nat, left: seq<T>, right: seq<T>)
    requires n <= |hunks| && Patch(hunks, left) == Some(right)
    ensures ApplyHunks(hunks, n, left).Some? && ApplyHunks(hunks, n, left).value.out <= right
  {
    OutStays(hunks, n, |hunks|, left);
  }

  lemma NextBegins<T>(hunks: seq<TextHunk<T>>, h: nat, left: seq<T>, right: seq<T>) returns (c: Cursor<T>)
    requires h < |hunks| && Patch(hunks, left) == Some(right)
    ensures ApplyHunks(hunks, h, left) == Some(c)
    ensures ApplyHunk(c, hunks[h], left).Some? && ApplyHunk(c, hunks[h], left).value.out <= right
  {
    PatchBegins(hunks, h, left, right);
    PatchBegins(hunks, h + 1, left, right);
    c := ApplyHunks(hunks, h, left).value;
  }

  lemma SamePrefix<T>(a: seq<T>, b: seq<T>, s: seq<T>, p: nat)
    requires a <= s && b <= s && p < |a| && p < |b|
    ensures a[p] == b[p]
  {
  }

  lemma {:induction false} DifferentLine(hunks: seq<TextHunk<string>>, read: seq<TextHunk<string>>, h: nat, q: nat,
                      left: seq<string>, right: seq<string>)
    requires h < |hunks| && h < |read| && (forall k | 0 <= k < h :: read[k] == hunks[k])
    requires read[h].left == hunks[h].left && read[h].right == hunks[h].right
    requires DifferAt(hunks[h].lines, read[h].lines, q, LineDiffers) && IsMark(hunks[h].lines[q].mark)
    requires Patch(hunks, left) == Some(right)
    ensures Patch(read, left) != Some(right)
  {
    if Patch(read, left) == Some(right) {
      SameCursor(hunks, read, h, left);
      var c := NextBegins(hunks, h, left, right);
      var d := NextBegins(read, h, left, right);
      var p := DifferentHunk(c, hunks[h], read[h], q, left);
      SamePrefix(ApplyHunk(c, hunks[h], left).value.out, ApplyHunk(c, read[h], left).value.out, right, p);
    }
  }

  /** From a diff that differs in one line, nothing or something else is read. */
  lemma {:induction false} DifferentPatch(hunks: seq<TextHunk<string>>, read: seq<TextHunk<string>>,
                                          left: seq<string>, right: seq<string>)
    requires HunksDiffer(hunks, read) && Patch(hunks, left) == Some(right)
    requires forall h | 0 <= h < |hunks| :: HasOnlyMarks(hunks[h])
    ensures Patch(read, left) != Some(right)
  {
    var h: nat :| DifferAt(hunks, read, h, HunkDiffers);
    var q: nat :| DifferAt(hunks[h].lines, read[h].lines, q, LineDiffers);
    DifferentLine(hunks, read, h, q, left, right);
  }

  /** What is patched from the text of a diff is right exactly when no line has a NUL or a line break inside. */
  lemma PatchTextIff(hunks: seq<TextHunk<string>>, left: seq<string>, right: seq<string>)
    requires Patch(hunks, left) == Some(right) && forall h | 0 <= h < |hunks| :: HasOnlyMarks(hunks[h])
    ensures PatchText(DiffText(hunks, 0), left) == Some(right) <==> AllPlain(hunks)
  {
    if AllPlain(hunks) {
      DiffIsRead(hunks);
    } else if ReadDiff(DiffText(hunks, 0)).Reading? {
      DiffIsMisread(hunks);
      DifferentPatch(hunks, ReadDiff(DiffText(hunks, 0)).value, left, right);
    }
  }

  // ---------------------------------------------------------------------------
  // The round trip
  // ---------------------------------------------------------------------------

  /** Reads a diff and applies it. */
  function PatchText(text: string, left: seq<string>): Option<seq<string>> {
    match ReadDiff(text)
    case Failed => None
    case Reading(hunks, _) => Patch(hunks, left)
  }

  /** Main result: from the characters of the diff alone the strict reader turns left into right exactly when
      there is context and no line near a change has a NUL or a line break inside, or, without context, when
      there is nothing to change. */
  method DiffRoundTrip(left: seq<string>, right: seq<string>, context: nat)
    returns (text: string, ghost hunks: seq<PrintedHunk>, ghost ranges: seq<Range>)
    ensures context == 0 ==> text == ""
    ensures context > 0 ==> AreHunks(Script(left, right), context, ranges)
    ensures context > 0 ==> AreHunksOf(Script(left, right), ranges, hunks)
    ensures ArePrinted(hunks, left, right, text)
    ensures PatchText(text, left) == Some(right) <==>
            if context > 0 then ShowsPlain(Script(left, right), context, left, right)
            else left == right
  {
    text, hunks, ranges := CreateUnifiedDiff(left, right, context);
    if context > 0 {
      var edits := Script(left, right);
      ScriptAgrees(left, right);
      AgreesInBounds(edits, left, right);
      PatchHunks(edits, left, right, context, ranges, hunks);
      HunksArePlainIff(edits, context, ranges, hunks, left, right);
      PatchTextIff(Render(hunks, left, right), left, right);
    } else {
      assert [] + left[0..] == left;
      assert Patch<string>([], left) == Some(left);
    }
  }

  /** A single line with a NUL or a line break inside, removed, is such a line. */
  lemma LineBreakIsShown(line: string, context: nat)
    requires !IsOneLine(line)
    ensures !ShowsPlain(Script([line], []), context, [line], [])
  {
    var left, right: seq<string> := [line], [];
    var edits := Script(left, right);
    assert Trace(left, right, 0, 0) == [] && Move(left, right, 1, 0) == Remove;
    assert edits == [Remove];
    assert Near(edits, context, 0) by { assert IsChange(edits, 0); }
    assert !EditIsPlain(edits, 0, left, right);
  }
}

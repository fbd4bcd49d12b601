/** The hunk builder of the unified diff: CreateUnifiedDiff and class Hunk. */
module UnifiedDiff {
  import opened Options
  import opened EditScript
  import opened Interning
  import opened UnifiedText

  /** A line of a hunk. It refers to a line of the input and does not hold its text: to a line of right
      for '+', of left for ' ' and '-'. */
  datatype Entry = Entry(mark: char, index: nat)

  /** A printed hunk: the header, with the sides it leaves out, and the lines. */
  datatype PrintedHunk = PrintedHunk(left: Option<Extent>, right: Option<Extent>, entries: seq<Entry>)

  // ---------------------------------------------------------------------------
  // The hunk under construction
  // ---------------------------------------------------------------------------

  /** The flushed lines, the pending removes and the pending adds after the first n lines of a log. */
  function Done(log: seq<Entry>, n: nat): seq<Entry>
    requires n <= |log|
    decreases n, 0
  {
    if n == 0 then []
    else if log[n - 1].mark == ' ' then Flushed(log, n - 1) + [log[n - 1]]
    else Done(log, n - 1)
  }

  function Removes(log: seq<Entry>, n: nat): seq<Entry>
    requires n <= |log|
  {
    if n == 0 || log[n - 1].mark == ' ' then []
    else if log[n - 1].mark == '-' then Removes(log, n - 1) + [log[n - 1]]
    else Removes(log, n - 1)
  }

  function Adds(log: seq<Entry>, n: nat): seq<Entry>
    requires n <= |log|
  {
    if n == 0 || log[n - 1].mark == ' ' then []
    else if log[n - 1].mark == '+' then Adds(log, n - 1) + [log[n - 1]]
    else Adds(log, n - 1)
  }

  function Flushed(log: seq<Entry>, n: nat): seq<Entry>
    requires n <= |log|
    decreases n, 1
  {
    Done(log, n) + Removes(log, n) + Adds(log, n)
  }

  /** How many of the first n lines carry a mark. */
  function CountMark(log: seq<Entry>, n: nat, mark: char): nat
    requires n <= |log|
  {
    if n == 0 then 0 else CountMark(log, n - 1, mark) + if log[n - 1].mark == mark then 1 else 0
  }

  lemma {:induction false} LogPrefix(log: seq<Entry>, more: seq<Entry>, n: nat)
    requires n <= |log| && log <= more
    ensures Done(more, n) == Done(log, n) && Removes(more, n) == Removes(log, n) && Adds(more, n) == Adds(log, n)
    ensures forall mark :: CountMark(more, n, mark) == CountMark(log, n, mark)
  {
    if n > 0 {
      LogPrefix(log, more, n - 1);
    }
  }

  /** What is printed for a log of pushed lines. */
  function Printed(leftStart: nat, rightStart: nat, log: seq<Entry>): PrintedHunk {
    var n := |log|;
    var removes, adds, common := CountMark(log, n, '-'), CountMark(log, n, '+'), CountMark(log, n, ' ');
    PrintedHunk(if removes != 0 then Some(Extent(leftStart, removes + common)) else None,
                if adds != 0 then Some(Extent(rightStart, adds + common)) else None,
                Flushed(log, n))
  }

  // ---------------------------------------------------------------------------
  // The lines that the entries refer to
  // ---------------------------------------------------------------------------

  /** Every entry refers to a line that is there. */
  ghost predicate Resolvable<T>(entries: seq<Entry>, left: seq<T>, right: seq<T>) {
    forall k | 0 <= k < |entries| :: entries[k].index < if entries[k].mark == '+' then |right| else |left|
  }

  /** The lines that the entries refer to, where left and right are the lines as they are shown. */
  function Resolve<T>(entries: seq<Entry>, left: seq<T>, right: seq<T>): (lines: seq<Line<T>>)
    requires Resolvable(entries, left, right)
    ensures |lines| == |entries|
  {
    seq(|entries|, k requires 0 <= k < |entries| =>
      Line(entries[k].mark, if entries[k].mark == '+' then right[entries[k].index] else left[entries[k].index]))
  }

  function Rendered<T>(h: PrintedHunk, left: seq<T>, right: seq<T>): TextHunk<T>
    requires Resolvable(h.entries, left, right)
  {
    TextHunk(h.left, h.right, Resolve(h.entries, left, right))
  }

  function Render<T>(hunks: seq<PrintedHunk>, left: seq<T>, right: seq<T>): (text: seq<TextHunk<T>>)
    requires forall h | 0 <= h < |hunks| :: Resolvable(hunks[h].entries, left, right)
    ensures |text| == |hunks|
  {
    seq(|hunks|, h requires 0 <= h < |hunks| => Rendered(hunks[h], left, right))
  }

  lemma {:induction false} FlushedResolvable<T>(log: seq<Entry>, n: nat, left: seq<T>, right: seq<T>)
    requires n <= |log| && Resolvable(log, left, right)
    ensures Resolvable(Done(log, n), left, right)
    ensures Resolvable(Removes(log, n), left, right)
    ensures Resolvable(Adds(log, n), left, right)
    ensures Resolvable(Flushed(log, n), left, right)
  {
    if n > 0 {
      FlushedResolvable(log, n - 1, left, right);
    }
  }

  /** The text is os with the hunk behind it. */
  ghost predicate IsPrinted(h: PrintedHunk, left: seq<string>, right: seq<string>, os: string, text: string) {
    && Resolvable(h.entries, left, right)
    && text == os + HunkText(Rendered(h, left, right))
  }

  ghost predicate ArePrinted(hunks: seq<PrintedHunk>, left: seq<string>, right: seq<string>, text: string) {
    && (forall h | 0 <= h < |hunks| :: Resolvable(hunks[h].entries, left, right))
    && text == DiffText(Render(hunks, left, right), 0)
  }

  lemma PrintedSnoc(hunks: seq<PrintedHunk>, h: PrintedHunk, left: seq<string>, right: seq<string>,
                    os: string, text: string)
    requires ArePrinted(hunks, left, right, os) && IsPrinted(h, left, right, os, text)
    ensures ArePrinted(hunks + [h], left, right, text)
  {
    var before := Render(hunks, left, right);
    assert Render(hunks + [h], left, right) == before + [Rendered(h, left, right)];
    DiffTextSnoc(before, Rendered(h, left, right), 0);
  }

  lemma OneMoreLine(text: string, lines: seq<Line<string>>, k: nat)
    requires k < |lines|
    ensures text + LinesText(lines, k)
         == text + [lines[k].mark] + CStr(lines[k].text) + "\n" + LinesText(lines, k + 1)
  {
  }

  method PrintExtent(os: string, sign: string, start: nat, length: nat) returns (text: string)
    ensures text == os + (sign + ExtentText(Extent(start, length)))
  {
    text := os + sign + Decimal(start) + "," + Decimal(length);
    ExtentPieces(os + sign, Decimal(start), Decimal(length));
    Regroup(os, sign, ExtentText(Extent(start, length)));
  }

  lemma ExtentPieces(a: string, start: string, length: string)
    ensures a + start + "," + length == a + (start + ("," + length))
  {
  }

  lemma Flat(a: string, b: string, c: string, d: string, e: string)
    ensures a + (b + (c + (d + e))) == a + b + c + d + e
  {
    Regroup(a, b, c + (d + e));
    Regroup(a + b, c, d + e);
    Regroup(a + b + c, d, e);
  }

  /** The right side of a header, after the text m, with the space that sets it off. */
  lemma RightPieces(m: string, left: Option<Extent>, right: Option<Extent>)
    ensures m + SideText(RightSign(left), right) ==
      if right.None? then m
      else (if left.Some? then m + " " else m) + ("+" + ExtentText(right.value))
  {
    if left.Some? && right.Some? {
      Regroup(" ", "+", ExtentText(right.value));
      Regroup(m, " ", "+" + ExtentText(right.value));
    }
  }

  method PrintLines(os: string, entries: seq<Entry>, left: seq<string>, right: seq<string>) returns (text: string)
    requires Resolvable(entries, left, right)
    ensures text == os + LinesText(Resolve(entries, left, right), 0)
  {
    text := os;
    ghost var lines := Resolve(entries, left, right);
    for k := 0 to |entries|
      invariant text + LinesText(lines, k) == os + LinesText(lines, 0)
    {
      var line := if entries[k].mark == '+' then right[entries[k].index] else left[entries[k].index];
      OneMoreLine(text, lines, k);
      text := text + [entries[k].mark] + CStr(line) + "\n";
    }
    assert text + LinesText(lines, |lines|) == text;
  }

  class Hunk {
    const leftStart: nat
    const rightStart: nat
    var adds: nat
    var removes: nat
    var common: nat
    var hunk: seq<Entry>
    var hunkAdds: seq<Entry>
    var hunkRemoves: seq<Entry>
    /** The lines pushed so far, in order. */
    ghost var log: seq<Entry>

    ghost predicate Valid()
      reads this
    {
      && hunk == Done(log, |log|) && hunkRemoves == Removes(log, |log|) && hunkAdds == Adds(log, |log|)
      && removes == CountMark(log, |log|, '-')
      && adds == CountMark(log, |log|, '+')
      && common == CountMark(log, |log|, ' ')
    }

    constructor (leftStart: nat, rightStart: nat)
      ensures Valid() && log == []
      ensures this.leftStart == leftStart && this.rightStart == rightStart
    {
      this.leftStart := leftStart;
      this.rightStart := rightStart;
      adds, removes, common := 0, 0, 0;
      hunk, hunkAdds, hunkRemoves := [], [], [];
      log := [];
    }

    method PushLine(edit: char, line: nat)
      requires Valid()
      modifies this
      ensures Valid() && log == old(log) + [Entry(edit, line)]
    {
      match edit {
        case ' ' =>
          common := common + 1;
          FlushEdits();
          hunk := hunk + [Entry(' ', line)];
        case '-' =>
          removes := removes + 1;
          hunkRemoves := hunkRemoves + [Entry('-', line)];
        case '+' =>
          adds := adds + 1;
          hunkAdds := hunkAdds + [Entry('+', line)];
        case _ =>
      }
      LogPrefix(log, log + [Entry(edit, line)], |log|);
      log := log + [Entry(edit, line)];
    }

    method FlushEdits()
      modifies this
      ensures hunk == old(hunk) + old(hunkRemoves) + old(hunkAdds) && hunkRemoves == hunkAdds == []
      ensures adds == old(adds) && removes == old(removes) && common == old(common) && log == old(log)
    {
      hunk := hunk + hunkRemoves;
      hunkRemoves := [];
      hunk := hunk + hunkAdds;
      hunkAdds := [];
    }

    /** Writes the header. */
    method PrintHeader(os: string) returns (text: string)
      requires Valid()
      ensures var h := Printed(leftStart, rightStart, log); text == os + HeaderText(h.left, h.right)
    {
      text := os + "@@ ";
      if removes != 0 {
        text := PrintExtent(text, "-", leftStart, removes + common);
      }
      if removes != 0 && adds != 0 {
        text := text + " ";
      }
      if adds != 0 {
        text := PrintExtent(text, "+", rightStart, adds + common);
      }
      text := text + " @@\n";
      ghost var h := Printed(leftStart, rightStart, log);
      Flat(os, "@@ ", SideText("-", h.left), SideText(RightSign(h.left), h.right), " @@\n");
      RightPieces(os + "@@ " + SideText("-", h.left), h.left, h.right);
    }

    /** Writes the header and the lines, where left and right are the lines that the entries refer to. */
    method PrintTo(os: string, left: seq<string>, right: seq<string>) returns (text: string)
      requires Valid() && Resolvable(log, left, right)
      modifies this
      ensures IsPrinted(Printed(leftStart, rightStart, old(log)), left, right, os, text)
      ensures hunk == Printed(leftStart, rightStart, old(log)).entries && hunkRemoves == hunkAdds == []
      ensures adds == old(adds) && removes == old(removes) && common == old(common) && log == old(log)
    {
      text := PrintHeader(os);
      ghost var h := Printed(leftStart, rightStart, log);
      FlushedResolvable(log, |log|, left, right);
      FlushEdits();
      text := PrintLines(text, hunk, left, right);
      Regroup(os, HeaderText(h.left, h.right), LinesText(Resolve(h.entries, left, right), 0));
    }

    predicate HasEdits()
      reads this
    {
      adds != 0 || removes != 0
    }
  }

  // ---------------------------------------------------------------------------
  // Which edits a hunk covers
  // ---------------------------------------------------------------------------

  /** Edits from (inclusive) to (exclusive), with the first and the last change among them. */
  datatype Range = Range(from: nat, first: nat, last: nat, to: nat)

  predicate IsChange(edits: seq<EditType>, k: nat) {
    k < |edits| && edits[k] != Match
  }

  predicate NoChange(edits: seq<EditType>, a: nat, b: nat) {
    forall k | a <= k < b :: !IsChange(edits, k)
  }

  /** The first change at or after edit k, or the end. */
  function NextChange(edits: seq<EditType>, k: nat): (n: nat)
    requires k <= |edits|
    ensures k <= n <= |edits| && NoChange(edits, k, n) && (n < |edits| ==> IsChange(edits, n))
    decreases |edits| - k
  {
    if k == |edits| || IsChange(edits, k) then k else NextChange(edits, k + 1)
  }

  /** The first change after edit m, or the end. */
  function NextAfter(edits: seq<EditType>, m: nat): (n: nat)
    requires m < |edits|
    ensures m < n <= |edits|
  {
    NextChange(edits, m + 1)
  }

  /** The ranges are in order, and none is empty or reaches beyond upTo. */
  ghost predicate Ordered(ranges: seq<Range>, upTo: nat) {
    && (forall h | 0 <= h < |ranges| :: ranges[h].from < ranges[h].to <= upTo)
    && (forall g, h | 0 <= g < h < |ranges| :: ranges[g].to <= ranges[h].from)
  }

  ghost predicate Covered(ranges: seq<Range>, k: nat) {
    exists h :: 0 <= h < |ranges| && ranges[h].from <= k < ranges[h].to
  }

  /** From context edits before the first change of the range to context edits after the last one,
      as far as there are edits. */
  ghost predicate HasMargins(edits: seq<EditType>, context: nat, range: Range) {
    && range.from <= range.first <= range.last < range.to <= |edits|
    && IsChange(edits, range.first) && NoChange(edits, range.from, range.first)
    && IsChange(edits, range.last) && NoChange(edits, range.last + 1, range.to)
    && range.from == (if range.first < context then 0 else range.first - context)
    && range.to == (if range.last + 1 + context < |edits| then range.last + 1 + context else |edits|)
  }

  /** A change in the range and the next change after it are in one range exactly when they are
      at most 2 * context apart. */
  ghost predicate JoinsClose(edits: seq<EditType>, context: nat, range: Range) {
    forall m: nat {:trigger NextAfter(edits, m)} | range.from <= m < range.to && IsChange(edits, m) ::
      NextAfter(edits, m) < |edits| ==> (NextAfter(edits, m) < range.to <==> NextAfter(edits, m) <= m + 2 * context)
  }

  ghost predicate AllClusters(edits: seq<EditType>, context: nat, ranges: seq<Range>) {
    forall h | 0 <= h < |ranges| :: HasMargins(edits, context, ranges[h]) && JoinsClose(edits, context, ranges[h])
  }

  ghost predicate CoversChanges(edits: seq<EditType>, ranges: seq<Range>, k: nat) {
    forall m: nat {:trigger Covered(ranges, m)} | m < k && IsChange(edits, m) :: Covered(ranges, m)
  }

  /** The ranges that the hunks of a unified diff with this context cover. */
  ghost predicate AreHunks(edits: seq<EditType>, context: nat, ranges: seq<Range>) {
    && Ordered(ranges, |edits|)
    && AllClusters(edits, context, ranges)
    && CoversChanges(edits, ranges, |edits|)
  }

  // ---------------------------------------------------------------------------
  // What a hunk prints
  // ---------------------------------------------------------------------------

  /** The lines pushed for one edit that stands at left line i and right line j. */
  function EditLines(e: EditType, i: nat, j: nat): seq<Entry> {
    match e
    case Match => [Entry(' ', i)]
    case Remove => [Entry('-', i)]
    case Add => [Entry('+', j)]
    case Replace => [Entry('-', i), Entry('+', j)]
  }

  /** The lines pushed for edits from, ..., k - 1. */
  function LogOf(edits: seq<EditType>, from: nat, k: nat): seq<Entry>
    requires k <= |edits|
  {
    if k <= from then []
    else LogOf(edits, from, k - 1) + EditLines(edits[k - 1], LeftUsed(edits, k - 1), RightUsed(edits, k - 1))
  }

  function HunkFrom(edits: seq<EditType>, from: nat, to: nat): PrintedHunk
    requires from <= to <= |edits|
  {
    Printed(LeftUsed(edits, from) + 1, RightUsed(edits, from) + 1, LogOf(edits, from, to))
  }

  function HunkOf(edits: seq<EditType>, range: Range): PrintedHunk
    requires range.from <= range.to <= |edits|
  {
    HunkFrom(edits, range.from, range.to)
  }

  /** One printed hunk for each range, in order. */
  ghost predicate AreHunksOf(edits: seq<EditType>, ranges: seq<Range>, hunks: seq<PrintedHunk>) {
    && |hunks| == |ranges|
    && forall h | 0 <= h < |ranges| :: ranges[h].from <= ranges[h].to <= |edits| && hunks[h] == HunkOf(edits, ranges[h])
  }

  lemma {:induction false} LogResolvable<T>(edits: seq<EditType>, left: seq<T>, right: seq<T>, from: nat, k: nat)
    requires from <= k <= |edits| && forall m | 0 <= m < |edits| :: InBounds(edits, |left|, |right|, m)
    ensures Resolvable(LogOf(edits, from, k), left, right)
  {
    if from < k {
      LogResolvable(edits, left, right, from, k - 1);
      assert InBounds(edits, |left|, |right|, k - 1);
    }
  }

  lemma {:induction false} MatchesAdvance(edits: seq<EditType>, a: nat, b: nat)
    requires a <= b <= |edits| && NoChange(edits, a, b)
    ensures LeftUsed(edits, b) == LeftUsed(edits, a) + (b - a)
    ensures RightUsed(edits, b) == RightUsed(edits, a) + (b - a)
  {
    if a < b {
      MatchesAdvance(edits, a, b - 1);
      assert !IsChange(edits, b - 1);
    }
  }

  predicate HasMarks(log: seq<Entry>) {
    CountMark(log, |log|, '-') != 0 || CountMark(log, |log|, '+') != 0
  }

  /** A log has an add or a remove exactly when there is a change among its edits. */
  lemma {:induction false} LogHasMarks(edits: seq<EditType>, from: nat, k: nat)
    requires from <= k <= |edits|
    ensures HasMarks(LogOf(edits, from, k)) <==> !NoChange(edits, from, k)
  {
    if from < k {
      LogHasMarks(edits, from, k - 1);
      HasMarksConcat(LogOf(edits, from, k - 1), edits[k - 1], LeftUsed(edits, k - 1), RightUsed(edits, k - 1));
      assert IsChange(edits, k - 1) <==> edits[k - 1] != Match;
    }
  }

  lemma HasMarksConcat(log: seq<Entry>, e: EditType, i: nat, j: nat)
    ensures HasMarks(log + EditLines(e, i, j)) <==> HasMarks(log) || e != Match
  {
    LogPrefix(log, log + EditLines(e, i, j), |log|);
    if e == Replace {
      assert CountMark(log + EditLines(e, i, j), |log| + 1, '-') > 0;
    }
  }

  lemma {:induction false} NextChangeIs(edits: seq<EditType>, k: nat, n: nat)
    requires k <= n <= |edits| && NoChange(edits, k, n) && (n < |edits| ==> IsChange(edits, n))
    ensures NextChange(edits, k) == n
    decreases n - k
  {
    if k < n {
      assert !IsChange(edits, k);
      NextChangeIs(edits, k + 1, n);
    }
  }

  // ---------------------------------------------------------------------------
  // The builder
  // ---------------------------------------------------------------------------

  /** Edit k has the lines it needs, of nLeft and nRight lines. */
  predicate InBounds(edits: seq<EditType>, nLeft: nat, nRight: nat, k: nat)
    requires k < |edits|
  {
    (edits[k] != Add ==> LeftUsed(edits, k) < nLeft) && (edits[k] != Remove ==> RightUsed(edits, k) < nRight)
  }

  method FindChange(edits: seq<EditType>, k: nat) returns (it: nat)
    requires k <= |edits|
    ensures it == NextChange(edits, k)
  {
    it := k;
    while it != |edits| && edits[it] == Match
      invariant k <= it <= |edits| && NoChange(edits, k, it)
    {
      it := it + 1;
    }
    NextChangeIs(edits, k, it);
  }

  function CommonLines(a: nat, b: nat): seq<Entry> {
    if b <= a then [] else CommonLines(a, b - 1) + [Entry(' ', b - 1)]
  }

  /** Pushes the lines before the first change of a hunk. */
  method PushPrefix(hunk: Hunk, nLeft: nat, i: nat, prefix: nat)
    requires hunk.Valid() && hunk.log == [] && prefix <= i <= nLeft
    modifies hunk
    ensures hunk.Valid() && hunk.log == CommonLines(i - prefix, i)
  {
    var m := prefix;
    while m > 0
      invariant 0 <= m <= prefix && hunk.Valid()
      invariant hunk.log == CommonLines(i - prefix, i - m)
    {
      assert i - m < nLeft;
      hunk.PushLine(' ', i - m);
      m := m - 1;
    }
  }

  /** The log of a run of matches. */
  lemma {:induction false} MatchesLog(edits: seq<EditType>, from: nat, k: nat)
    requires from <= k <= |edits| && NoChange(edits, from, k)
    ensures LogOf(edits, from, k) == CommonLines(LeftUsed(edits, from), LeftUsed(edits, k))
    ensures LeftUsed(edits, k) == LeftUsed(edits, from) + (k - from)
  {
    if from < k {
      assert !IsChange(edits, k - 1);
      MatchesLog(edits, from, k - 1);
    }
  }

  /** Pushes the lines of edit k. */
  method PushEdit(hunk: Hunk, edits: seq<EditType>, nLeft: nat, nRight: nat, i: nat, j: nat, k: nat, ghost from: nat)
    requires from <= k < |edits| && InBounds(edits, nLeft, nRight, k)
    requires i == LeftUsed(edits, k) && j == RightUsed(edits, k)
    requires hunk.Valid() && hunk.log == LogOf(edits, from, k)
    modifies hunk
    ensures hunk.Valid() && hunk.log == LogOf(edits, from, k + 1)
  {
    var edit := edits[k];
    if edit == Match || edit == Remove || edit == Replace {
      assert i < nLeft;
      hunk.PushLine(if edit == Match then ' ' else '-', i);
    }
    if edit == Add || edit == Replace {
      assert j < nRight;
      hunk.PushLine('+', j);
    }
    assert hunk.log == LogOf(edits, from, k) + EditLines(edit, i, j);
  }

  /** How many matches in a row end just before edit k, counting from k0. */
  function Suffix(edits: seq<EditType>, k0: nat, k: nat): (n: nat)
    requires k <= |edits|
    ensures n <= k
  {
    if k <= k0 || edits[k - 1] != Match then 0 else Suffix(edits, k0, k - 1) + 1
  }

  /** The loop that fills a hunk breaks before edit k: there is enough suffix, and the next change,
      if any, is too far away. */
  predicate Stops(edits: seq<EditType>, context: nat, k0: nat, k: nat)
    requires k <= |edits|
  {
    Suffix(edits, k0, k) >= context && (NextChange(edits, k) == |edits| || NextChange(edits, k) - k >= context)
  }

  /** Filling a hunk from k0 on gets as far as k. */
  ghost predicate NeverStops(edits: seq<EditType>, context: nat, k0: nat, k: nat)
    requires k <= |edits|
  {
    forall t | k0 <= t < k :: !Stops(edits, context, k0, t)
  }

  /** The test at the top of the loop that fills a hunk. */
  method EnoughSuffix(edits: seq<EditType>, context: nat, ghost k0: nat, k: nat, suffix: nat) returns (stop: bool)
    requires k <= |edits| && suffix == Suffix(edits, k0, k)
    ensures stop == Stops(edits, context, k0, k)
  {
    stop := false;
    if suffix >= context {
      var it := FindChange(edits, k);
      stop := it == |edits| || it - k >= context;
    }
  }

  /** From the first change on, pushes edits until there is enough suffix or no more edit. */
  method FillHunk(hunk: Hunk, edits: seq<EditType>, nLeft: nat, nRight: nat, context: nat,
                  i0: nat, j0: nat, k0: nat, ghost from: nat)
    returns (i: nat, j: nat, k: nat)
    requires from <= k0 <= |edits| && forall m | 0 <= m < |edits| :: InBounds(edits, nLeft, nRight, m)
    requires i0 == LeftUsed(edits, k0) && j0 == RightUsed(edits, k0)
    requires hunk.Valid() && hunk.log == LogOf(edits, from, k0)
    modifies hunk
    ensures k0 <= k <= |edits| && i == LeftUsed(edits, k) && j == RightUsed(edits, k)
    ensures hunk.Valid() && hunk.log == LogOf(edits, from, k)
    ensures NeverStops(edits, context, k0, k)
    ensures k < |edits| ==> Stops(edits, context, k0, k)
  {
    i, j, k := i0, j0, k0;
    var suffix := 0;
    while k < |edits|
      invariant k0 <= k <= |edits| && i == LeftUsed(edits, k) && j == RightUsed(edits, k)
      invariant hunk.Valid() && hunk.log == LogOf(edits, from, k)
      invariant suffix == Suffix(edits, k0, k)
      invariant NeverStops(edits, context, k0, k)
      decreases |edits| - k
    {
      var stop := EnoughSuffix(edits, context, k0, k, suffix);
      if stop {
        break;
      }
      PushEdit(hunk, edits, nLeft, nRight, i, j, k, from);
      suffix := if edits[k] == Match then suffix + 1 else 0;
      i := i + if edits[k] != Add then 1 else 0;
      j := j + if edits[k] != Remove then 1 else 0;
      k := k + 1;
    }
  }

  /** While a hunk is filled: the last change is behind, and if the loop went on past context edits
      of suffix, that was for a change close by. */
  ghost predicate Filling(edits: seq<EditType>, context: nat, first: nat, last: nat, k: nat)
    requires first <= last < k <= |edits|
  {
    && IsChange(edits, last) && NoChange(edits, last + 1, k)
    && (k > last + 1 + context ==> NextChange(edits, k) < |edits| && NextChange(edits, k) <= last + 2 * context)
    && (forall m: nat {:trigger NextAfter(edits, m)} | first <= m < last && IsChange(edits, m) ::
         NextAfter(edits, m) <= last && NextAfter(edits, m) <= m + 2 * context)
  }

  /** One more edit, pushed because the suffix is short or a change is close. */
  lemma FillingStep(edits: seq<EditType>, context: nat, first: nat, last: nat, k: nat)
    requires context > 0
    requires first <= last < k < |edits| && Filling(edits, context, first, last, k)
    requires k <= last + context || (NextChange(edits, k) < |edits| && NextChange(edits, k) < k + context)
    ensures Filling(edits, context, first, if edits[k] == Match then last else k, k + 1)
  {
    if edits[k] != Match {
      NextChangeIs(edits, last + 1, k);
    }
  }

  lemma {:induction false} FillingAt(edits: seq<EditType>, context: nat, first: nat, k: nat) returns (last: nat)
    requires context > 0 && first < k <= |edits| && IsChange(edits, first)
    requires NeverStops(edits, context, first, k)
    ensures first <= last < k && Suffix(edits, first, k) == k - 1 - last && Filling(edits, context, first, last, k)
  {
    if k == first + 1 {
      last := first;
    } else {
      last := FillingAt(edits, context, first, k - 1);
      assert !Stops(edits, context, first, k - 1);
      FillingStep(edits, context, first, last, k - 1);
      last := if edits[k - 1] == Match then last else k - 1;
    }
  }

  /** The first change of a hunk never stops it, when there is context. */
  lemma FillingStarts(edits: seq<EditType>, context: nat, first: nat, k: nat)
    requires first <= k <= |edits| && (k < |edits| ==> Stops(edits, context, first, k))
    requires context > 0 && IsChange(edits, first)
    ensures first < k
  {
  }

  /** The changes found so far lie in the finished ranges. */
  ghost predicate Finished(edits: seq<EditType>, context: nat, ranges: seq<Range>, k: nat) {
    && k <= |edits|
    && Ordered(ranges, k)
    && AllClusters(edits, context, ranges)
    && CoversChanges(edits, ranges, k)
  }

  /** Where the outer loop can start again: behind enough matches, and well before the next change. */
  ghost predicate AtGap(edits: seq<EditType>, context: nat, k: nat)
    requires k <= |edits|
  {
    0 < k < |edits| ==>
      && context <= k && NoChange(edits, k - context, k)
      && (NextChange(edits, k) == |edits| || NextChange(edits, k) >= k + context)
  }

  /** The edits that one hunk pushes form a range of their own. */
  lemma RangeIsFinished(edits: seq<EditType>, context: nat, from: nat, q: nat, k: nat) returns (range: Range)
    requires context > 0 && from <= q <= k <= |edits|
    requires from == (if q < context then 0 else q - context)
    requires NoChange(edits, from, q) && IsChange(edits, q)
    requires NeverStops(edits, context, q, k)
    requires k < |edits| ==> Stops(edits, context, q, k)
    ensures range.from == from && range.to == k
    ensures HasMargins(edits, context, range) && JoinsClose(edits, context, range)
    ensures AtGap(edits, context, k)
  {
    FillingStarts(edits, context, q, k);
    var last := FillingAt(edits, context, q, k);
    range := Range(from, q, last, k);
    RangeJoins(edits, context, range);
  }

  lemma RangeJoins(edits: seq<EditType>, context: nat, range: Range)
    requires range.from <= range.first <= range.last < range.to <= |edits|
    requires NoChange(edits, range.from, range.first)
    requires Filling(edits, context, range.first, range.last, range.to)
    requires range.to < |edits| ==> range.to >= range.last + 1 + context
    requires range.to < |edits| ==>
      NextChange(edits, range.to) == |edits| || NextChange(edits, range.to) >= range.to + context
    ensures JoinsClose(edits, context, range)
  {
    forall m: nat | range.from <= m < range.to && IsChange(edits, m) && NextAfter(edits, m) < |edits|
      ensures NextAfter(edits, m) < range.to <==> NextAfter(edits, m) <= m + 2 * context
    {
      if m >= range.last {
        NextChangeIs(edits, range.last + 1, NextAfter(edits, m));
        NextChangeIs(edits, range.to, NextAfter(edits, m));
      }
    }
  }

  lemma FinishedSnoc(edits: seq<EditType>, context: nat, ranges: seq<Range>, k: nat, range: Range)
    requires Finished(edits, context, ranges, k)
    requires k <= range.from < range.to <= |edits| && NoChange(edits, k, range.from)
    requires HasMargins(edits, context, range) && JoinsClose(edits, context, range)
    ensures Finished(edits, context, ranges + [range], range.to)
  {
    OrderedSnoc(ranges, k, range);
    assert AllClusters(edits, context, ranges + [range]);
    CoversSnoc(edits, ranges, k, range);
  }

  lemma OrderedSnoc(ranges: seq<Range>, k: nat, range: Range)
    requires Ordered(ranges, k) && k <= range.from < range.to
    ensures Ordered(ranges + [range], range.to)
  {
  }

  lemma CoversSnoc(edits: seq<EditType>, ranges: seq<Range>, k: nat, range: Range)
    requires CoversChanges(edits, ranges, k) && k <= range.from < range.to && NoChange(edits, k, range.from)
    ensures CoversChanges(edits, ranges + [range], range.to)
  {
    forall m: nat | m < range.to && IsChange(edits, m)
      ensures Covered(ranges + [range], m)
    {
      assert m < k ==> Covered(ranges, m);
      CoveredSnoc(ranges, range, m);
    }
  }

  lemma CoveredSnoc(ranges: seq<Range>, range: Range, m: nat)
    requires Covered(ranges, m) || range.from <= m < range.to
    ensures Covered(ranges + [range], m)
  {
    var h :=
      if range.from <= m < range.to then |ranges|
      else (var h :| 0 <= h < |ranges| && ranges[h].from <= m < ranges[h].to; h);
    assert (ranges + [range])[h].from <= m < (ranges + [range])[h].to;
  }

  /** The prefix of a hunk consists of matches not yet in any hunk. */
  lemma PrefixMatches(edits: seq<EditType>, context: nat, k0: nat, k: nat, prefix: nat)
    requires k0 <= k <= |edits| && NoChange(edits, k0, k) && (k < |edits| ==> IsChange(edits, k))
    requires context > 0 ==> AtGap(edits, context, k0)
    requires prefix == if LeftUsed(edits, k) < context then LeftUsed(edits, k) else context
    requires k0 < |edits| && (context == 0 ==> k0 == 0)
    ensures prefix <= k && NoChange(edits, k - prefix, k)
    ensures LeftUsed(edits, k) == LeftUsed(edits, k - prefix) + prefix
    ensures RightUsed(edits, k) == RightUsed(edits, k - prefix) + prefix
    ensures k < |edits| ==> k0 <= k - prefix && prefix == if k < context then k else context
  {
    var start := if k0 == 0 then 0 else k0 - context;
    NextChangeIs(edits, k0, k);
    assert NoChange(edits, start, k);
    MatchesAdvance(edits, start, k);
    MatchesAdvance(edits, k - prefix, k);
  }

  method SkipMatches(edits: seq<EditType>, i0: nat, j0: nat, k0: nat) returns (i: nat, j: nat, k: nat)
    requires k0 <= |edits| && i0 == LeftUsed(edits, k0) && j0 == RightUsed(edits, k0)
    ensures k0 <= k <= |edits| && NoChange(edits, k0, k) && (k < |edits| ==> IsChange(edits, k))
    ensures i == LeftUsed(edits, k) && j == RightUsed(edits, k)
  {
    i, j, k := i0, j0, k0;
    while k < |edits| && edits[k] == Match
      invariant k0 <= k <= |edits| && i == LeftUsed(edits, k) && j == RightUsed(edits, k)
      invariant NoChange(edits, k0, k)
    {
      i, j, k := i + 1, j + 1, k + 1;
    }
  }

  /** A new hunk with the lines before the change at k. */
  method StartHunk(edits: seq<EditType>, nLeft: nat, context: nat, i: nat, j: nat, k: nat, ghost k0: nat)
    returns (hunk: Hunk, ghost from: nat)
    requires k0 <= k <= |edits| && NoChange(edits, k0, k) && (k < |edits| ==> IsChange(edits, k))
    requires i == LeftUsed(edits, k) && j == RightUsed(edits, k) && LeftUsed(edits, |edits|) == nLeft
    requires context > 0 ==> AtGap(edits, context, k0)
    requires k0 < |edits| && (context == 0 ==> k0 == 0)
    ensures fresh(hunk) && hunk.Valid()
    ensures from <= k && NoChange(edits, from, k)
    ensures k < |edits| ==> k0 <= from == if k < context then 0 else k - context
    ensures hunk.log == LogOf(edits, from, k)
    ensures hunk.leftStart == LeftUsed(edits, from) + 1 && hunk.rightStart == RightUsed(edits, from) + 1
  {
    var prefix := if i < context then i else context;
    PrefixMatches(edits, context, k0, k, prefix);
    UsedGrows(edits, k, |edits|);
    MatchesLog(edits, k - prefix, k);
    from := k - prefix;
    hunk := new Hunk(i - prefix + 1, j - prefix + 1);
    PushPrefix(hunk, nLeft, i, prefix);
  }

  /** Skips to the next change and builds the hunk around it, if there is one. */
  method NextHunk(edits: seq<EditType>, left: seq<string>, right: seq<string>, context: nat,
                  i0: nat, j0: nat, k0: nat, os: string)
    returns (i: nat, j: nat, k: nat, found: bool, text: string, ghost range: Range)
    requires k0 < |edits| && i0 == LeftUsed(edits, k0) && j0 == RightUsed(edits, k0)
    requires context > 0 ==> AtGap(edits, context, k0)
    requires context == 0 ==> k0 == 0
    requires LeftUsed(edits, |edits|) == |left| && RightUsed(edits, |edits|) == |right|
    requires forall m | 0 <= m < |edits| :: InBounds(edits, |left|, |right|, m)
    ensures k0 <= k <= |edits| && i == LeftUsed(edits, k) && j == RightUsed(edits, k)
    ensures context == 0 ==> !found
    ensures !found ==> text == os
    ensures !found && context > 0 ==> k == |edits| && NoChange(edits, k0, k)
    ensures found ==>
              && k0 <= range.from < range.to == k && NoChange(edits, k0, range.from)
              && HasMargins(edits, context, range) && JoinsClose(edits, context, range)
              && AtGap(edits, context, k)
              && IsPrinted(HunkOf(edits, range), left, right, os, text)
  {
    i, j, k := SkipMatches(edits, i0, j0, k0);
    var hunk;
    ghost var q, from := k, k;
    hunk, from := StartHunk(edits, |left|, context, i, j, k, k0);
    i, j, k := FillHunk(hunk, edits, |left|, |right|, context, i, j, k, from);
    range := HunkRange(edits, context, k0, from, q, k);
    found, text := FinishHunk(hunk, edits, left, right, from, k, os);
  }

  /** Prints the hunk, if it has changes. */
  method FinishHunk(hunk: Hunk, edits: seq<EditType>, left: seq<string>, right: seq<string>, ghost from: nat,
                    k: nat, os: string) returns (found: bool, text: string)
    requires from <= k <= |edits| && hunk.Valid() && hunk.log == LogOf(edits, from, k)
    requires hunk.leftStart == LeftUsed(edits, from) + 1 && hunk.rightStart == RightUsed(edits, from) + 1
    requires forall m | 0 <= m < |edits| :: InBounds(edits, |left|, |right|, m)
    modifies hunk
    ensures found == HasMarks(LogOf(edits, from, k))
    ensures if found then IsPrinted(HunkFrom(edits, from, k), left, right, os, text) else text == os
  {
    found := hunk.HasEdits();
    text := os;
    if found {
      LogResolvable(edits, left, right, from, k);
      text := hunk.PrintTo(os, left, right);
    }
  }

  /** What the pieces of one round of the outer loop amount to. */
  lemma HunkRange(edits: seq<EditType>, context: nat, k0: nat, from: nat, q: nat, k: nat) returns (range: Range)
    requires k0 <= q <= k <= |edits| && from <= q
    requires NoChange(edits, k0, q) && NoChange(edits, from, q) && (q < |edits| ==> IsChange(edits, q))
    requires q < |edits| ==> k0 <= from == if q < context then 0 else q - context
    requires context == 0 ==> k0 == 0
    requires NeverStops(edits, context, q, k)
    requires k < |edits| ==> Stops(edits, context, q, k)
    ensures HasMarks(LogOf(edits, from, k)) ==>
              && context > 0 && range.from == from && range.to == k && from < k && k0 <= from
              && HasMargins(edits, context, range) && JoinsClose(edits, context, range) && AtGap(edits, context, k)
    ensures !HasMarks(LogOf(edits, from, k)) && context > 0 ==> k == q == |edits|
  {
    LogHasMarks(edits, from, k);
    range := Range(k, k, k, k);
    if q == |edits| {
    } else if context == 0 {
      assert k > q ==> !Stops(edits, context, q, q);
    } else {
      FillingStarts(edits, context, q, k);
      range := RangeIsFinished(edits, context, from, q, k);
    }
  }

  /** The text is that of the hunks of a unified diff with this context. */
  ghost predicate IsDiff(edits: seq<EditType>, context: nat, left: seq<string>, right: seq<string>, text: string) {
    exists ranges, hunks ::
      AreHunks(edits, context, ranges) && AreHunksOf(edits, ranges, hunks) && ArePrinted(hunks, left, right, text)
  }

  method CreateUnifiedDiff(left: seq<string>, right: seq<string>, context: nat)
    returns (ss: string, ghost hunks: seq<PrintedHunk>, ghost ranges: seq<Range>)
    ensures context == 0 ==> hunks == []
    ensures context > 0 ==> AreHunks(Script(left, right), context, ranges)
    ensures context > 0 ==> AreHunksOf(Script(left, right), ranges, hunks)
    ensures ArePrinted(hunks, left, right, ss)
    ensures if context > 0 then IsDiff(Script(left, right), context, left, right, ss) else ss == ""
  {
    var edits := CalculateOptimalEditsOfLines(left, right);
    ScriptIsCorrect(left, right);
    forall m | 0 <= m < |edits| ensures InBounds(edits, |left|, |right|, m) {
      assert EditFits(edits, left, right, m);
    }
    ss, hunks, ranges := BuildHunks(edits, left, right, context);
  }

  /** The hunks built for the first k edits. */
  ghost predicate Built(edits: seq<EditType>, context: nat, ranges: seq<Range>, hunks: seq<PrintedHunk>, k: nat) {
    if context == 0 then hunks == [] && k == 0
    else Finished(edits, context, ranges, k) && AreHunksOf(edits, ranges, hunks)
  }

  lemma BuiltSnoc(edits: seq<EditType>, context: nat, ranges: seq<Range>, hunks: seq<PrintedHunk>, k: nat, range: Range)
    requires context > 0 && Built(edits, context, ranges, hunks, k)
    requires k <= range.from < range.to <= |edits| && NoChange(edits, k, range.from)
    requires HasMargins(edits, context, range) && JoinsClose(edits, context, range)
    ensures Built(edits, context, ranges + [range], hunks + [HunkOf(edits, range)], range.to)
  {
    FinishedSnoc(edits, context, ranges, k, range);
  }

  /** The outer loop of CreateUnifiedDiff. */
  method BuildHunks(edits: seq<EditType>, left: seq<string>, right: seq<string>, context: nat)
    returns (ss: string, ghost hunks: seq<PrintedHunk>, ghost ranges: seq<Range>)
    requires LeftUsed(edits, |edits|) == |left| && RightUsed(edits, |edits|) == |right|
    requires forall m | 0 <= m < |edits| :: InBounds(edits, |left|, |right|, m)
    ensures context == 0 ==> hunks == []
    ensures context > 0 ==> AreHunks(edits, context, ranges) && AreHunksOf(edits, ranges, hunks)
    ensures ArePrinted(hunks, left, right, ss)
  {
    var i, j, k := 0, 0, 0;
    ss, hunks, ranges := "", [], [];
    while k < |edits|
      invariant k <= |edits| && i == LeftUsed(edits, k) && j == RightUsed(edits, k)
      invariant context > 0 ==> AtGap(edits, context, k)
      invariant Built(edits, context, ranges, hunks, k) && ArePrinted(hunks, left, right, ss)
      decreases |edits| - k
    {
      ghost var k0, before := k, ss;
      var found;
      ghost var range;
      i, j, k, found, ss, range := NextHunk(edits, left, right, context, i, j, k, ss);
      if !found {
        break;
      }
      BuiltSnoc(edits, context, ranges, hunks, k0, range);
      PrintedSnoc(hunks, HunkOf(edits, range), left, right, before, ss);
      hunks := hunks + [HunkOf(edits, range)];
      ranges := ranges + [range];
    }
  }
}

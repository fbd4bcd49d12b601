/** A strict reader of unified diffs, and what it makes of the hunks the builder prints. */
module UnifiedPatch {
  import opened Options
  import opened EditScript
  import opened Sequences
  import opened UnifiedText
  import opened UnifiedDiff

  // ---------------------------------------------------------------------------
  // The strict reader
  // ---------------------------------------------------------------------------

  /** The first n lines as they read on one side: '-' names the old side, '+' the new one. */
  function TextUpTo<T>(lines: seq<Line<T>>, n: nat, side: char): seq<T>
    requires n <= |lines|
  {
    if n == 0 then []
    else
      var line := lines[n - 1];
      TextUpTo(lines, n - 1, side) + if line.mark == ' ' || line.mark == side then [line.text] else []
  }

  function OldText<T>(lines: seq<Line<T>>): seq<T> { TextUpTo(lines, |lines|, '-') }

  function NewText<T>(lines: seq<Line<T>>): seq<T> { TextUpTo(lines, |lines|, '+') }

  /** How far a reader has come: lines of left consumed, and the lines written so far. */
  datatype Cursor<T> = Cursor(used: nat, out: seq<T>)

  /** Where the hunk's old text starts; when the header leaves the left side out, the right one tells. */
  function StartOf<T>(c: Cursor<T>, h: TextHunk<T>): int {
    match h.left
    case Some(side) => side.start - 1
    case None => if h.right.Some? then c.used + (h.right.value.start - 1 - |c.out|) else -1
  }

  /** Applies one hunk: copies the lines before it, checks its old text, position and lengths
      against left and the header, and writes its new text. */
  function ApplyHunk<T(==)>(c: Cursor<T>, h: TextHunk<T>, left: seq<T>): Option<Cursor<T>> {
    var old', new' := OldText(h.lines), NewText(h.lines);
    var start := StartOf(c, h);
    if !(c.used <= start && start + |old'| <= |left| && left[start..start + |old'|] == old') then None
    else
      var out := c.out + left[c.used..start];
      if h.left.Some? && h.left.value.length != |old'| then None
      else if h.right.Some? && h.right.value != Extent(|out| + 1, |new'|) then None
      else Some(Cursor(start + |old'|, out + new'))
  }

  function ApplyHunks<T(==)>(hunks: seq<TextHunk<T>>, n: nat, left: seq<T>): Option<Cursor<T>>
    requires n <= |hunks|
  {
    if n == 0 then Some(Cursor(0, []))
    else
      match ApplyHunks(hunks, n - 1, left)
      case None => None
      case Some(c) => ApplyHunk(c, hunks[n - 1], left)
  }

  /** Applies a whole diff and copies what is left over. */
  function Patch<T(==)>(hunks: seq<TextHunk<T>>, left: seq<T>): Option<seq<T>> {
    match ApplyHunks(hunks, |hunks|, left)
    case None => None
    case Some(c) => if c.used <= |left| then Some(c.out + left[c.used..]) else None
  }

  // ---------------------------------------------------------------------------
  // What the entries of a hunk show on each side
  // ---------------------------------------------------------------------------

  /** What one entry shows on a side. */
  function Shows<T>(entry: Entry, side: char, left: seq<T>, right: seq<T>): seq<T> {
    if entry.mark == ' ' || entry.mark == side then At(if entry.mark == '+' then right else left, entry.index) else []
  }

  /** What the first n entries show on a side. */
  function SideUpTo<T>(entries: seq<Entry>, n: nat, side: char, left: seq<T>, right: seq<T>): seq<T>
    requires n <= |entries|
  {
    if n == 0 then [] else SideUpTo(entries, n - 1, side, left, right) + Shows(entries[n - 1], side, left, right)
  }

  function SideOf<T>(entries: seq<Entry>, side: char, left: seq<T>, right: seq<T>): seq<T> {
    SideUpTo(entries, |entries|, side, left, right)
  }

  lemma {:induction false} ResolvedText<T>(entries: seq<Entry>, n: nat, side: char, left: seq<T>, right: seq<T>)
    requires n <= |entries| && Resolvable(entries, left, right)
    ensures TextUpTo(Resolve(entries, left, right), n, side) == SideUpTo(entries, n, side, left, right)
    ensures |SideUpTo(entries, n, side, left, right)| <= n
  {
    if n > 0 {
      ResolvedText(entries, n - 1, side, left, right);
    }
  }

  lemma {:induction false} SidePrefix<T>(a: seq<Entry>, b: seq<Entry>, n: nat, side: char, left: seq<T>, right: seq<T>)
    requires n <= |a| && a <= b
    ensures SideUpTo(b, n, side, left, right) == SideUpTo(a, n, side, left, right)
  {
    if n > 0 {
      SidePrefix(a, b, n - 1, side, left, right);
    }
  }

  lemma {:induction false} SideConcat<T>(a: seq<Entry>, b: seq<Entry>, n: nat, side: char, left: seq<T>, right: seq<T>)
    requires n <= |b|
    ensures SideUpTo(a + b, |a| + n, side, left, right)
      == SideOf(a, side, left, right) + SideUpTo(b, n, side, left, right)
  {
    if n == 0 {
      SidePrefix(a, a + b, |a|, side, left, right);
    } else {
      SideConcat(a, b, n - 1, side, left, right);
    }
  }

  lemma SideSnoc<T>(a: seq<Entry>, entry: Entry, side: char, left: seq<T>, right: seq<T>)
    ensures SideOf(a + [entry], side, left, right) == SideOf(a, side, left, right) + Shows(entry, side, left, right)
  {
    SidePrefix(a, a + [entry], |a|, side, left, right);
  }

  lemma FlushedSide<T>(a: seq<Entry>, b: seq<Entry>, c: seq<Entry>, side: char, left: seq<T>, right: seq<T>)
    ensures SideOf(a + b + c, side, left, right) ==
            SideOf(a, side, left, right) + SideOf(b, side, left, right) + SideOf(c, side, left, right)
  {
    SideConcat(a + b, c, |c|, side, left, right);
    SideConcat(a, b, |b|, side, left, right);
  }

  /** Pending adds show nothing on the old side. */
  lemma {:induction false} AddsShowNothing<T>(log: seq<Entry>, n: nat, left: seq<T>, right: seq<T>)
    requires n <= |log|
    ensures SideOf(Adds(log, n), '-', left, right) == []
  {
    if n > 0 {
      AddsShowNothing(log, n - 1, left, right);
      SideSnoc(Adds(log, n - 1), log[n - 1], '-', left, right);
    }
  }

  /** A remove goes before the pending adds; that moves nothing on either side. */
  lemma FlushedWithRemove<T>(log: seq<Entry>, n: nat, side: char, left: seq<T>, right: seq<T>)
    requires 0 < n <= |log| && log[n - 1].mark == '-' && (side == '-' || side == '+')
    ensures SideOf(Flushed(log, n), side, left, right) ==
            SideOf(Flushed(log, n - 1), side, left, right) + Shows(log[n - 1], side, left, right)
  {
    var done, removes, adds := Done(log, n - 1), Removes(log, n - 1), Adds(log, n - 1);
    AddsShowNothing(log, n - 1, left, right);
    FlushedSide(done, removes, adds, side, left, right);
    FlushedSide(done, removes + [log[n - 1]], adds, side, left, right);
    SideSnoc(removes, log[n - 1], side, left, right);
  }

  /** Every other line goes to the end. */
  lemma FlushedGrows(log: seq<Entry>, n: nat)
    requires 0 < n <= |log| && (log[n - 1].mark == '+' || log[n - 1].mark == ' ')
    ensures Flushed(log, n) == Flushed(log, n - 1) + [log[n - 1]]
  {
  }

  /** Grouping removes before adds changes neither side. */
  lemma {:induction false} GroupKeepsSide<T>(log: seq<Entry>, n: nat, side: char, left: seq<T>, right: seq<T>)
    requires n <= |log| && (side == '-' || side == '+')
    ensures SideOf(Flushed(log, n), side, left, right) == SideUpTo(log, n, side, left, right)
  {
    if n > 0 {
      GroupKeepsSide(log, n - 1, side, left, right);
      var mark := log[n - 1].mark;
      if mark == '-' {
        FlushedWithRemove(log, n, side, left, right);
      } else if mark == '+' || mark == ' ' {
        FlushedGrows(log, n);
        SideSnoc(Flushed(log, n - 1), log[n - 1], side, left, right);
      }
    }
  }

  ghost predicate AllMarked(entries: seq<Entry>, mark: char) {
    forall k | 0 <= k < |entries| :: entries[k].mark == mark
  }

  /** No add is directly followed by a remove. */
  ghost predicate RemovesFirst(entries: seq<Entry>) {
    forall k | 0 <= k < |entries| - 1 :: entries[k].mark == '+' ==> entries[k + 1].mark != '-'
  }

  lemma {:induction false} PendingMarks(log: seq<Entry>, n: nat)
    requires n <= |log|
    ensures AllMarked(Removes(log, n), '-') && AllMarked(Adds(log, n), '+')
  {
    if n > 0 {
      PendingMarks(log, n - 1);
    }
  }

  /** Between two common lines, all removes come before all adds. */
  lemma {:induction false} GroupingPutsRemovesFirst(log: seq<Entry>, n: nat)
    requires n <= |log|
    ensures RemovesFirst(Flushed(log, n)) && RemovesFirst(Done(log, n))
    ensures Done(log, n) != [] ==> Done(log, n)[|Done(log, n)| - 1].mark == ' '
    decreases n
  {
    if n > 0 {
      GroupingPutsRemovesFirst(log, n - 1);
    }
    PendingMarks(log, n);
    FlushKeepsFirst(Done(log, n), Removes(log, n), Adds(log, n));
  }

  lemma FlushKeepsFirst(done: seq<Entry>, removes: seq<Entry>, adds: seq<Entry>)
    requires RemovesFirst(done) && (done != [] ==> done[|done| - 1].mark == ' ')
    requires AllMarked(removes, '-') && AllMarked(adds, '+')
    ensures RemovesFirst(done + removes + adds)
  {
  }

  /** The header leaves a side out exactly when no line is removed, or added. */
  lemma SidesAreShownIfChanged(i: nat, j: nat, log: seq<Entry>)
    ensures Printed(i, j, log).left.Some? <==> exists k :: 0 <= k < |log| && log[k].mark == '-'
    ensures Printed(i, j, log).right.Some? <==> exists k :: 0 <= k < |log| && log[k].mark == '+'
  {
    CountIsZeroIff(log, |log|, '-');
    CountIsZeroIff(log, |log|, '+');
  }

  lemma {:induction false} CountIsZeroIff(log: seq<Entry>, n: nat, mark: char)
    requires n <= |log|
    ensures CountMark(log, n, mark) == 0 <==> forall k | 0 <= k < n :: log[k].mark != mark
  {
    if n > 0 {
      CountIsZeroIff(log, n - 1, mark);
    }
  }

  lemma {:induction false} SideLength<T>(log: seq<Entry>, n: nat, side: char, left: seq<T>, right: seq<T>)
    requires n <= |log| && side != ' ' && Resolvable(log, left, right)
    ensures |SideUpTo(log, n, side, left, right)| == CountMark(log, n, side) + CountMark(log, n, ' ')
  {
    if n > 0 {
      SideLength(log, n - 1, side, left, right);
    }
  }

  // ---------------------------------------------------------------------------
  // What a script's hunks show
  // ---------------------------------------------------------------------------

  /** Edit m has the lines it needs, and a match stands on lines that show the same. */
  predicate LinesFit<T(==)>(edits: seq<EditType>, left: seq<T>, right: seq<T>, m: nat)
    requires m < |edits|
  {
    var i, j := LeftUsed(edits, m), RightUsed(edits, m);
    && (edits[m] != Add ==> i < |left|)
    && (edits[m] != Remove ==> j < |right|)
    && (edits[m] == Match ==> left[i] == right[j])
  }

  ghost predicate Agrees<T>(edits: seq<EditType>, left: seq<T>, right: seq<T>) {
    forall m | 0 <= m < |edits| :: LinesFit(edits, left, right, m)
  }

  lemma AgreesInBounds<T>(edits: seq<EditType>, left: seq<T>, right: seq<T>)
    requires Agrees(edits, left, right)
    ensures forall m | 0 <= m < |edits| :: InBounds(edits, |left|, |right|, m)
  {
    forall m | 0 <= m < |edits| ensures InBounds(edits, |left|, |right|, m) {
      assert LinesFit(edits, left, right, m);
    }
  }

  function Slice<T>(lines: seq<T>, a: nat, b: nat): seq<T> {
    if a <= b <= |lines| then lines[a..b] else []
  }

  lemma SliceGrows<T>(lines: seq<T>, a: nat, b: nat)
    requires a <= b < |lines|
    ensures Slice(lines, a, b + 1) == Slice(lines, a, b) + At(lines, b)
  {
  }

  lemma {:induction false} UsedFits<T>(edits: seq<EditType>, left: seq<T>, right: seq<T>, k: nat)
    requires k <= |edits| && Agrees(edits, left, right)
    ensures LeftUsed(edits, k) <= |left| && RightUsed(edits, k) <= |right|
  {
    if k > 0 {
      UsedFits(edits, left, right, k - 1);
      assert LinesFit(edits, left, right, k - 1);
    }
  }

  /** What the lines of one edit add to a side. */
  lemma EditLinesSide<T>(log: seq<Entry>, e: EditType, i: nat, j: nat, side: char, left: seq<T>, right: seq<T>)
    requires side == '-' || side == '+'
    ensures SideOf(log + EditLines(e, i, j), side, left, right) == SideOf(log, side, left, right) +
              if e == Match then At(left, i)
              else if side == '-' then (if e == Add then [] else At(left, i))
              else (if e == Remove then [] else At(right, j))
  {
    if e == Replace {
      SideSnoc(log, Entry('-', i), side, left, right);
      SideSnoc(log + [Entry('-', i)], Entry('+', j), side, left, right);
      assert log + EditLines(e, i, j) == log + [Entry('-', i)] + [Entry('+', j)];
    } else {
      SideSnoc(log, EditLines(e, i, j)[0], side, left, right);
    }
  }

  /** How far the first k edits get on a side. */
  function UsedOn(side: char, edits: seq<EditType>, k: nat): nat
    requires k <= |edits|
  {
    if side == '-' then LeftUsed(edits, k) else RightUsed(edits, k)
  }

  function LinesOn<T>(side: char, left: seq<T>, right: seq<T>): seq<T> { if side == '-' then left else right }

  /** One side of a log is a slice of the lines there. */
  ghost predicate ShowsSlice<T>(log: seq<Entry>, side: char, a: nat, b: nat, left: seq<T>, right: seq<T>) {
    var lines := LinesOn(side, left, right);
    a <= b <= |lines| && SideOf(log, side, left, right) == Slice(lines, a, b)
  }

  lemma ShowsMore<T>(log: seq<Entry>, e: EditType, side: char, a: nat, i: nat, j: nat, left: seq<T>, right: seq<T>)
    requires side == '-' || side == '+'
    requires ShowsSlice(log, side, a, if side == '-' then i else j, left, right)
    requires (e != Add ==> i < |left|) && (e != Remove ==> j < |right|) && (e == Match ==> left[i] == right[j])
    ensures var b := if side == '-' then (if e == Add then i else i + 1) else (if e == Remove then j else j + 1);
      ShowsSlice(log + EditLines(e, i, j), side, a, b, left, right)
  {
    EditLinesSide(log, e, i, j, side, left, right);
    if side == '-' {
      if e != Add { SliceGrows(left, a, i); }
    } else {
      if e != Remove { SliceGrows(right, a, j); }
    }
  }

  lemma {:induction false} LogShowsSide<T>(edits: seq<EditType>, side: char, left: seq<T>, right: seq<T>,
                                           from: nat, k: nat)
    requires from <= k <= |edits| && Agrees(edits, left, right) && (side == '-' || side == '+')
    ensures ShowsSlice(LogOf(edits, from, k), side, UsedOn(side, edits, from), UsedOn(side, edits, k), left, right)
    decreases k
  {
    if from == k {
      assert LogOf(edits, from, k) == [];
      UsedFits(edits, left, right, k);
    } else {
      LogShowsSide(edits, side, left, right, from, k - 1);
      LogShowsMore(edits, side, left, right, from, k);
    }
  }

  lemma LogShowsMore<T>(edits: seq<EditType>, side: char, left: seq<T>, right: seq<T>, from: nat, k: nat)
    requires from < k <= |edits| && Agrees(edits, left, right) && (side == '-' || side == '+')
    requires ShowsSlice(LogOf(edits, from, k - 1), side, UsedOn(side, edits, from), UsedOn(side, edits, k - 1),
                        left, right)
    ensures ShowsSlice(LogOf(edits, from, k), side, UsedOn(side, edits, from), UsedOn(side, edits, k), left, right)
  {
    assert LinesFit(edits, left, right, k - 1);
    ShowsMore(LogOf(edits, from, k - 1), edits[k - 1], side, UsedOn(side, edits, from),
              LeftUsed(edits, k - 1), RightUsed(edits, k - 1), left, right);
  }

  /** The old side of a log is left[i0..i], the new side right[j0..j]. */
  ghost predicate ShowsSlices<T>(log: seq<Entry>, i0: nat, i: nat, j0: nat, j: nat, left: seq<T>, right: seq<T>) {
    ShowsSlice(log, '-', i0, i, left, right) && ShowsSlice(log, '+', j0, j, left, right)
  }

  lemma LogShows<T>(edits: seq<EditType>, left: seq<T>, right: seq<T>, from: nat, to: nat)
    requires from <= to <= |edits| && Agrees(edits, left, right)
    ensures ShowsSlices(LogOf(edits, from, to), LeftUsed(edits, from), LeftUsed(edits, to),
                        RightUsed(edits, from), RightUsed(edits, to), left, right)
  {
    LogShowsSide(edits, '-', left, right, from, to);
    LogShowsSide(edits, '+', left, right, from, to);
  }

  /** One side of a hunk: its text is lines[i..i'], and so says the header, if it names the side. */
  ghost predicate SaysSide<T>(extent: Option<Extent>, text: seq<T>, lines: seq<T>, i: nat, i': nat) {
    i <= i' <= |lines| && text == Slice(lines, i, i') && (extent == None || extent == Some(Extent(i + 1, i' - i)))
  }

  /** What the header and the lines of a hunk say. */
  ghost predicate Says<T>(h: TextHunk<T>, left: seq<T>, i: nat, i': nat, right: seq<T>, j: nat, j': nat) {
    && SaysSide(h.left, OldText(h.lines), left, i, i')
    && SaysSide(h.right, NewText(h.lines), right, j, j')
    && (h.left.Some? || h.right.Some?)
  }

  /** What a log shows on one side is what its printed hunk shows there. */
  lemma PrintedSide<T>(log: seq<Entry>, side: char, left: seq<T>, right: seq<T>)
    requires (side == '-' || side == '+') && Resolvable(log, left, right)
    ensures Resolvable(Flushed(log, |log|), left, right)
    ensures TextUpTo(Resolve(Flushed(log, |log|), left, right), |Flushed(log, |log|)|, side)
      == SideOf(log, side, left, right)
    ensures |SideOf(log, side, left, right)| == CountMark(log, |log|, side) + CountMark(log, |log|, ' ')
  {
    FlushedResolvable(log, |log|, left, right);
    ResolvedText(Flushed(log, |log|), |Flushed(log, |log|)|, side, left, right);
    GroupKeepsSide(log, |log|, side, left, right);
    SideLength(log, |log|, side, left, right);
  }

  lemma PrintedSays<T>(i: nat, j: nat, log: seq<Entry>, left: seq<T>, i': nat, right: seq<T>, j': nat)
    requires ShowsSlices(log, i, i', j, j', left, right)
    requires HasMarks(log) && Resolvable(log, left, right)
    ensures Resolvable(Printed(i + 1, j + 1, log).entries, left, right)
    ensures Says(Rendered(Printed(i + 1, j + 1, log), left, right), left, i, i', right, j, j')
  {
    FlushedResolvable(log, |log|, left, right);
    var h := Rendered(Printed(i + 1, j + 1, log), left, right);
    assert SaysSide(h.left, OldText(h.lines), left, i, i') by { PrintedSide(log, '-', left, right); }
    assert SaysSide(h.right, NewText(h.lines), right, j, j') by { PrintedSide(log, '+', left, right); }
  }

  lemma LogIsGood<T>(edits: seq<EditType>, left: seq<T>, right: seq<T>, range: Range)
    requires Agrees(edits, left, right)
    requires range.from <= range.first < range.to <= |edits| && IsChange(edits, range.first)
    ensures var log := LogOf(edits, range.from, range.to);
      && Resolvable(log, left, right) && HasMarks(log)
      && ShowsSlices(log, LeftUsed(edits, range.from), LeftUsed(edits, range.to),
                     RightUsed(edits, range.from), RightUsed(edits, range.to), left, right)
  {
    AgreesInBounds(edits, left, right);
    LogResolvable(edits, left, right, range.from, range.to);
    LogShows(edits, left, right, range.from, range.to);
    LogHasMarks(edits, range.from, range.to);
  }

  lemma HunkSays<T>(edits: seq<EditType>, left: seq<T>, right: seq<T>, range: Range)
    requires Agrees(edits, left, right)
    requires range.from <= range.first < range.to <= |edits| && IsChange(edits, range.first)
    ensures Resolvable(HunkOf(edits, range).entries, left, right)
    ensures Says(Rendered(HunkOf(edits, range), left, right),
                 left, LeftUsed(edits, range.from), LeftUsed(edits, range.to),
                 right, RightUsed(edits, range.from), RightUsed(edits, range.to))
  {
    var i, j, log := LeftUsed(edits, range.from), RightUsed(edits, range.from), LogOf(edits, range.from, range.to);
    LogIsGood(edits, left, right, range);
    PrintedSays(i, j, log, left, LeftUsed(edits, range.to), right, RightUsed(edits, range.to));
  }

  /** Between hunks the two sides show the same. */
  lemma {:induction false} MatchesShowTheSame<T>(edits: seq<EditType>, left: seq<T>, right: seq<T>, a: nat, b: nat)
    requires a <= b <= |edits| && NoChange(edits, a, b) && Agrees(edits, left, right)
    ensures Slice(left, LeftUsed(edits, a), LeftUsed(edits, b))
      == Slice(right, RightUsed(edits, a), RightUsed(edits, b))
  {
    UsedFits(edits, left, right, a);
    if a < b {
      MatchesShowTheSame(edits, left, right, a, b - 1);
      UsedGrows(edits, a, b - 1);
      assert LinesFit(edits, left, right, b - 1) && !IsChange(edits, b - 1);
      BothGrow(left, LeftUsed(edits, a), LeftUsed(edits, b - 1), right, RightUsed(edits, a), RightUsed(edits, b - 1));
    }
  }

  lemma BothGrow<T>(left: seq<T>, a: nat, i: nat, right: seq<T>, c: nat, j: nat)
    requires a <= i < |left| && c <= j < |right| && left[i] == right[j] && Slice(left, a, i) == Slice(right, c, j)
    ensures Slice(left, a, i + 1) == Slice(right, c, j + 1)
  {
    SliceGrows(left, a, i);
    SliceGrows(right, c, j);
  }

  // ---------------------------------------------------------------------------
  // The round trip
  // ---------------------------------------------------------------------------

  /** The reader's cursor once it has read everything before edit k. */
  function CursorAt<T>(edits: seq<EditType>, right: seq<T>, k: nat): Cursor<T>
    requires k <= |edits|
  {
    Cursor(LeftUsed(edits, k), Slice(right, 0, RightUsed(edits, k)))
  }

  /** Applying a hunk that says what it should, when the text in between is the same on both sides. */
  lemma ApplyGoodHunk<T>(c: Cursor<T>, h: TextHunk<T>, left: seq<T>, i: nat, i': nat, right: seq<T>, j0: nat, j: nat,
                         j': nat)
    requires Says(h, left, i, i', right, j, j')
    requires c.used <= i && j0 <= j && c.out == Slice(right, 0, j0)
    requires Slice(left, c.used, i) == Slice(right, j0, j)
    ensures ApplyHunk(c, h, left) == Some(Cursor(i', Slice(right, 0, j')))
  {
    assert Slice(right, 0, j) == Slice(right, 0, j0) + Slice(right, j0, j);
    assert Slice(right, 0, j') == Slice(right, 0, j) + Slice(right, j, j');
  }

  /** The strict reader takes each hunk, from wherever the one before it ended. */
  lemma ApplyOneHunk<T>(edits: seq<EditType>, left: seq<T>, right: seq<T>, p: nat, range: Range)
    requires Agrees(edits, left, right)
    requires p <= range.from <= range.first < range.to <= |edits|
    requires NoChange(edits, p, range.from) && IsChange(edits, range.first)
    ensures Resolvable(HunkOf(edits, range).entries, left, right)
    ensures ApplyHunk(CursorAt(edits, right, p), Rendered(HunkOf(edits, range), left, right), left) ==
            Some(CursorAt(edits, right, range.to))
  {
    UsedGrows(edits, p, range.from);
    MatchesShowTheSame(edits, left, right, p, range.from);
    HunkSays(edits, left, right, range);
    ApplyGoodHunk(CursorAt(edits, right, p), Rendered(HunkOf(edits, range), left, right),
                  left, LeftUsed(edits, range.from), LeftUsed(edits, range.to),
                  right, RightUsed(edits, p), RightUsed(edits, range.from), RightUsed(edits, range.to));
  }

  /** Where the gap before range n starts and ends. */
  function Start(ranges: seq<Range>, n: nat): nat
    requires n <= |ranges|
  {
    if n == 0 then 0 else ranges[n - 1].to
  }

  function End(edits: seq<EditType>, ranges: seq<Range>, n: nat): nat
    requires n <= |ranges|
  {
    if n < |ranges| then ranges[n].from else |edits|
  }

  /** Outside the ranges there is no change. */
  lemma GapHasNoChange(edits: seq<EditType>, context: nat, ranges: seq<Range>, n: nat)
    requires AreHunks(edits, context, ranges) && n <= |ranges|
    ensures Start(ranges, n) <= End(edits, ranges, n) <= |edits|
    ensures NoChange(edits, Start(ranges, n), End(edits, ranges, n))
  {
    forall m: nat | Start(ranges, n) <= m < End(edits, ranges, n)
      ensures !IsChange(edits, m)
    {
      NotCovered(edits, ranges, n, m);
    }
  }

  lemma NotCovered(edits: seq<EditType>, ranges: seq<Range>, n: nat, m: nat)
    requires Ordered(ranges, |edits|) && n <= |ranges| && Start(ranges, n) <= m < End(edits, ranges, n)
    ensures !Covered(ranges, m)
  {
    forall h | 0 <= h < |ranges|
      ensures !(ranges[h].from <= m < ranges[h].to)
    {
      if h < n {
        assert h < n - 1 ==> ranges[h].to <= ranges[n - 1].from;
      } else {
        assert h > n ==> ranges[n].to <= ranges[h].from;
      }
    }
  }

  /** From the end of one range to the end of the next. */
  lemma ApplyRange<T>(edits: seq<EditType>, left: seq<T>, right: seq<T>, context: nat, ranges: seq<Range>, n: nat)
    requires Agrees(edits, left, right) && AreHunks(edits, context, ranges) && n < |ranges|
    ensures Start(ranges, n) <= |edits| && ranges[n].from <= ranges[n].to <= |edits|
    ensures Resolvable(HunkOf(edits, ranges[n]).entries, left, right)
    ensures ApplyHunk(CursorAt(edits, right, Start(ranges, n)),
                      Rendered(HunkOf(edits, ranges[n]), left, right), left) ==
            Some(CursorAt(edits, right, Start(ranges, n + 1)))
  {
    GapHasNoChange(edits, context, ranges, n);
    ApplyOneHunk(edits, left, right, Start(ranges, n), ranges[n]);
  }

  /** A reader that each hunk takes from one cursor to the next. */
  lemma {:induction false} ApplyChain<T>(text: seq<TextHunk<T>>, left: seq<T>, cursors: seq<Cursor<T>>, n: nat)
    requires n <= |text| < |cursors| && cursors[0] == Cursor(0, [])
    requires forall h | 0 <= h < |text| :: ApplyHunk(cursors[h], text[h], left) == Some(cursors[h + 1])
    ensures ApplyHunks(text, n, left) == Some(cursors[n])
  {
    if n > 0 {
      ApplyChain(text, left, cursors, n - 1);
    }
  }

  lemma PatchRest<T>(edits: seq<EditType>, left: seq<T>, right: seq<T>, p: nat)
    requires Agrees(edits, left, right) && p <= |edits| && NoChange(edits, p, |edits|)
    requires LeftUsed(edits, |edits|) == |left| && RightUsed(edits, |edits|) == |right|
    ensures LeftUsed(edits, p) <= |left| && Slice(right, 0, RightUsed(edits, p)) + left[LeftUsed(edits, p)..] == right
  {
    MatchesShowTheSame(edits, left, right, p, |edits|);
    UsedGrows(edits, p, |edits|);
    assert left[LeftUsed(edits, p)..] == Slice(left, LeftUsed(edits, p), |left|);
  }

  lemma AllResolvable<T>(edits: seq<EditType>, left: seq<T>, right: seq<T>, context: nat,
                         ranges: seq<Range>, hunks: seq<PrintedHunk>)
    requires Agrees(edits, left, right) && AreHunks(edits, context, ranges) && AreHunksOf(edits, ranges, hunks)
    ensures forall h | 0 <= h < |hunks| :: Resolvable(hunks[h].entries, left, right)
    ensures forall n | 0 <= n <= |ranges| :: Start(ranges, n) <= |edits|
  {
    forall h | 0 <= h < |hunks| ensures Resolvable(hunks[h].entries, left, right) {
      ApplyRange(edits, left, right, context, ranges, h);
    }
  }

  /** The reader's cursors between the hunks. */
  ghost function Cursors<T>(edits: seq<EditType>, right: seq<T>, ranges: seq<Range>): (cursors: seq<Cursor<T>>)
    requires forall n | 0 <= n <= |ranges| :: Start(ranges, n) <= |edits|
    ensures |cursors| == |ranges| + 1
    ensures forall n | 0 <= n <= |ranges| :: cursors[n] == CursorAt(edits, right, Start(ranges, n))
  {
    seq(|ranges| + 1, n requires 0 <= n <= |ranges| => CursorAt(edits, right, Start(ranges, n)))
  }

  /** The reader's cursor after all the hunks. */
  lemma ApplyAll<T>(edits: seq<EditType>, left: seq<T>, right: seq<T>, context: nat,
                    ranges: seq<Range>, hunks: seq<PrintedHunk>, text: seq<TextHunk<T>>)
    requires Agrees(edits, left, right) && AreHunks(edits, context, ranges) && AreHunksOf(edits, ranges, hunks)
    requires forall h | 0 <= h < |hunks| :: Resolvable(hunks[h].entries, left, right)
    requires forall n | 0 <= n <= |ranges| :: Start(ranges, n) <= |edits|
    requires text == Render(hunks, left, right)
    ensures ApplyHunks(text, |text|, left) == Some(CursorAt(edits, right, Start(ranges, |ranges|)))
  {
    var cursors := Cursors(edits, right, ranges);
    forall h | 0 <= h < |text| ensures ApplyHunk(cursors[h], text[h], left) == Some(cursors[h + 1]) {
      ApplyRange(edits, left, right, context, ranges, h);
    }
    ApplyChain(text, left, cursors, |text|);
  }

  /** The strict reader turns left into right from the hunks of a script that agrees with both. */
  lemma PatchHunks<T>(edits: seq<EditType>, left: seq<T>, right: seq<T>, context: nat,
                      ranges: seq<Range>, hunks: seq<PrintedHunk>)
    requires Agrees(edits, left, right) && AreHunks(edits, context, ranges) && AreHunksOf(edits, ranges, hunks)
    requires LeftUsed(edits, |edits|) == |left| && RightUsed(edits, |edits|) == |right|
    ensures forall h | 0 <= h < |hunks| :: Resolvable(hunks[h].entries, left, right)
    ensures Patch(Render(hunks, left, right), left) == Some(right)
  {
    AllResolvable(edits, left, right, context, ranges, hunks);
    ApplyAll(edits, left, right, context, ranges, hunks, Render(hunks, left, right));
    GapHasNoChange(edits, context, ranges, |ranges|);
    PatchRest(edits, left, right, Start(ranges, |ranges|));
  }

  // ---------------------------------------------------------------------------
  // Which lines a diff shows
  // ---------------------------------------------------------------------------

  /** Some change lies within context edits of edit k. */
  ghost predicate Near(edits: seq<EditType>, context: nat, k: nat) {
    exists m: nat :: IsChange(edits, m) && m <= k + context && k <= m + context
  }

  lemma NearIsCovered(edits: seq<EditType>, context: nat, ranges: seq<Range>, k: nat, m: nat)
    requires AreHunks(edits, context, ranges) && k < |edits|
    requires IsChange(edits, m) && m <= k + context && k <= m + context
    ensures Covered(ranges, k)
  {
    assert Covered(ranges, m);
    var h :| 0 <= h < |ranges| && ranges[h].from <= m < ranges[h].to;
    ChangeBetween(edits, context, ranges[h], m);
    assert ranges[h].from <= k < ranges[h].to;
  }

  /** The hunks show exactly the edits near a change. */
  lemma HunksShowWhatIsNear(edits: seq<EditType>, context: nat, ranges: seq<Range>, k: nat)
    requires AreHunks(edits, context, ranges) && k < |edits|
    ensures Covered(ranges, k) <==> Near(edits, context, k)
  {
    if Near(edits, context, k) {
      var m: nat :| IsChange(edits, m) && m <= k + context && k <= m + context;
      NearIsCovered(edits, context, ranges, k, m);
    }
    if Covered(ranges, k) {
      var h :| 0 <= h < |ranges| && ranges[h].from <= k < ranges[h].to;
      NearInRange(edits, context, ranges[h], k);
    }
  }

  lemma ChangeBetween(edits: seq<EditType>, context: nat, range: Range, m: nat)
    requires HasMargins(edits, context, range) && range.from <= m < range.to && IsChange(edits, m)
    ensures range.first <= m <= range.last
  {
  }

  function LastChangeUpTo(edits: seq<EditType>, from: nat, k: nat): (m: nat)
    requires from <= k && IsChange(edits, from)
    ensures from <= m <= k && IsChange(edits, m) && NoChange(edits, m + 1, k + 1)
    decreases k
  {
    if IsChange(edits, k) then k else LastChangeUpTo(edits, from, k - 1)
  }

  lemma NearInRange(edits: seq<EditType>, context: nat, range: Range, k: nat)
    requires HasMargins(edits, context, range) && JoinsClose(edits, context, range)
    requires range.from <= k < range.to
    ensures Near(edits, context, k)
  {
    if range.first <= k <= range.last {
      var m := LastChangeUpTo(edits, range.first, k);
      if m != k {
        var n := NextChange(edits, k);
        assert IsChange(edits, range.last) && n <= range.last;
        NextChangeIs(edits, m + 1, n);
        assert NextAfter(edits, m) == n;
      }
    }
  }

  // ---------------------------------------------------------------------------
  // There is one diff
  // ---------------------------------------------------------------------------

  /** The first change decides where a hunk begins and ends. */
  lemma SameRange(edits: seq<EditType>, context: nat, a: Range, b: Range)
    requires HasMargins(edits, context, a) && JoinsClose(edits, context, a)
    requires HasMargins(edits, context, b) && JoinsClose(edits, context, b)
    requires a.first == b.first
    ensures a == b
  {
    if a.last < b.last {
      EndsLater(edits, context, a, b);
    } else if b.last < a.last {
      EndsLater(edits, context, b, a);
    }
  }

  lemma EndsLater(edits: seq<EditType>, context: nat, a: Range, b: Range)
    requires HasMargins(edits, context, a) && JoinsClose(edits, context, a)
    requires HasMargins(edits, context, b) && JoinsClose(edits, context, b)
    requires a.first == b.first
    ensures a.last >= b.last
  {
    var m := NextAfter(edits, a.last);
    assert a.last < b.last ==> m <= b.last;
  }

  lemma StartsBefore(edits: seq<EditType>, context: nat, ranges: seq<Range>, h: nat)
    requires AreHunks(edits, context, ranges) && h < |ranges|
    ensures Start(ranges, h) <= ranges[h].from <= ranges[h].first < |edits| && IsChange(edits, ranges[h].first)
  {
    assert h > 0 ==> ranges[h - 1].to <= ranges[h].from;
  }

  /** A change up to the first one of a hunk, and after the hunk before it, is in no other hunk. */
  lemma InNoOther(edits: seq<EditType>, context: nat, ranges: seq<Range>, h: nat, g: nat, m: nat)
    requires AreHunks(edits, context, ranges) && h < |ranges| && Start(ranges, h) <= m <= ranges[h].first
    requires g < |ranges| && ranges[g].from <= m < ranges[g].to
    ensures g == h
  {
  }

  /** The first change of a hunk is the first one after the hunk before it. */
  lemma FirstIsNext(edits: seq<EditType>, context: nat, ranges: seq<Range>, h: nat)
    requires AreHunks(edits, context, ranges) && h < |ranges|
    ensures Start(ranges, h) <= |edits| && ranges[h].first == NextChange(edits, Start(ranges, h))
  {
    StartsBefore(edits, context, ranges, h);
    var m := NextChange(edits, Start(ranges, h));
    assert m <= ranges[h].first && IsChange(edits, m);
    assert Covered(ranges, m);
    var g: nat :| g < |ranges| && ranges[g].from <= m < ranges[g].to;
    InNoOther(edits, context, ranges, h, g, m);
  }

  lemma {:induction false} SameRanges(edits: seq<EditType>, context: nat, a: seq<Range>, b: seq<Range>, n: nat)
    requires AreHunks(edits, context, a) && AreHunks(edits, context, b) && n <= |a| && n <= |b|
    ensures forall h | 0 <= h < n :: a[h] == b[h]
  {
    if n > 0 {
      SameRanges(edits, context, a, b, n - 1);
      SameNext(edits, context, a, b, n - 1);
    }
  }

  lemma SameNext(edits: seq<EditType>, context: nat, a: seq<Range>, b: seq<Range>, h: nat)
    requires AreHunks(edits, context, a) && AreHunks(edits, context, b) && h < |a| && h < |b|
    requires h > 0 ==> a[h - 1] == b[h - 1]
    ensures a[h] == b[h]
  {
    FirstIsNext(edits, context, a, h);
    FirstIsNext(edits, context, b, h);
    SameRange(edits, context, a[h], b[h]);
  }

  lemma NextIsMissing(edits: seq<EditType>, context: nat, a: seq<Range>, b: seq<Range>)
    requires AreHunks(edits, context, b) && |a| < |b| && forall h | 0 <= h < |a| :: a[h] == b[h]
    ensures IsChange(edits, b[|a|].first) && !Covered(a, b[|a|].first)
  {
  }

  lemma NoFewer(edits: seq<EditType>, context: nat, a: seq<Range>, b: seq<Range>)
    requires AreHunks(edits, context, a) && AreHunks(edits, context, b)
    ensures |b| <= |a|
  {
    if |a| < |b| {
      SameRanges(edits, context, a, b, |a|);
      NextIsMissing(edits, context, a, b);
    }
  }

  /** An edit script has one series of hunks. */
  lemma HunksAreUnique(edits: seq<EditType>, context: nat, a: seq<Range>, b: seq<Range>)
    requires AreHunks(edits, context, a) && AreHunks(edits, context, b)
    ensures a == b
  {
    NoFewer(edits, context, a, b);
    NoFewer(edits, context, b, a);
    SameRanges(edits, context, a, b, |a|);
  }

  /** And one text: what a unified diff is leaves nothing open. */
  lemma DiffIsUnique(edits: seq<EditType>, context: nat, left: seq<string>, right: seq<string>, s: string, t: string)
    requires IsDiff(edits, context, left, right, s) && IsDiff(edits, context, left, right, t)
    ensures s == t
  {
    var a, x :| AreHunks(edits, context, a) && AreHunksOf(edits, a, x) && ArePrinted(x, left, right, s);
    var b, y :| AreHunks(edits, context, b) && AreHunksOf(edits, b, y) && ArePrinted(y, left, right, t);
    HunksAreUnique(edits, context, a, b);
    assert x == y;
  }
}

/** The characters of a unified diff, and a strict reader of them. */
module UnifiedText {
  import opened Options

  /** One side of a hunk header. */
  datatype Extent = Extent(start: nat, length: nat)

  /** A printed line. */
  datatype Line<T> = Line(mark: char, text: T)

  /** A printed hunk: the header, with the sides it leaves out, and the lines. */
  datatype TextHunk<T> = TextHunk(left: Option<Extent>, right: Option<Extent>, lines: seq<Line<T>>)

  // ---------------------------------------------------------------------------
  // The text
  // ---------------------------------------------------------------------------

  function Digit(d: nat): char
    requires d < 10
  {
    '0' + d as char
  }

  /** A number as an output stream writes it. */
  function Decimal(n: nat): string {
    if n < 10 then [Digit(n)] else Decimal(n / 10) + [Digit(n % 10)]
  }

  function ExtentText(e: Extent): string { Decimal(e.start) + ("," + Decimal(e.length)) }

  function SideText(sign: string, side: Option<Extent>): string {
    if side.Some? then sign + ExtentText(side.value) else ""
  }

  /** The right side is set off from the left one, if that is there. */
  function RightSign(left: Option<Extent>): string { if left.Some? then " +" else "+" }

  const OPENING := "@@ "
  const CLOSING := " @@\n"

  function HeaderText(left: Option<Extent>, right: Option<Extent>): string {
    OPENING + (SideText("-", left) + (SideText(RightSign(left), right) + CLOSING))
  }

  /** What a stream writes of a line that is passed as a C string: it ends at the first NUL. */
  function CStr(s: string): string {
    if s == [] || s[0] == '\0' then [] else [s[0]] + CStr(s[1..])
  }

  /** That is all of the line up to its first NUL, or all of it. */
  lemma {:induction false} CStrIsUpToNul(s: string)
    ensures CStr(s) <= s && '\0' !in CStr(s)
    ensures CStr(s) == s || s[|CStr(s)|] == '\0'
    ensures CStr(s) == s <==> '\0' !in s
  {
    if s != [] && s[0] != '\0' {
      CStrIsUpToNul(s[1..]);
    }
  }

  function LineText(line: Line<string>): string { [line.mark] + (CStr(line.text) + "\n") }

  /** The lines from number k on. */
  function LinesText(lines: seq<Line<string>>, k: nat): string
    requires k <= |lines|
    decreases |lines| - k
  {
    if k == |lines| then "" else LineText(lines[k]) + LinesText(lines, k + 1)
  }

  function HunkText(h: TextHunk<string>): string { HeaderText(h.left, h.right) + LinesText(h.lines, 0) }

  /** The hunks from number k on. */
  function DiffText(hunks: seq<TextHunk<string>>, k: nat): string
    requires k <= |hunks|
    decreases |hunks| - k
  {
    if k == |hunks| then "" else HunkText(hunks[k]) + DiffText(hunks, k + 1)
  }

  lemma Regroup(a: string, b: string, c: string)
    ensures a + b + c == a + (b + c)
  {
  }

  lemma {:induction false} DiffTextSnoc(hunks: seq<TextHunk<string>>, h: TextHunk<string>, k: nat)
    requires k <= |hunks|
    ensures DiffText(hunks + [h], k) == DiffText(hunks, k) + HunkText(h)
    decreases |hunks| - k
  {
    if k < |hunks| {
      DiffTextSnoc(hunks, h, k + 1);
      Regroup(HunkText(hunks[k]), DiffText(hunks, k + 1), HunkText(h));
    } else {
      assert DiffText(hunks + [h], k + 1) == "";
    }
  }

  // ---------------------------------------------------------------------------
  // The reader
  // ---------------------------------------------------------------------------

  /** What was read, and what is left to read. */
  datatype Reading<T> = Failed | Reading(value: T, rest: string)

  /** What follows w, if the text starts with it. */
  function Behind(text: string, w: string): Option<string> {
    if w <= text then Some(text[|w|..]) else None
  }

  /** One item after the other, up to the end. */
  function Many<T>(item: string -> Reading<T>, ends: string -> bool, text: string): Reading<seq<T>>
    decreases |text|
  {
    if ends(text) then Reading([], text)
    else
      var first := item(text);
      if first.Failed? || |first.rest| >= |text| then Failed
      else
        var more := Many(item, ends, first.rest);
        if more.Failed? then Failed else Reading([first.value] + more.value, more.rest)
  }

  predicate IsDigit(c: char) { '0' <= c <= '9' }

  /** How far the digits go. */
  function DigitsEnd(text: string, i: nat): (j: nat)
    requires i <= |text|
    ensures i <= j <= |text| && forall k | i <= k < j :: IsDigit(text[k])
    decreases |text| - i
  {
    if i < |text| && IsDigit(text[i]) then DigitsEnd(text, i + 1) else i
  }

  /** The value of the first n digits. */
  function Value(text: string, n: nat): nat
    requires n <= |text| && forall k | 0 <= k < n :: IsDigit(text[k])
  {
    if n == 0 then 0
    else
      assert IsDigit(text[n - 1]);
      10 * Value(text, n - 1) + (text[n - 1] - '0') as nat
  }

  function ReadNumber(text: string): (r: Reading<nat>)
    ensures r.Reading? ==> |r.rest| < |text|
  {
    var n := DigitsEnd(text, 0);
    if n == 0 then Failed else Reading(Value(text, n), text[n..])
  }

  function ReadExtent(text: string): (r: Reading<Extent>)
    ensures r.Reading? ==> |r.rest| < |text|
  {
    var start := ReadNumber(text);
    if start.Failed? then Failed
    else
      var behind := Behind(start.rest, ",");
      if behind.None? then Failed
      else
        var length := ReadNumber(behind.value);
        if length.Failed? then Failed else Reading(Extent(start.value, length.value), length.rest)
  }

  function ReadSide(text: string, sign: string): (r: Reading<Option<Extent>>)
    ensures r.Reading? ==> |r.rest| <= |text|
  {
    var behind := Behind(text, sign);
    if behind.None? then Reading(None, text)
    else
      var e := ReadExtent(behind.value);
      if e.Failed? then Failed else Reading(Some(e.value), e.rest)
  }

  /** A header, as a hunk without lines. */
  function ReadHeader(text: string): (r: Reading<TextHunk<string>>)
    ensures r.Reading? ==> |r.rest| < |text|
  {
    var sides := Behind(text, "@@ ");
    if sides.None? then Failed
    else
      var left := ReadSide(sides.value, "-");
      if left.Failed? then Failed
      else
        var right := ReadSide(left.rest, if left.value.Some? then " +" else "+");
        if right.Failed? then Failed
        else
          var closed := Behind(right.rest, " @@\n");
          if closed.None? then Failed else Reading(TextHunk(left.value, right.value, []), closed.value)
  }

  predicate IsMark(c: char) { c == ' ' || c == '-' || c == '+' }

  /** Where the line ends that goes on at i. */
  function LineFeed(text: string, i: nat): (j: nat)
    requires i <= |text|
    ensures i <= j <= |text| && (forall k | i <= k < j :: text[k] != '\n') && (j < |text| ==> text[j] == '\n')
    decreases |text| - i
  {
    if i == |text| || text[i] == '\n' then i else LineFeed(text, i + 1)
  }

  function ReadLine(text: string): Reading<Line<string>> {
    if text == "" || !IsMark(text[0]) then Failed
    else
      var j := LineFeed(text, 1);
      if j == |text| then Failed else Reading(Line(text[0], text[1..j]), text[j + 1..])
  }

  /** The lines go on up to the next header or the end. */
  predicate EndsLines(text: string) { text == "" || text[0] == '@' }

  function ReadHunk(text: string): Reading<TextHunk<string>> {
    var header := ReadHeader(text);
    if header.Failed? then Failed
    else
      var lines := Many(ReadLine, EndsLines, header.rest);
      if lines.Failed? then Failed else Reading(header.value.(lines := lines.value), lines.rest)
  }

  predicate EndsDiff(text: string) { text == "" }

  /** All hunks of a diff. */
  function ReadDiff(text: string): Reading<seq<TextHunk<string>>> { Many(ReadHunk, EndsDiff, text) }

  // ---------------------------------------------------------------------------
  // The header is read back
  // ---------------------------------------------------------------------------

  lemma BehindIs(w: string, rest: string)
    ensures Behind(w + rest, w) == Some(rest)
  {
    assert (w + rest)[|w|..] == rest;
  }

  lemma {:induction false} DecimalIsValue(n: nat, text: string)
    requires Decimal(n) <= text
    ensures forall k | 0 <= k < |Decimal(n)| :: IsDigit(text[k])
    ensures |Decimal(n)| > 0 && Value(text, |Decimal(n)|) == n
  {
    var t := Decimal(n);
    assert text[|t| - 1] == t[|t| - 1] == Digit(n % 10);
    if n >= 10 {
      assert Decimal(n / 10) <= t;
      DecimalIsValue(n / 10, text);
    } else {
      assert Value(text, 0) == 0;
    }
  }

  lemma {:induction false} DigitsEndIs(text: string, i: nat, j: nat)
    requires i <= j <= |text| && (forall k | i <= k < j :: IsDigit(text[k])) && (j < |text| ==> !IsDigit(text[j]))
    ensures DigitsEnd(text, i) == j
    decreases j - i
  {
    if i < j {
      DigitsEndIs(text, i + 1, j);
    }
  }

  predicate StartsWithoutDigit(text: string) { text != "" ==> !IsDigit(text[0]) }

  lemma NumberIsRead(n: nat, rest: string)
    requires StartsWithoutDigit(rest)
    ensures ReadNumber(Decimal(n) + rest) == Reading(n, rest)
  {
    var text := Decimal(n) + rest;
    DecimalIsValue(n, text);
    DigitsEndIs(text, 0, |Decimal(n)|);
    assert text[|Decimal(n)|..] == rest;
  }

  lemma ExtentIsRead(e: Extent, rest: string)
    requires StartsWithoutDigit(rest)
    ensures ReadExtent(ExtentText(e) + rest) == Reading(e, rest)
  {
    var start, length := Decimal(e.start), Decimal(e.length);
    Regroup(start, "," + length, rest);
    Regroup(",", length, rest);
    NumberIsRead(e.start, "," + (length + rest));
    BehindIs(",", length + rest);
    NumberIsRead(e.length, rest);
  }

  lemma SideIsRead(sign: string, side: Option<Extent>, rest: string)
    requires StartsWithoutDigit(rest) && (side.None? ==> !(sign <= rest))
    ensures ReadSide(SideText(sign, side) + rest, sign) == Reading(side, rest)
  {
    if side.Some? {
      Regroup(sign, ExtentText(side.value), rest);
      BehindIs(sign, ExtentText(side.value) + rest);
      ExtentIsRead(side.value, rest);
    } else {
      assert "" + rest == rest;
    }
  }

  lemma NotAhead(w: string, rest: string)
    requires w != "" && rest != "" && (w[0] != rest[0] || (|w| > 1 && |rest| > 1 && w[1] != rest[1]))
    ensures !(w <= rest)
  {
  }

  lemma RightIsRead(left: Option<Extent>, right: Option<Extent>, rest: string)
    ensures ReadSide(SideText(RightSign(left), right) + (CLOSING + rest), RightSign(left))
         == Reading(right, CLOSING + rest)
  {
    NotAhead(RightSign(left), CLOSING + rest);
    SideIsRead(RightSign(left), right, CLOSING + rest);
  }

  lemma LeftIsRead(left: Option<Extent>, right: Option<Extent>, rest: string)
    ensures var behind := SideText(RightSign(left), right) + (CLOSING + rest);
      ReadSide(SideText("-", left) + behind, "-") == Reading(left, behind)
  {
    var behind := SideText(RightSign(left), right) + (CLOSING + rest);
    assert behind[0] == ' ' || behind[0] == '+';
    NotAhead("-", behind);
    SideIsRead("-", left, behind);
  }

  lemma HeaderIsRead(left: Option<Extent>, right: Option<Extent>, rest: string)
    ensures ReadHeader(HeaderText(left, right) + rest) == Reading(TextHunk(left, right, []), rest)
  {
    var l, r := SideText("-", left), SideText(RightSign(left), right);
    Regroup(OPENING, l + (r + CLOSING), rest);
    Regroup(l, r + CLOSING, rest);
    Regroup(r, CLOSING, rest);
    BehindIs(OPENING, l + (r + (CLOSING + rest)));
    LeftIsRead(left, right, rest);
    RightIsRead(left, right, rest);
    BehindIs(CLOSING, rest);
  }

  // ---------------------------------------------------------------------------
  // Lists are read back
  // ---------------------------------------------------------------------------

  /** The item x is read from the text, and more is left. */
  ghost predicate IsRead<T>(item: string -> Reading<T>, ends: string -> bool, x: T, text: string, more: string) {
    !ends(text) && item(text) == Reading(x, more) && |more| < |text|
  }

  /** A list is read back item by item; tail(k) is the text from item k on. */
  lemma {:induction false} ManyAreRead<T>(item: string -> Reading<T>, ends: string -> bool, items: seq<T>, k: nat,
                                          tail: nat -> string)
    requires k <= |items| && ends(tail(|items|))
    requires forall m: nat {:trigger items[m]} | m < |items| :: IsRead(item, ends, items[m], tail(m), tail(m + 1))
    ensures Many(item, ends, tail(k)) == Reading(items[k..], tail(|items|))
    decreases |items| - k
  {
    if k < |items| {
      assert IsRead(item, ends, items[k], tail(k), tail(k + 1));
      ManyAreRead(item, ends, items, k + 1, tail);
      assert items[k..] == [items[k]] + items[k + 1..];
    }
  }

  /** Another item is read instead of x, if one is read at all. */
  ghost predicate IsMisread<T>(item: string -> Reading<T>, ends: string -> bool, x: T, text: string,
                               differs: (T, T) -> bool)
  {
    !ends(text) && (item(text).Reading? ==> differs(x, item(text).value))
  }

  /** The first item that differs is number h. */
  ghost predicate DifferAt<T>(items: seq<T>, read: seq<T>, h: nat, differs: (T, T) -> bool) {
    h < |items| && h < |read| && (forall k | 0 <= k < h :: read[k] == items[k]) && differs(items[h], read[h])
  }

  lemma MoreIsRead<T>(item: string -> Reading<T>, ends: string -> bool, x: T, text: string, more: string)
    requires IsRead(item, ends, x, text, more) && Many(item, ends, text).Reading?
    ensures Many(item, ends, more).Reading? && Many(item, ends, text).value == [x] + Many(item, ends, more).value
  {
  }

  /** If plain items are read back and others are not, the first other one makes the first difference. */
  lemma {:induction false} FirstDifference<T>(item: string -> Reading<T>, ends: string -> bool, items: seq<T>, k: nat,
                                              tail: nat -> string, plain: T -> bool, differs: (T, T) -> bool)
    returns (h: nat)
    requires k <= |items| && exists m :: k <= m < |items| && !plain(items[m])
    requires forall m: nat {:trigger items[m]} | m < |items| ::
      if plain(items[m]) then IsRead(item, ends, items[m], tail(m), tail(m + 1))
      else IsMisread(item, ends, items[m], tail(m), differs)
    requires Many(item, ends, tail(k)).Reading?
    ensures k <= h && DifferAt(items[k..], Many(item, ends, tail(k)).value, h - k, differs)
    decreases |items| - k
  {
    if plain(items[k]) {
      MoreIsRead(item, ends, items[k], tail(k), tail(k + 1));
      h := FirstDifference(item, ends, items, k + 1, tail, plain, differs);
      assert items[k..] == [items[k]] + items[k + 1..];
    } else {
      h := k;
      assert IsMisread(item, ends, items[k], tail(k), differs);
    }
  }

  // ---------------------------------------------------------------------------
  // Lines are read back
  // ---------------------------------------------------------------------------

  /** The text is written whole, and reads as one line. */
  predicate IsOneLine(text: string) { '\0' !in text && '\n' !in text }

  predicate IsPlain(line: Line<string>) { IsMark(line.mark) && IsOneLine(line.text) }

  predicate HunkIsPlain(h: TextHunk<string>) { forall k | 0 <= k < |h.lines| :: IsPlain(h.lines[k]) }

  predicate HasOnlyMarks(h: TextHunk<string>) { forall k | 0 <= k < |h.lines| :: IsMark(h.lines[k].mark) }

  lemma {:induction false} LineFeedIs(text: string, i: nat, j: nat)
    requires i <= j < |text| && text[j] == '\n' && forall k | i <= k < j :: text[k] != '\n'
    ensures LineFeed(text, i) == j
    decreases j - i
  {
    if i < j {
      LineFeedIs(text, i + 1, j);
    }
  }

  lemma LineIsRead(line: Line<string>, rest: string)
    requires IsPlain(line)
    ensures IsRead(ReadLine, EndsLines, line, LineText(line) + rest, rest)
  {
    var text := LineText(line) + rest;
    var j := |line.text| + 1;
    CStrIsUpToNul(line.text);
    assert forall k | 1 <= k < j :: text[k] == line.text[k - 1];
    LineFeedIs(text, 1, j);
    assert text[1..j] == line.text && text[j + 1..] == rest;
  }

  predicate LineDiffers(line: Line<string>, read: Line<string>) { read.mark == line.mark && read.text != line.text }

  lemma LineIsMisread(line: Line<string>, rest: string)
    requires IsMark(line.mark) && !IsPlain(line)
    ensures IsMisread(ReadLine, EndsLines, line, LineText(line) + rest, LineDiffers)
  {
    var text, shown := LineText(line) + rest, CStr(line.text);
    var j := LineFeed(text, 1);
    CStrIsUpToNul(line.text);
    assert text[|shown| + 1] == '\n' && j <= |shown| + 1;
    assert text[1..j] == shown[..j - 1];
    assert '\n' !in text[1..j] && '\0' !in shown[..j - 1];
  }

  /** The text from line k on, and what follows the lines. */
  function LinesTail(lines: seq<Line<string>>, rest: string): nat -> string {
    (k: nat) => if k <= |lines| then LinesText(lines, k) + rest else ""
  }

  lemma LinesTailIs(lines: seq<Line<string>>, k: nat, rest: string)
    requires k < |lines|
    ensures LinesTail(lines, rest)(k) == LineText(lines[k]) + LinesTail(lines, rest)(k + 1)
  {
    Regroup(LineText(lines[k]), LinesText(lines, k + 1), rest);
  }

  /** Lines are read back up to the next header or the end. */
  lemma LinesAreRead(lines: seq<Line<string>>, rest: string)
    requires (forall k | 0 <= k < |lines| :: IsPlain(lines[k])) && EndsLines(rest)
    ensures Many(ReadLine, EndsLines, LinesText(lines, 0) + rest) == Reading(lines, rest)
  {
    var tail := LinesTail(lines, rest);
    forall k: nat | k < |lines| ensures IsRead(ReadLine, EndsLines, lines[k], tail(k), tail(k + 1)) {
      LinesTailIs(lines, k, rest);
      LineIsRead(lines[k], tail(k + 1));
    }
    assert tail(|lines|) == rest;
    ManyAreRead(ReadLine, EndsLines, lines, 0, tail);
    assert lines[0..] == lines;
  }

  ghost predicate LinesDiffer(lines: seq<Line<string>>, read: seq<Line<string>>) {
    exists q: nat :: DifferAt(lines, read, q, LineDiffers)
  }

  lemma LinesAreMisread(lines: seq<Line<string>>, rest: string)
    requires forall k | 0 <= k < |lines| :: IsMark(lines[k].mark)
    requires exists k :: 0 <= k < |lines| && !IsPlain(lines[k])
    requires Many(ReadLine, EndsLines, LinesText(lines, 0) + rest).Reading?
    ensures LinesDiffer(lines, Many(ReadLine, EndsLines, LinesText(lines, 0) + rest).value)
  {
    var tail := LinesTail(lines, rest);
    forall k: nat | k < |lines| && IsPlain(lines[k])
      ensures IsRead(ReadLine, EndsLines, lines[k], tail(k), tail(k + 1))
    {
      LinesTailIs(lines, k, rest);
      LineIsRead(lines[k], tail(k + 1));
    }
    forall k: nat | k < |lines| && !IsPlain(lines[k])
      ensures IsMisread(ReadLine, EndsLines, lines[k], tail(k), LineDiffers)
    {
      LinesTailIs(lines, k, rest);
      LineIsMisread(lines[k], tail(k + 1));
    }
    var q := FirstDifference(ReadLine, EndsLines, lines, 0, tail, IsPlain, LineDiffers);
    assert lines[0..] == lines;
  }

  // ---------------------------------------------------------------------------
  // Hunks are read back
  // ---------------------------------------------------------------------------

  lemma HunkHeaderIsRead(h: TextHunk<string>, rest: string)
    ensures ReadHeader(HunkText(h) + rest) == Reading(TextHunk(h.left, h.right, []), LinesText(h.lines, 0) + rest)
    ensures |LinesText(h.lines, 0) + rest| < |HunkText(h) + rest|
  {
    Regroup(HeaderText(h.left, h.right), LinesText(h.lines, 0), rest);
    HeaderIsRead(h.left, h.right, LinesText(h.lines, 0) + rest);
  }

  lemma HunkIsRead(h: TextHunk<string>, rest: string)
    requires HunkIsPlain(h) && EndsLines(rest)
    ensures IsRead(ReadHunk, EndsDiff, h, HunkText(h) + rest, rest)
  {
    HunkHeaderIsRead(h, rest);
    LinesAreRead(h.lines, rest);
  }

  ghost predicate HunkDiffers(h: TextHunk<string>, read: TextHunk<string>) {
    read.left == h.left && read.right == h.right && LinesDiffer(h.lines, read.lines)
  }

  lemma HunkIsMisread(h: TextHunk<string>, rest: string)
    requires HasOnlyMarks(h) && !HunkIsPlain(h)
    ensures IsMisread(ReadHunk, EndsDiff, h, HunkText(h) + rest, HunkDiffers)
  {
    HunkHeaderIsRead(h, rest);
    if Many(ReadLine, EndsLines, LinesText(h.lines, 0) + rest).Reading? {
      LinesAreMisread(h.lines, rest);
    }
  }

  /** The text from hunk k on. */
  function DiffTail(hunks: seq<TextHunk<string>>): nat -> string {
    (k: nat) => if k <= |hunks| then DiffText(hunks, k) else ""
  }

  lemma DiffTailIs(hunks: seq<TextHunk<string>>, k: nat)
    requires k < |hunks|
    ensures DiffTail(hunks)(k) == HunkText(hunks[k]) + DiffTail(hunks)(k + 1)
    ensures EndsLines(DiffTail(hunks)(k + 1))
  {
  }

  lemma TailIsRead(hunks: seq<TextHunk<string>>, k: nat)
    requires k < |hunks| && HunkIsPlain(hunks[k])
    ensures IsRead(ReadHunk, EndsDiff, hunks[k], DiffTail(hunks)(k), DiffTail(hunks)(k + 1))
  {
    DiffTailIs(hunks, k);
    HunkIsRead(hunks[k], DiffTail(hunks)(k + 1));
  }

  lemma TailIsMisread(hunks: seq<TextHunk<string>>, k: nat)
    requires k < |hunks| && HasOnlyMarks(hunks[k]) && !HunkIsPlain(hunks[k])
    ensures IsMisread(ReadHunk, EndsDiff, hunks[k], DiffTail(hunks)(k), HunkDiffers)
  {
    DiffTailIs(hunks, k);
    HunkIsMisread(hunks[k], DiffTail(hunks)(k + 1));
  }

  predicate AllPlain(hunks: seq<TextHunk<string>>) { forall h | 0 <= h < |hunks| :: HunkIsPlain(hunks[h]) }

  lemma DiffIsRead(hunks: seq<TextHunk<string>>)
    requires AllPlain(hunks)
    ensures ReadDiff(DiffText(hunks, 0)) == Reading(hunks, "")
  {
    var tail := DiffTail(hunks);
    forall k: nat | k < |hunks| ensures IsRead(ReadHunk, EndsDiff, hunks[k], tail(k), tail(k + 1)) {
      TailIsRead(hunks, k);
    }
    ManyAreRead(ReadHunk, EndsDiff, hunks, 0, tail);
    assert hunks[0..] == hunks;
  }

  ghost predicate HunksDiffer(hunks: seq<TextHunk<string>>, read: seq<TextHunk<string>>) {
    exists h: nat :: DifferAt(hunks, read, h, HunkDiffers)
  }

  /** If the text is read at all, the first line with a NUL or a line break inside is read as another one. */
  lemma {:induction false} DiffIsMisread(hunks: seq<TextHunk<string>>)
    requires !AllPlain(hunks) && (forall h | 0 <= h < |hunks| :: HasOnlyMarks(hunks[h]))
    requires ReadDiff(DiffText(hunks, 0)).Reading?
    ensures HunksDiffer(hunks, ReadDiff(DiffText(hunks, 0)).value)
  {
    var tail := DiffTail(hunks);
    forall k: nat | k < |hunks| && HunkIsPlain(hunks[k])
      ensures IsRead(ReadHunk, EndsDiff, hunks[k], tail(k), tail(k + 1))
    {
      TailIsRead(hunks, k);
    }
    forall k: nat | k < |hunks| && !HunkIsPlain(hunks[k])
      ensures IsMisread(ReadHunk, EndsDiff, hunks[k], tail(k), HunkDiffers)
    {
      TailIsMisread(hunks, k);
    }
    var h := FirstDifference(ReadHunk, EndsDiff, hunks, 0, tail, HunkIsPlain, HunkDiffers);
    assert hunks[0..] == hunks;
  }

  /** The text of hunks whose lines have marks is read back as these hunks exactly when no line has a NUL or a
      line break inside. */
  lemma DiffIsReadIff(hunks: seq<TextHunk<string>>)
    requires forall h | 0 <= h < |hunks| :: HasOnlyMarks(hunks[h])
    ensures ReadDiff(DiffText(hunks, 0)) == Reading(hunks, "") <==> AllPlain(hunks)
  {
    if AllPlain(hunks) {
      DiffIsRead(hunks);
    } else if ReadDiff(DiffText(hunks, 0)) == Reading(hunks, "") {
      DiffIsMisread(hunks);
      assert false;
    }
  }
}

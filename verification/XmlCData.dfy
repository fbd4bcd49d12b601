/** Strings in the XML report that are written as CDATA sections, read back as XML. */
module XmlCData {
  import opened Options
  import opened Sequences
  import opened SimpleRegex
  import opened XmlReader
  import XmlWriter

  const OPENING := "<![CDATA["
  const CLOSING := "]]>"
  const SPLIT := "]]>]]&gt;<![CDATA["

  /** What is written for data[i..] between the opening and the closing. */
  function Body(data: string, i: nat): string
    requires i <= |data|
    decreases |data| - i
  {
    if i == |data| then ""
    else if HasAt(data, i, CLOSING) then SPLIT + Body(data, i + 3)
    else [data[i]] + Body(data, i + 1)
  }

  function CDataSection(data: string): string { OPENING + Body(data, 0) + CLOSING }

  lemma ClosingAt(s: string, i: nat)
    ensures HasAt(s, i, CLOSING) <==> Has3(s, i, ']', ']', '>')
  {
    if HasAt(s, i, CLOSING) {
      StartsWith(s, i, CLOSING, 0);
      StartsWith(s, i, CLOSING, 1);
      StartsWith(s, i, CLOSING, 2);
    }
  }

  method StrStr(s: CString, from: nat, w: string) returns (at: Option<nat>)
    requires from <= |s|
    ensures at.Some? ==> from <= at.value < |s| && HasAt(s, at.value, w)
    ensures at.Some? ==> forall k: nat | from <= k < at.value :: !HasAt(s, k, w)
    ensures at.None? ==> forall k: nat | from <= k < |s| :: !HasAt(s, k, w)
  {
    var k := from;
    while k < |s|
      invariant from <= k <= |s| && forall j: nat | from <= j < k :: !HasAt(s, j, w)
    {
      var here := IsAt(s, k, w);
      if here {
        return Some(k);
      }
      k := k + 1;
    }
    return None;
  }

  method IsAt(s: CString, k: nat, w: string) returns (here: bool)
    ensures here <==> HasAt(s, k, w)
  {
    if k + |w| > |s| {
      return false;
    }
    for j := 0 to |w|
      invariant forall i | 0 <= i < j :: s[k + i] == w[i]
    {
      if s[k + j] != w[j] {
        StartsNot(s, k, w, j);
        return false;
      }
    }
    return true;
  }

  lemma SegmentCons(data: string, i: nat, k: nat, rest: string)
    requires i < k <= |data|
    ensures data[i..k] + rest == [data[i]] + (data[i + 1..k] + rest)
  {
    assert data[i..k] == [data[i]] + data[i + 1..k];
  }

  lemma {:induction false} PlainSegment(data: string, i: nat, k: nat)
    requires i <= k <= |data| && forall j | i <= j < k :: !HasAt(data, j, CLOSING)
    ensures Body(data, i) == data[i..k] + Body(data, k)
    decreases k - i
  {
    if i < k {
      PlainSegment(data, i + 1, k);
      SegmentCons(data, i, k, Body(data, k));
    }
  }

  method OutputXmlCDataSection(data: CString) returns (stream: string)
    ensures stream == CDataSection(data)
  {
    var segment := 0;
    stream := OPENING;
    while true
      invariant segment <= |data| && stream + Body(data, segment) == OPENING + Body(data, 0)
      decreases |data| - segment
    {
      var next := StrStr(data, segment, CLOSING);
      if next.Some? {
        PlainSegment(data, segment, next.value);
        var more := data[segment..next.value] + SPLIT;
        assert stream + (data[segment..next.value] + (SPLIT + Body(data, next.value + 3)))
            == stream + more + Body(data, next.value + 3);
        stream := stream + more;
        segment := next.value + 3;
      } else {
        PlainSegment(data, segment, |data|);
        stream := stream + data[segment..];
        break;
      }
    }
    stream := stream + CLOSING;
  }

  /** out has this text at p, and the rest behind it. */
  lemma Behind(out: string, p: nat, text: string, rest: string)
    requires p <= |out| && out[p..] == text + rest
    ensures HasAt(out, p, text) && out[p + |text|..] == rest
  {
    assert forall k | 0 <= k < |text| :: out[p + k] == out[p..][k] == text[k];
    assert out[p..][|text|..] == out[p + |text|..];
  }

  lemma NextCharacter(out: string, p: nat, data: string, i: nat)
    requires i <= |data| && p <= |out| && out[p..] == Body(data, i) + CLOSING
    ensures p < |out| && out[p] == if i < |data| then data[i] else ']'
    ensures (i == |data| || HasAt(data, i, CLOSING)) ==> p + 1 < |out| && out[p + 1] == ']'
    ensures i < |data| && !HasAt(data, i, CLOSING) ==> out[p + 1..] == Body(data, i + 1) + CLOSING
  {
    ClosingAt(data, i);
    if i == |data| {
      Behind(out, p, CLOSING, "");
      ClosingAt(out, p);
    } else if HasAt(data, i, CLOSING) {
      assert Body(data, i) + CLOSING == SPLIT + (Body(data, i + 3) + CLOSING);
      Behind(out, p, SPLIT, Body(data, i + 3) + CLOSING);
      StartsWith(out, p, SPLIT, 0);
      StartsWith(out, p, SPLIT, 1);
    } else {
      assert Body(data, i) + CLOSING == [data[i]] + (Body(data, i + 1) + CLOSING);
      Behind(out, p, [data[i]], Body(data, i + 1) + CLOSING);
      StartsWith(out, p, [data[i]], 0);
    }
  }

  /** Where the data has no "]]>", neither has what is written for it. */
  lemma NoClosing(out: string, p: nat, data: string, i: nat)
    requires i < |data| && p <= |out| && out[p..] == Body(data, i) + CLOSING && !HasAt(data, i, CLOSING)
    ensures !Has3(out, p, ']', ']', '>') && p < |out| && out[p] == data[i]
    ensures out[p + 1..] == Body(data, i + 1) + CLOSING
    ensures p + 1 < |out| && out[p + 1] == if i + 1 < |data| then data[i + 1] else ']'
  {
    ClosingAt(out, p);
    ClosingAt(data, i);
    NextCharacter(out, p, data, i);
    NextCharacter(out, p + 1, data, i + 1);
    if i + 1 < |data| && !HasAt(data, i + 1, CLOSING) {
      NextCharacter(out, p + 2, data, i + 2);
    }
  }

  /** A "]]>" in the data is read back from the end of one section, the text after it, and the beginning
      of the next section. */
  lemma SplitIsRead(out: string, p: nat)
    requires HasAt(out, p, SPLIT)
    ensures Read(out, p, CData) == Cons(']', Cons(']', Cons('>', Read(out, p + |SPLIT|, CData))))
  {
    StartsWith(out, p, SPLIT, 0);
    StartsWith(out, p, SPLIT, 1);
    StartsWith(out, p, SPLIT, 2);
    StartsWith(out, p, SPLIT, 3);
    StartsWith(out, p, SPLIT, 4);
    StartsWith(out, p, SPLIT, 5);
    ClosingAt(out, p);
    ClosingAt(out, p + 3);
    ClosingAt(out, p + 4);
    EntityAndOpeningAreRead(out, p);
    assert Read(out, p + 4, Text) == Cons(']', Read(out, p + 5, Text));
    assert Read(out, p + 3, Text) == Cons(']', Read(out, p + 4, Text));
  }

  lemma EntityAndOpeningAreRead(out: string, p: nat)
    requires HasAt(out, p, SPLIT)
    ensures Read(out, p + 5, Text) == Cons('>', Read(out, p + |SPLIT|, CData))
  {
    assert SPLIT == ("]]>]]" + "&gt;") + OPENING;
    assert HasAt(out, p + 5, "&gt;") by {
      forall k | 0 <= k < 4 ensures out[p + 5 + k] == "&gt;"[k] {
        StartsWith(out, p, SPLIT, 5 + k);
      }
    }
    assert HasAt(out, p + 9, OPENING) by {
      forall k | 0 <= k < 9 ensures out[p + 9 + k] == OPENING[k] {
        StartsWith(out, p, SPLIT, 9 + k);
      }
    }
    XmlWriter.EntityIsRead('>', "&gt;", out, p + 5);
    StartsWith(out, p + 5, "&gt;", 0);
    StartsWith(out, p + 9, OPENING, 0);
  }

  lemma {:induction false} BodyIsRead(out: string, p: nat, data: string, i: nat)
    requires i <= |data| && p <= |out| && out[p..] == Body(data, i) + CLOSING
    ensures Read(out, p, CData) == Some(WithLineFeeds(data, i))
    decreases |data| - i
  {
    if i == |data| {
      Behind(out, p, CLOSING, "");
    } else if HasAt(data, i, CLOSING) {
      assert Body(data, i) + CLOSING == SPLIT + (Body(data, i + 3) + CLOSING);
      Behind(out, p, SPLIT, Body(data, i + 3) + CLOSING);
      SplitIsRead(out, p);
      BodyIsRead(out, p + |SPLIT|, data, i + 3);
      ClosingHasNoLineEnd(data, i);
    } else {
      NoClosing(out, p, data, i);
      if LineEnd(data, i) == 2 {
        ClosingAt(data, i + 1);
        NoClosing(out, p + 1, data, i + 1);
      }
      assert LineEnd(out, p) == LineEnd(data, i);
      BodyIsRead(out, p + LineEnd(out, p), data, i + LineEnd(data, i));
    }
  }

  lemma ClosingHasNoLineEnd(data: string, i: nat)
    requires HasAt(data, i, CLOSING)
    ensures WithLineFeeds(data, i) == "]" + ("]" + (">" + WithLineFeeds(data, i + 3)))
  {
    ClosingAt(data, i);
    assert WithLineFeeds(data, i + 2) == ">" + WithLineFeeds(data, i + 3);
    assert WithLineFeeds(data, i + 1) == "]" + WithLineFeeds(data, i + 2);
  }

  /** Every string is read back from its CDATA sections, with line feeds for its line ends. */
  lemma CDataReadsBack(data: string)
    ensures Read(CDataSection(data), 0, Text) == Some(WithLineFeeds(data, 0))
  {
    var out := CDataSection(data);
    assert out == OPENING + (Body(data, 0) + CLOSING) && out[0..] == out;
    Behind(out, 0, OPENING, Body(data, 0) + CLOSING);
    BodyIsRead(out, |OPENING|, data, 0);
    StartsWith(out, 0, OPENING, 0);
  }

  /** So a string is read back as it was exactly when it has no carriage return. */
  lemma CDataIsKeptIff(data: string)
    ensures Read(CDataSection(data), 0, Text) == Some(data) <==> '\r' !in data
  {
    CDataReadsBack(data);
    LineFeedsKept(data, 0);
    assert data[0..] == data;
  }
}

/**
 * Splitting an assistant message into answer text and reasoning.
 *
 * The message content is scanned left to right with a cursor and a
 * mode. In text mode the scan looks for the next `<think>`; what lies
 * before it (when non-empty) is a text segment, and the mode switches to
 * think just past the marker. In think mode it looks for the next
 * `</think>`; what lies before it is a think segment (even an empty
 * one), and the mode switches back to text just past the marker. When a
 * search fails, the rest of the content becomes a final segment of the
 * current mode. No segment is trimmed by the scan; trimming happens only
 * when a segment is displayed.
 */
module Segments {
  import opened Types
  import opened Strings

  const Open: string := "<think>"
  const Close: string := "</think>"

  datatype Kind = Text | Think

  datatype Segment = Segment(kind: Kind, text: string)

  /** The marker that ends a segment of kind `kind`. */
  function Marker(kind: Kind): (marker: string) {
    if kind == Text then Open else Close
  }

  /**
   * The segments of `content[i..]` when the scan is in text mode at
   * cursor `i`. The text before the opener is kept only when non-empty.
   * When no opener follows, the rest is one text segment; it is never
   * empty, since the cursor is inside the content.
   */
  function ScanText(content: string, i: nat): (segs: seq<Segment>)
    requires i <= |content|
    decreases |content| - i
  {
    if i == |content| then []
    else
      var start := IndexOf(content, Open, i);
      if start == -1 then [Segment(Text, content[i..])]
      else if start == i then ScanThink(content, start + 7)
      else [Segment(Text, content[i..start])] + ScanThink(content, start + 7)
  }

  /**
   * The segments of `content[i..]` when the scan is in think mode at
   * cursor `i`. The reasoning before the closer is kept even when empty.
   * When no closer follows, the rest is one think segment.
   */
  function ScanThink(content: string, i: nat): (segs: seq<Segment>)
    requires i <= |content|
    decreases |content| - i
  {
    if i == |content| then []
    else
      var end := IndexOf(content, Close, i);
      if end == -1 then [Segment(Think, content[i..])]
      else [Segment(Think, content[i..end])] + ScanText(content, end + 8)
  }

  /** The head and the tail of a sequence built by putting `x` in front of `xs`. */
  lemma ConsParts<T>(x: T, xs: seq<T>)
    ensures ([x] + xs)[0] == x && ([x] + xs)[1..] == xs
  {
  }

  /** A scan round in text mode that finds no opener: the rest is the last segment. */
  lemma TextLast(content: string, i: nat)
    requires i < |content|
    requires IndexOf(content, Open, i) == -1
    ensures ScanText(content, i) == [Segment(Text, content[i..])]
  {
  }

  /** A scan round in text mode that finds an opener right at the cursor: no text segment. */
  lemma TextSkip(content: string, i: nat)
    requires i < |content|
    requires IndexOf(content, Open, i) == i
    ensures i + 7 <= |content|
    ensures ScanText(content, i) == ScanThink(content, i + 7)
  {
    var rest := ScanThink(content, i + 7);
    assert ScanText(content, i) == rest;
  }

  /** A scan round in text mode that finds an opener at `start`, after the cursor. */
  lemma TextCut(content: string, i: nat, start: int)
    requires i < |content|
    requires start == IndexOf(content, Open, i) && start > i
    ensures start + 7 <= |content|
    ensures ScanText(content, i) == [Segment(Text, content[i..start])] + ScanThink(content, start + 7)
  {
    var rest := ScanThink(content, start + 7);
    assert ScanText(content, i) == [Segment(Text, content[i..start])] + rest;
  }

  /** A scan round in think mode that finds no closer: the rest is the last segment. */
  lemma ThinkLast(content: string, i: nat)
    requires i < |content|
    requires IndexOf(content, Close, i) == -1
    ensures ScanThink(content, i) == [Segment(Think, content[i..])]
  {
  }

  /** A scan round in think mode that finds a closer at `end`. */
  lemma ThinkNext(content: string, i: nat, end: int)
    requires i < |content|
    requires end == IndexOf(content, Close, i) && i <= end
    ensures end + 8 <= |content|
    ensures ScanThink(content, i) == [Segment(Think, content[i..end])] + ScanText(content, end + 8)
  {
    if end == i {
      ThinkEmpty(content, i);
    } else {
      ThinkCut(content, i, end);
    }
  }

  /** A closer right at the cursor ends an empty reasoning segment. */
  lemma ThinkEmpty(content: string, i: nat)
    requires i < |content|
    requires IndexOf(content, Close, i) == i
    ensures i + 8 <= |content|
    ensures ScanThink(content, i) == [Segment(Think, content[i..i])] + ScanText(content, i + 8)
  {
    var rest := ScanText(content, i + 8);
    assert ScanThink(content, i) == [Segment(Think, content[i..i])] + rest;
  }

  /** A closer after the cursor ends the reasoning before it. */
  lemma ThinkCut(content: string, i: nat, end: int)
    requires i < |content|
    requires end == IndexOf(content, Close, i) && i < end
    ensures end + 8 <= |content|
    ensures ScanThink(content, i) == [Segment(Think, content[i..end])] + ScanText(content, end + 8)
  {
    var rest := ScanText(content, end + 8);
    assert ScanThink(content, i) == [Segment(Think, content[i..end])] + rest;
  }

  /**
   * One round of the loop in text mode that finds an opener at `start`:
   * the text before it (when non-empty) joins the segments found, and the
   * scan goes on in think mode past the opener.
   */
  lemma TextRound(content: string, done: seq<Segment>, i: nat, start: int, segs: seq<Segment>, next: nat, whole: seq<Segment>)
    requires i < |content|
    requires done + ScanText(content, i) == whole
    requires start == IndexOf(content, Open, i) && start != -1
    requires start > i ==> segs == done + [Segment(Text, content[i..start])]
    requires start == i ==> segs == done
    requires next == start + 7
    ensures next <= |content|
    ensures segs + ScanThink(content, next) == whole
  {
    if start == i {
      TextSkip(content, i);
    } else {
      TextCut(content, i, start);
      AppendAssoc(done, [Segment(Text, content[i..start])], ScanThink(content, next));
    }
  }

  /**
   * One round of the loop in think mode that finds a closer at `end`: the
   * reasoning before it joins the segments found, and the scan goes on in
   * text mode past the closer.
   */
  lemma ThinkRound(content: string, done: seq<Segment>, i: nat, end: int, segs: seq<Segment>, next: nat, whole: seq<Segment>)
    requires i < |content|
    requires done + ScanThink(content, i) == whole
    requires end == IndexOf(content, Close, i) && i <= end
    requires segs == done + [Segment(Think, content[i..end])]
    requires next == end + 8
    ensures next <= |content|
    ensures segs + ScanText(content, next) == whole
  {
    ThinkNext(content, i, end);
    AppendAssoc(done, [Segment(Think, content[i..end])], ScanText(content, next));
  }

  /** The last round of the loop in text mode: the rest, when non-empty, ends the segments. */
  lemma TextFinal(content: string, done: seq<Segment>, i: nat, rest: string, segs: seq<Segment>, whole: seq<Segment>)
    requires i < |content|
    requires done + ScanText(content, i) == whole
    requires IndexOf(content, Open, i) == -1
    requires rest == content[i..]
    requires rest != [] ==> segs == done + [Segment(Text, rest)]
    requires rest == [] ==> segs == done
    ensures segs == whole
  {
    TextLast(content, i);
  }

  /** The last round of the loop in think mode: the rest, when non-empty, ends the segments. */
  lemma ThinkFinal(content: string, done: seq<Segment>, i: nat, rest: string, segs: seq<Segment>, whole: seq<Segment>)
    requires i < |content|
    requires done + ScanThink(content, i) == whole
    requires IndexOf(content, Close, i) == -1
    requires rest == content[i..]
    requires rest != [] ==> segs == done + [Segment(Think, rest)]
    requires rest == [] ==> segs == done
    ensures segs == whole
  {
    ThinkLast(content, i);
  }

  /**
   * The scan loop of `renderAssistantContent`. Each round either stops or
   * moves the cursor past a marker found at or after it, so the loop
   * ends.
   */
  method RenderAssistantContent(content: string) returns (segments: seq<Segment>)
    ensures segments == ScanText(content, 0)
  {
    segments := [];
    var currentIndex: nat := 0;
    var currentType := Text;
    ghost var whole := ScanText(content, 0);
    while currentIndex < |content|
      invariant currentIndex <= |content|
      invariant currentType == Text ==> segments + ScanText(content, currentIndex) == whole
      invariant currentType == Think ==> segments + ScanThink(content, currentIndex) == whole
      decreases |content| - currentIndex
    {
      ghost var done, i := segments, currentIndex;
      if currentType == Text {
        var thinkStart := IndexOf(content, Open, currentIndex);
        if thinkStart == -1 {
          var textSegment := content[currentIndex..];
          if textSegment != [] {
            segments := segments + [Segment(Text, textSegment)];
          }
          TextFinal(content, done, i, textSegment, segments, whole);
          break;
        }
        if thinkStart > currentIndex {
          segments := segments + [Segment(Text, content[currentIndex..thinkStart])];
        }
        currentType := Think;
        currentIndex := thinkStart + 7;
        TextRound(content, done, i, thinkStart, segments, currentIndex, whole);
      } else {
        var thinkEnd := IndexOf(content, Close, currentIndex);
        if thinkEnd == -1 {
          var thinkSegment := content[currentIndex..];
          if thinkSegment != [] {
            segments := segments + [Segment(Think, thinkSegment)];
          }
          ThinkFinal(content, done, i, thinkSegment, segments, whole);
          break;
        }
        segments := segments + [Segment(Think, content[currentIndex..thinkEnd])];
        currentType := Text;
        currentIndex := thinkEnd + 8;
        ThinkRound(content, done, i, thinkEnd, segments, currentIndex, whole);
      }
    }
  }

  /**
   * The marker property of one segment: it holds no occurrence of the
   * marker that ends its kind, and a text segment is never empty.
   */
  predicate MarkerFree(segment: Segment) {
    && !Contains(segment.text, Marker(segment.kind))
    && (segment.kind == Text ==> segment.text != [])
  }

  /** Every segment of `segs` is marker-free. */
  predicate AllMarkerFree(segs: seq<Segment>) {
    forall k :: 0 <= k < |segs| ==> MarkerFree(segs[k])
  }

  /** No two neighbouring segments of `segs` are both text. */
  predicate NoTwoTexts(segs: seq<Segment>)
    decreases |segs|
  {
    |segs| >= 2 ==> (segs[0].kind == Think || segs[1].kind == Think) && NoTwoTexts(segs[1..])
  }

  /**
   * `segs` reads `content[i..]` in text mode: the content is exactly the
   * texts of `segs`, in order and untrimmed, with `<think>` in front of
   * each reasoning segment and `</think>` after each reasoning segment
   * that does not run to the end. No marker of a segment's kind starts
   * inside the segment, a text segment is never empty, and a segment
   * that runs to the end is not empty. An opener with nothing after it
   * reads as no segment at all.
   */
  predicate TextReading(content: string, i: nat, segs: seq<Segment>)
    requires i <= |content|
    decreases |content| - i
  {
    if segs == [] then i == |content| || (i + 7 == |content| && OccursAt(content, Open, i))
    else if segs[0].kind == Think then
      OccursAt(content, Open, i) && ThinkReading(content, i + 7, segs)
    else
      var e := i + |segs[0].text|;
      && i < e <= |content| && segs[0].text == content[i..e] && NoneFrom(content, Open, i, e)
      && if e == |content| then |segs| == 1
         else OccursAt(content, Open, e) && ThinkReading(content, e + 7, segs[1..])
  }

  /** `segs` reads `content[i..]` in think mode, just past an opener. */
  predicate ThinkReading(content: string, i: nat, segs: seq<Segment>)
    requires i <= |content|
    decreases |content| - i
  {
    if segs == [] then i == |content|
    else
      var e := i + |segs[0].text|;
      && segs[0].kind == Think && e <= |content| && segs[0].text == content[i..e]
      && NoneFrom(content, Close, i, e)
      && if e == |content| then |segs| == 1 && i < e
         else OccursAt(content, Close, e) && TextReading(content, e + 8, segs[1..])
  }

  /**
   * What the scan promises about its segments: put back together with
   * the markers, they are the whole content, untrimmed and in order; no
   * segment holds the marker that would end it; and each is closed by its
   * marker or runs, non-empty, to the end of the content.
   */
  predicate WellFormed(content: string, segments: seq<Segment>) {
    TextReading(content, 0, segments)
  }

  /**
   * The scan of any content is well formed; each of its segments is
   * marker-free; and no two neighbouring segments are text.
   */
  lemma ScanWellFormed(content: string)
    ensures WellFormed(content, ScanText(content, 0))
    ensures AllMarkerFree(ScanText(content, 0))
    ensures NoTwoTexts(ScanText(content, 0))
  {
    ScanReadsText(content, 0);
    ReadingMarkerFree(content, 0, ScanText(content, 0));
    ReadingAlternates(content, 0, ScanText(content, 0));
  }

  /** The scan is the only well-formed reading of the content. */
  lemma ScanUnique(content: string, segments: seq<Segment>)
    requires WellFormed(content, segments)
    ensures segments == ScanText(content, 0)
  {
    ScanReadsText(content, 0);
    TextReadingsAgree(content, 0, segments, ScanText(content, 0));
  }

  /** A segment's text as it is displayed: trimmed at both ends. */
  function DisplayText(segment: Segment): (r: string)
    ensures r == [] <==> IsBlank(segment.text)
  {
    TrimEmptyIffBlank(segment.text);
    Trim(segment.text)
  }

  /** A text-mode scan reads the content from the cursor on. */
  lemma {:induction false} ScanReadsText(content: string, i: nat)
    requires i <= |content|
    ensures TextReading(content, i, ScanText(content, i))
    decreases |content| - i, 1
  {
    if i < |content| {
      var start := IndexOf(content, Open, i);
      if start == -1 {
        ReadsTextLast(content, i);
      } else {
        var next := start + 7;
        assert next <= |content|;
        ScanReadsThink(content, next);
        ReadsTextCut(content, i, start);
      }
    }
  }

  /** A think-mode scan reads the content from the cursor on. */
  lemma {:induction false} ScanReadsThink(content: string, i: nat)
    requires i <= |content|
    ensures ThinkReading(content, i, ScanThink(content, i))
    decreases |content| - i, 1
  {
    if i < |content| {
      var end := IndexOf(content, Close, i);
      if end == -1 {
        ReadsThinkLast(content, i);
      } else {
        ScanReadsText(content, end + 8);
        ReadsThinkCut(content, i, end);
      }
    }
  }

  /** The last text-mode round reads the rest of the content. */
  lemma ReadsTextLast(content: string, i: nat)
    requires i < |content| && IndexOf(content, Open, i) == -1
    ensures TextReading(content, i, ScanText(content, i))
  {
    IndexOfFirst(content, Open, i);
    TextLast(content, i);
    ReadTextTail(content, i);
  }

  /** A text-mode round that finds an opener reads up to it, then in think mode. */
  lemma ReadsTextCut(content: string, i: nat, start: int)
    requires i < |content| && start == IndexOf(content, Open, i) && start != -1
    requires start + 7 <= |content| && ThinkReading(content, start + 7, ScanThink(content, start + 7))
    ensures TextReading(content, i, ScanText(content, i))
  {
    IndexOfFirst(content, Open, i);
    if start == i {
      TextSkip(content, i);
    } else {
      TextCut(content, i, start);
    }
    ReadTextOpened(content, i, start, ScanThink(content, start + 7));
  }

  /** The last think-mode round reads the rest of the content. */
  lemma ReadsThinkLast(content: string, i: nat)
    requires i < |content| && IndexOf(content, Close, i) == -1
    ensures ThinkReading(content, i, ScanThink(content, i))
  {
    IndexOfFirst(content, Close, i);
    ThinkLast(content, i);
    ReadThinkTail(content, i);
  }

  /** A think-mode round that finds a closer reads up to it, then in text mode. */
  lemma ReadsThinkCut(content: string, i: nat, end: int)
    requires i < |content| && end == IndexOf(content, Close, i) && end != -1
    requires end + 8 <= |content| && TextReading(content, end + 8, ScanText(content, end + 8))
    ensures ThinkReading(content, i, ScanThink(content, i))
  {
    IndexOfFirst(content, Close, i);
    ThinkNext(content, i, end);
    ReadThinkClosed(content, i, end, ScanText(content, end + 8));
  }

  /** Text with no opener from `j` to the end reads as one text segment, or none. */
  lemma ReadTextTail(content: string, j: nat)
    requires j <= |content| && NoneFrom(content, Open, j, |content|)
    ensures TextReading(content, j, Piece(Text, content[j..]))
  {
    assert content[j..j + |content[j..]|] == content[j..];
  }

  /** Reasoning with no closer from `j` to the end reads as one reasoning segment, or none. */
  lemma ReadThinkTail(content: string, j: nat)
    requires j <= |content| && NoneFrom(content, Close, j, |content|)
    ensures ThinkReading(content, j, Piece(Think, content[j..]))
  {
    assert content[j..j + |content[j..]|] == content[j..];
  }

  /** Reasoning with no closer from `j` up to a closer at `e`, in front of a text-mode reading. */
  lemma ReadThinkClosed(content: string, j: nat, e: nat, rest: seq<Segment>)
    requires j <= e && NoneFrom(content, Close, j, e) && OccursAt(content, Close, e)
    requires TextReading(content, e + 8, rest)
    ensures ThinkReading(content, j, [Segment(Think, content[j..e])] + rest)
  {
    ConsParts(Segment(Think, content[j..e]), rest);
  }

  /** Text with no opener from `j` up to an opener at `e`, in front of a think-mode reading. */
  lemma ReadTextOpened(content: string, j: nat, e: nat, rest: seq<Segment>)
    requires j <= e && NoneFrom(content, Open, j, e) && OccursAt(content, Open, e)
    requires ThinkReading(content, e + 7, rest)
    ensures TextReading(content, j, Piece(Text, content[j..e]) + rest)
  {
    ThinkReadingAlternates(content, e + 7, rest);
    if j == e {
      assert Piece(Text, content[j..e]) + rest == rest;
    } else {
      ConsParts(Segment(Text, content[j..e]), rest);
    }
  }

  /** Every segment of a text-mode reading is marker-free. */
  lemma {:induction false} ReadingMarkerFree(content: string, i: nat, segs: seq<Segment>)
    requires i <= |content| && TextReading(content, i, segs)
    ensures AllMarkerFree(segs)
    decreases |content| - i, 1
  {
    if segs != [] {
      if segs[0].kind == Think {
        ThinkReadingMarkerFree(content, i + 7, segs);
      } else {
        var e := TextHeadFree(content, i, segs);
        if e < |content| {
          ThinkReadingMarkerFree(content, e + 7, segs[1..]);
          MarkerFreeCons(segs);
        }
      }
    }
  }

  /** Every segment of a think-mode reading is marker-free. */
  lemma {:induction false} ThinkReadingMarkerFree(content: string, i: nat, segs: seq<Segment>)
    requires i <= |content| && ThinkReading(content, i, segs)
    ensures AllMarkerFree(segs)
    decreases |content| - i, 1
  {
    if segs != [] {
      var e := ThinkHeadFree(content, i, segs);
      if e < |content| {
        ReadingMarkerFree(content, e + 8, segs[1..]);
        MarkerFreeCons(segs);
      }
    }
  }

  /** The text segment a text-mode reading starts with is marker-free; `e` is where it ends. */
  lemma TextHeadFree(content: string, i: nat, segs: seq<Segment>) returns (e: nat)
    requires i <= |content| && TextReading(content, i, segs)
    requires segs != [] && segs[0].kind == Text
    ensures e == i + |segs[0].text| <= |content| && MarkerFree(segs[0])
    ensures e < |content| ==> e + 7 <= |content|
    ensures e == |content| ==> |segs| == 1
  {
    e := i + |segs[0].text|;
    SliceFree(content, Open, i, e);
  }

  /** The reasoning segment a think-mode reading starts with is marker-free; `e` is where it ends. */
  lemma ThinkHeadFree(content: string, i: nat, segs: seq<Segment>) returns (e: nat)
    requires i <= |content| && ThinkReading(content, i, segs)
    requires segs != []
    ensures e == i + |segs[0].text| <= |content| && MarkerFree(segs[0])
    ensures e < |content| ==> e + 8 <= |content|
    ensures e == |content| ==> |segs| == 1
  {
    e := i + |segs[0].text|;
    SliceFree(content, Close, i, e);
  }

  /** A marker-free head in front of marker-free segments. */
  lemma MarkerFreeCons(segs: seq<Segment>)
    requires segs != [] && MarkerFree(segs[0]) && AllMarkerFree(segs[1..])
    ensures AllMarkerFree(segs)
  {
    forall k | 0 < k < |segs| ensures MarkerFree(segs[k]) {
      assert segs[k] == segs[1..][k - 1];
    }
  }

  /** A text-mode reading never puts two text segments side by side. */
  lemma {:induction false} ReadingAlternates(content: string, i: nat, segs: seq<Segment>)
    requires i <= |content| && TextReading(content, i, segs)
    ensures NoTwoTexts(segs)
    decreases |content| - i, 1
  {
    if segs != [] {
      if segs[0].kind == Think {
        ThinkReadingAlternates(content, i + 7, segs);
      } else {
        var e := i + |segs[0].text|;
        if e < |content| {
          ThinkReadingAlternates(content, e + 7, segs[1..]);
        }
      }
    }
  }

  /** A think-mode reading never puts two text segments side by side, and starts with reasoning. */
  lemma {:induction false} ThinkReadingAlternates(content: string, i: nat, segs: seq<Segment>)
    requires i <= |content| && ThinkReading(content, i, segs)
    ensures NoTwoTexts(segs)
    ensures segs != [] ==> segs[0].kind == Think
    decreases |content| - i, 1
  {
    if segs != [] {
      var e := i + |segs[0].text|;
      if e < |content| {
        ReadingAlternates(content, e + 8, segs[1..]);
      }
    }
  }

  /**
   * Two places after `i` where `pat` first follows a stretch in which it
   * starts nowhere are the same place; the end of the content counts as
   * such a place.
   */
  lemma EndsAgree(content: string, pat: string, i: nat, e1: nat, e2: nat)
    requires i <= e1 <= |content| && NoneFrom(content, pat, i, e1)
    requires e1 == |content| || OccursAt(content, pat, e1)
    requires i <= e2 <= |content| && NoneFrom(content, pat, i, e2)
    requires e2 == |content| || OccursAt(content, pat, e2)
    ensures e1 == e2
  {
  }

  /**
   * How a text-mode reading starts: with nothing at the end of the
   * content; in think mode past an opener at the cursor; otherwise with a
   * text segment.
   */
  lemma TextHead(content: string, i: nat, segs: seq<Segment>)
    requires i <= |content| && TextReading(content, i, segs)
    ensures i == |content| ==> segs == []
    ensures OccursAt(content, Open, i) ==> ThinkReading(content, i + 7, segs)
    ensures i < |content| && !OccursAt(content, Open, i) ==> segs != [] && segs[0].kind == Text
  {
  }

  /** A text-mode reading with no opener at the cursor, inside the content, starts with text. */
  lemma StartsWithText(content: string, i: nat, segs: seq<Segment>)
    requires i < |content| && TextReading(content, i, segs) && !OccursAt(content, Open, i)
    ensures segs != [] && segs[0].kind == Text
  {
  }

  /** Two text-mode readings of the same content from the same cursor are the same. */
  lemma {:induction false} TextReadingsAgree(content: string, i: nat, a: seq<Segment>, b: seq<Segment>)
    requires i <= |content| && TextReading(content, i, a) && TextReading(content, i, b)
    ensures a == b
    decreases |content| - i, 2
  {
    if i == |content| {
      TextHead(content, i, a);
      TextHead(content, i, b);
    } else if OccursAt(content, Open, i) {
      OpenedReadingsAgree(content, i, a, b);
    } else {
      TextFirstReadingsAgree(content, i, a, b);
    }
  }

  /** Two text-mode readings at an opener agree: both read on in think mode past it. */
  lemma {:induction false} OpenedReadingsAgree(content: string, i: nat, a: seq<Segment>, b: seq<Segment>)
    requires i <= |content| && TextReading(content, i, a) && TextReading(content, i, b)
    requires OccursAt(content, Open, i)
    ensures a == b
    decreases |content| - i, 1
  {
    TextHead(content, i, a);
    TextHead(content, i, b);
    var next := i + 7;
    assert next <= |content|;
    ThinkReadingsAgree(content, next, a, b);
  }

  /** Two text-mode readings that start with text agree. */
  lemma {:induction false} TextFirstReadingsAgree(content: string, i: nat, a: seq<Segment>, b: seq<Segment>)
    requires i < |content| && TextReading(content, i, a) && TextReading(content, i, b)
    requires !OccursAt(content, Open, i)
    ensures a == b
    decreases |content| - i, 1
  {
    StartsWithText(content, i, a);
    StartsWithText(content, i, b);
    var e := TextHeadsAgree(content, i, a, b);
    if e < |content| {
      ThinkReadingsAgree(content, e + 7, a[1..], b[1..]);
    }
    SameParts(a, b);
  }

  /** Two think-mode readings of the same content from the same cursor are the same. */
  lemma {:induction false} ThinkReadingsAgree(content: string, i: nat, a: seq<Segment>, b: seq<Segment>)
    requires i <= |content| && ThinkReading(content, i, a) && ThinkReading(content, i, b)
    ensures a == b
    decreases |content| - i, 2
  {
    if i < |content| {
      var e := ThinkHeadsAgree(content, i, a, b);
      if e < |content| {
        TextReadingsAgree(content, e + 8, a[1..], b[1..]);
      }
      SameParts(a, b);
    }
  }

  /** Two text-mode readings that start with text start with the same segment, ending at `e`. */
  lemma TextHeadsAgree(content: string, i: nat, a: seq<Segment>, b: seq<Segment>) returns (e: nat)
    requires i <= |content| && TextReading(content, i, a) && TextReading(content, i, b)
    requires a != [] && a[0].kind == Text && b != [] && b[0].kind == Text
    ensures e == i + |a[0].text| <= |content| && a[0] == b[0]
    ensures e < |content| ==> e + 7 <= |content|
    ensures e == |content| ==> |a| == |b| == 1
  {
    e := i + |a[0].text|;
    EndsAgree(content, Open, i, e, i + |b[0].text|);
  }

  /** Two think-mode readings inside the content start with the same segment, ending at `e`. */
  lemma ThinkHeadsAgree(content: string, i: nat, a: seq<Segment>, b: seq<Segment>) returns (e: nat)
    requires i < |content| && ThinkReading(content, i, a) && ThinkReading(content, i, b)
    ensures a != [] && b != [] && e == i + |a[0].text| <= |content| && a[0] == b[0]
    ensures e < |content| ==> e + 8 <= |content|
    ensures e == |content| ==> |a| == |b| == 1
  {
    e := i + |a[0].text|;
    EndsAgree(content, Close, i, e, i + |b[0].text|);
  }

  /** Sequences with the same head and the same tail are the same. */
  lemma SameParts<T>(a: seq<T>, b: seq<T>)
    requires a != [] && b != [] && a[0] == b[0] && a[1..] == b[1..]
    ensures a == b
  {
    assert a == [a[0]] + a[1..] && b == [b[0]] + b[1..];
  }

  /** When a slice of `s` holds `pat`, `s` holds `pat` at the matching place. */
  lemma OccursInSlice(s: string, pat: string, a: int, b: int, j: int)
    requires 0 <= a <= b <= |s|
    requires OccursAt(s[a..b], pat, j)
    ensures OccursAt(s, pat, a + j) && a + j + |pat| <= b
  {
    forall t | 0 <= t < |pat| ensures s[a + j + t] == pat[t] {
      assert s[a..b][j + t] == pat[t];
    }
  }

  /** When `s` holds `pat` inside the slice `a..b`, the slice holds it at the matching place. */
  lemma OccursOfSlice(s: string, pat: string, a: int, b: int, k: int)
    requires 0 <= a <= k && k + |pat| <= b <= |s|
    requires OccursAt(s, pat, k)
    ensures OccursAt(s[a..b], pat, k - a)
  {
    forall t | 0 <= t < |pat| ensures s[a..b][k - a + t] == pat[t] {
      assert s[k + t] == pat[t];
    }
  }

  /** A slice in which `pat` starts nowhere does not contain `pat`. */
  lemma SliceFree(s: string, pat: string, a: int, b: int)
    requires pat != []
    requires 0 <= a <= b <= |s|
    requires NoneFrom(s, pat, a, b)
    ensures !Contains(s[a..b], pat)
  {
    forall j | 0 <= j <= b - a + 1 ensures !OccursAt(s[a..b], pat, j) {
      if OccursAt(s[a..b], pat, j) {
        OccursInSlice(s, pat, a, b, j);
      }
    }
    IndexOfIs(s[a..b], pat, 0, -1);
  }

  /** `IndexOf` returns the first occurrence at or after `from`, whichever way it is known. */
  lemma IndexOfIs(s: string, pat: string, from: nat, r: int)
    requires from <= |s|
    requires r == -1 || (from <= r && OccursAt(s, pat, r))
    requires NoneFrom(s, pat, from, if r == -1 then |s| + 1 else r)
    ensures IndexOf(s, pat, from) == r
  {
    var q := IndexOf(s, pat, from);
    IndexOfFirst(s, pat, from);
    if r == -1 {
      assert q == -1;
    } else {
      assert q != -1;
      assert !(q < r) && !(r < q);
    }
  }

  /**
   * The first character of each marker, `<`, appears nowhere else in it,
   * so an occurrence of a marker cannot start inside another one.
   */
  predicate HeadOnce(pat: string) {
    pat != [] && forall t :: 0 < t < |pat| ==> pat[t] != pat[0]
  }

  /** Both markers start with their only `<`. */
  lemma MarkersHeadOnce()
    ensures HeadOnce(Open) && HeadOnce(Close)
  {
    forall t | 0 < t < |Open| ensures Open[t] != Open[0] {
      assert t in {1, 2, 3, 4, 5, 6};
    }
    forall t | 0 < t < |Close| ensures Close[t] != Close[0] {
      assert t in {1, 2, 3, 4, 5, 6, 7};
    }
  }

  /**
   * Where `content[i..e]` holds no `pat`, and `pat` follows at `e` or `e`
   * is the end, `pat` starts nowhere from `i` up to `e`: an occurrence
   * running into `e` would have `pat`'s first character inside `pat`.
   */
  lemma FirstAfter(content: string, pat: string, i: nat, e: nat)
    requires i <= e <= |content| && HeadOnce(pat)
    requires !Contains(content[i..e], pat)
    requires e == |content| || OccursAt(content, pat, e)
    ensures NoneFrom(content, pat, i, e)
  {
    ContainsOccurs(content[i..e], pat);
    forall k | i <= k < e ensures !OccursAt(content, pat, k) {
      if k + |pat| <= e {
        if OccursAt(content, pat, k) {
          OccursOfSlice(content, pat, i, e, k);
        }
      } else if e < |content| && k + |pat| <= |content| {
        assert content[e + 0] == pat[0];
        assert content[k + (e - k)] != pat[e - k];
      }
    }
  }

  /** Content without `<think>` is one text segment, or none when it is empty. */
  lemma NoOpenerOneText(content: string)
    requires !Contains(content, Open)
    ensures ScanText(content, 0) == if content == [] then [] else [Segment(Text, content)]
  {
    if content != [] {
      TextLast(content, 0);
      assert content[0..] == content;
    }
  }

  /** A segment of the given kind holding `s`, or none when `s` is empty. */
  function Piece(kind: Kind, s: string): (segs: seq<Segment>) {
    if s == [] then [] else [Segment(kind, s)]
  }

  /**
   * A closed reasoning region between two texts: text without `<think>`,
   * then `<think>`, reasoning without `</think>`, `</think>`, and text
   * without `<think>` gives the outer texts (when non-empty) around one
   * reasoning segment (even an empty one), all untrimmed.
   */
  lemma ClosedRegion(before: string, inside: string, after: string)
    requires !Contains(before, Open) && !Contains(inside, Close) && !Contains(after, Open)
    ensures ScanText(before + Open + inside + Close + after, 0)
      == Piece(Text, before) + [Segment(Think, inside)] + Piece(Text, after)
  {
    var content := before + Open + inside + Close + after;
    var rest := [Segment(Think, inside)] + Piece(Text, after);
    ClosedRest(content, before + Open, inside, after);
    assert content[0..|before|] == before;
    assert content[|before|..|before| + 7] == Open;
    MarkersHeadOnce();
    OccursSlice(content, Open, |before|);
    FirstAfter(content, Open, 0, |before|);
    ReadTextOpened(content, 0, |before|, rest);
    ScanUnique(content, Piece(Text, before) + rest);
    AppendAssoc(Piece(Text, before), [Segment(Think, inside)], Piece(Text, after));
  }

  /** The part of a closed region past its opener reads in think mode. */
  lemma ClosedRest(content: string, head: string, inside: string, after: string)
    requires content == head + inside + Close + after
    requires !Contains(inside, Close) && !Contains(after, Open)
    ensures ThinkReading(content, |head|, [Segment(Think, inside)] + Piece(Text, after))
  {
    var p := |head|;
    var q := p + |inside|;
    assert content[p..q] == inside;
    assert content[q..q + 8] == Close;
    assert content[q + 8..|content|] == after;
    MarkersHeadOnce();
    OccursSlice(content, Close, q);
    FirstAfter(content, Close, p, q);
    FirstAfter(content, Open, q + 8, |content|);
    ReadTextTail(content, q + 8);
    ReadThinkClosed(content, p, q, Piece(Text, after));
  }

  /**
   * An unterminated reasoning region: text without `<think>`, then
   * `<think>` and reasoning without `</think>` to the end, gives the text
   * (when non-empty) and the reasoning (when non-empty), untrimmed.
   */
  lemma UnterminatedRegion(before: string, inside: string)
    requires !Contains(before, Open) && !Contains(inside, Close)
    ensures ScanText(before + Open + inside, 0) == Piece(Text, before) + Piece(Think, inside)
  {
    var content := before + Open + inside;
    var p := |before| + 7;
    assert content[0..|before|] == before;
    assert content[|before|..p] == Open;
    assert content[p..|content|] == inside;
    MarkersHeadOnce();
    OccursSlice(content, Open, |before|);
    FirstAfter(content, Open, 0, |before|);
    FirstAfter(content, Close, p, |content|);
    ReadThinkTail(content, p);
    ReadTextOpened(content, 0, |before|, Piece(Think, inside));
    ScanUnique(content, Piece(Text, before) + Piece(Think, inside));
  }

  /** `pat` occurs at `k` exactly when the slice of `s` there is `pat`. */
  lemma OccursSlice(s: string, pat: string, k: nat)
    requires k + |pat| <= |s|
    ensures OccursAt(s, pat, k) <==> s[k..k + |pat|] == pat
  {
    if OccursAt(s, pat, k) {
      forall t | 0 <= t < |pat| ensures s[k..k + |pat|][t] == pat[t] { }
    }
  }

  /**
   * What a message shows: a user's message is one untrimmed block, even
   * when it contains markers; any other message (an assistant's answer or
   * an error) is split by the scan and each piece is trimmed.
   */
  function Rendered(message: ChatMessage): (blocks: seq<Segment>)
    ensures message.role == User ==> blocks == [Segment(Text, message.content)]
    ensures message.role != User ==> |blocks| == |ScanText(message.content, 0)|
  {
    if message.role == User then [Segment(Text, message.content)]
    else
      var segs := ScanText(message.content, 0);
      seq(|segs|, k requires 0 <= k < |segs| => Segment(segs[k].kind, DisplayText(segs[k])))
  }

}

/** `renderContent` (src/components/ChatMessage.tsx): a message's text is split around
    the lazy fence regex with a capturing group, so matches sit at the odd positions of
    the result and the text around them at the even positions; code parts are shown as
    a language label over a code body, the rest as prose. A message still loading shows
    a typing indicator instead of its content. */
module ChatMessage {

  import opened Strings
  import opened Options
  import opened FenceScan

  datatype Sender = User | Assistant

  /** A chat message; `isLoading` is the source's optional flag, absent meaning false. */
  datatype Message = Message(id: string, content: string, sender: Sender, timestamp: int, isLoading: bool)

  datatype Segment = Prose(text: string) | Code(language: string, body: string)

  /** What a message bubble shows. */
  datatype Bubble = Typing | Rendered(segments: seq<Segment>)

  /** The label used when a block declares no language. */
  const DefaultLanguage: string := "groovy"

  /** The longest prefix of `s` made of word characters (what a greedy `\w*` takes). */
  function LeadingWord(s: string): (w: string)
    ensures |w| <= |s| && w == s[..|w|] && AllWord(w)
    ensures |w| < |s| ==> !IsWordChar(s[|w|])
  {
    if |s| > 0 && IsWordChar(s[0]) then [s[0]] + LeadingWord(s[1..]) else ""
  }

  /** `part.replace(/^```[\w]*\n?/, '')`: an opening fence, the word after it and one
      newline after that are removed; a part not opening with a fence is kept. */
  function StripOpening(part: string): (r: string)
    ensures |r| <= |part| && r == part[|part| - |r|..]
    ensures !StartsWith(part, Fence) ==> r == part
    ensures StartsWith(part, Fence) ==> |r| <= |part| - 3
  {
    if StartsWith(part, Fence) then
      var rest := part[3..];
      var tail := rest[|LeadingWord(rest)|..];
      if |tail| > 0 && tail[0] == '\n' then tail[1..] else tail
    else part
  }

  /** `.replace(/\n?```$/, '')`: a closing fence, with one newline before it if there is
      one, is removed; a text not ending with a fence is kept. */
  function StripClosing(t: string): (r: string)
    ensures |r| <= |t| && r == t[..|r|]
    ensures !EndsWith(t, Fence) ==> r == t
    ensures EndsWith(t, Fence) ==> |t| - 4 <= |r| <= |t| - 3
  {
    if EndsWith(t, Fence) then
      if |t| >= 4 && t[|t| - 4] == '\n' then t[..|t| - 4] else t[..|t| - 3]
    else t
  }

  /** The code shown for a code part: a contiguous piece of the part, at least the
      opening fence shorter, taken after the opening line. */
  function CodeBody(part: string): (r: string)
    ensures var k := |part| - |StripOpening(part)|; k + |r| <= |part| && r == part[k..k + |r|]
    ensures StartsWith(part, Fence) ==> |r| <= |part| - 3
    ensures !StartsWith(part, Fence) && !EndsWith(part, Fence) ==> r == part
  {
    StripClosing(StripOpening(part))
  }

  /** `part.match(/^```(\w+)/)?.[1] || 'groovy'`: the non-empty word right after the
      opening fence, or the default label. */
  function Language(part: string): (lang: string)
    ensures StartsWith(part, Fence) && |part| > 3 && IsWordChar(part[3]) ==>
      && |lang| > 0 && AllWord(lang) && StartsWith(part, Fence + lang)
      && (|part| == |lang| + 3 || !IsWordChar(part[|lang| + 3]))
    ensures !(StartsWith(part, Fence) && |part| > 3 && IsWordChar(part[3])) ==> lang == DefaultLanguage
  {
    if StartsWith(part, Fence) && |LeadingWord(part[3..])| > 0 then
      var w := LeadingWord(part[3..]);
      assert part[..|w| + 3] == Fence + w;
      w
    else DefaultLanguage
  }

  /** The classification in `renderContent`: a part is code when it starts and ends
      with a fence. */
  function IsCodePart(part: string): (b: bool)
    ensures b <==> FenceAt(part, 0) && FenceAt(part, |part| - 3)
  {
    StartsWith(part, Fence) && EndsWith(part, Fence)
  }

  /** The code segment of a part: its language label and its body. */
  function CodeSegment(part: string): Segment
  {
    Code(Language(part), CodeBody(part))
  }

  /** One split part, shown as code or as prose. */
  function RenderPart(part: string, code: bool): Segment
  {
    if code then CodeSegment(part) else Prose(part)
  }

  /** The source's classification of one split part. */
  function RenderPartAsWritten(part: string): Segment
  {
    RenderPart(part, IsCodePart(part))
  }

  /** `renderContent` as written: every split part classified by its own ends. */
  function RenderContentAsWritten(content: string): (segs: seq<Segment>)
    ensures |segs| == 2 * |Spans(content, 0)| + 1 == |Split(content)|
    ensures forall i :: 0 <= i < |segs| ==>
      segs[i] == (if IsCodePart(Split(content)[i]) then CodeSegment(Split(content)[i]) else Prose(Split(content)[i]))
  {
    var parts := Split(content);
    seq(|parts|, i requires 0 <= i < |parts| => RenderPartAsWritten(parts[i]))
  }

  /** `renderContent` with parts classified by their split position: the matches are
      code, the text around them prose. */
  function RenderContent(content: string): (segs: seq<Segment>)
    ensures |segs| == 2 * |Spans(content, 0)| + 1 == |Split(content)|
    ensures forall i :: 0 <= i < |segs| ==> (segs[i].Code? <==> i % 2 == 1)
    ensures forall i :: 0 <= i < |segs| ==>
      segs[i] == (if i % 2 == 1 then CodeSegment(Split(content)[i]) else Prose(Split(content)[i]))
  {
    var parts := Split(content);
    seq(|parts|, i requires 0 <= i < |parts| => RenderPart(parts[i], i % 2 == 1))
  }

  /** The message bubble: a loading message never has its content segmented. */
  function RenderMessage(m: Message): (b: Bubble)
    ensures m.isLoading <==> b.Typing?
    ensures b.Rendered? ==> |b.segments| == 2 * |Spans(m.content, 0)| + 1
  {
    if m.isLoading then Typing else Rendered(RenderContent(m.content))
  }

  /** The leading word of a word followed by a non-word character is that word. */
  lemma LeadingWordOf(w: string, rest: string)
    requires AllWord(w) && (|rest| == 0 || !IsWordChar(rest[0]))
    ensures LeadingWord(w + rest) == w
  {
    assert (w + rest)[..|w|] == w;
  }

  /** The opening regex removes the fence, the whole word after it and the newline
      that follows when there is one; the word, when non-empty, is the language. */
  lemma OpeningOf(w: string, nl: string, after: string)
    requires AllWord(w) && (nl == "" || nl == "\n") && |after| > 0
    requires nl == "" ==> !IsWordChar(after[0]) && after[0] != '\n'
    ensures StripOpening(Fence + w + nl + after) == after
    ensures Language(Fence + w + nl + after) == if |w| > 0 then w else DefaultLanguage
  {
    var part := Fence + w + nl + after;
    assert part[..3] == Fence;
    var rest := part[3..];
    assert rest == w + (nl + after);
    LeadingWordOf(w, nl + after);
    assert rest[|w|..] == nl + after;
    if |w| == 0 {
      assert part[3] == (nl + after)[0];
    } else {
      assert part[3] == w[0];
    }
  }

  /** The closing regex removes the fence and at most one newline before it. */
  lemma ClosingOf(body: string, nl: string)
    requires nl == "" || nl == "\n"
    requires nl == "" ==> |body| == 0 || body[|body| - 1] != '\n'
    ensures StripClosing(body + nl + Fence) == body
  {
    var t := body + nl + Fence;
    assert t[|t| - 3..] == Fence;
    if nl == "\n" {
      assert t[|t| - 4] == '\n';
      assert t[..|t| - 4] == body;
    } else if |body| > 0 {
      assert t[|t| - 4] == body[|body| - 1];
      assert t[..|t| - 3] == body;
    } else {
      assert t[..|t| - 3] == body;
    }
  }

  /** The code body of a block is what lies between, on one side, the opening fence, the
      word after it and at most one newline, and on the other side at most one newline
      and the closing fence; the language is that word, or the default label when there
      is none. The side conditions make the split of the block into these pieces the
      one the two regular expressions choose. */
  lemma CodeBodyOfBlock(w: string, nl1: string, body: string, nl2: string)
    requires AllWord(w)
    requires nl1 == "" || nl1 == "\n"
    requires nl2 == "" || nl2 == "\n"
    requires nl1 == "" ==> var after := body + nl2 + Fence; !IsWordChar(after[0]) && after[0] != '\n'
    requires nl2 == "" ==> |body| == 0 || body[|body| - 1] != '\n'
    ensures CodeSegment(Fence + w + nl1 + (body + nl2 + Fence))
      == Code(if |w| > 0 then w else DefaultLanguage, body)
  {
    var after := body + nl2 + Fence;
    var part := Fence + w + nl1 + after;
    OpeningOf(w, nl1, after);
    ClosingOf(body, nl2);
    assert CodeBody(part) == body;
  }

  /** A canonical block read back: the renderer recovers exactly the tag and body the
      block was written from. */
  lemma RenderFencedBlock(lang: string, body: string)
    requires AllWord(lang) && NoFence(body)
    ensures RenderContent(FencedBlock(lang, body))
      == [Prose(""), Code(if |lang| > 0 then lang else DefaultLanguage, body), Prose("")]
  {
    var x := FencedBlock(lang, body);
    SingleBlockScan(lang, body);
    BlockAsOpeningAndRest(lang, body);
    CodeBodyOfBlock(lang, "\n", body, "\n");
    SegmentAt(x, 0);
    SegmentAt(x, 1);
    SegmentAt(x, 2);
    ThreeSegments(RenderContent(x), Code(if |lang| > 0 then lang else DefaultLanguage, body));
  }

  /** A block read as its opening line followed by the body and the closing line. */
  lemma BlockAsOpeningAndRest(lang: string, body: string)
    ensures FencedBlock(lang, body) == Fence + lang + "\n" + (body + "\n" + Fence)
  {
  }

  /** A three-segment rendering, element by element. */
  lemma ThreeSegments(segs: seq<Segment>, code: Segment)
    requires |segs| == 3 && segs[0] == Prose("") && segs[1] == code && segs[2] == Prose("")
    ensures segs == [Prose(""), code, Prose("")]
  {
  }

  /** A text without a complete fence pair is one prose segment, unchanged. */
  lemma UnmatchedIsProse(content: string)
    requires !HasFencePair(content, 0)
    ensures Split(content) == [content]
    ensures RenderContent(content) == [Prose(content)]
  {
    assert NextMatch(content, 0) == None;
    assert content[0..] == content;
  }

  /** Text between two matches, or before the first, never opens with a fence. */
  lemma GapNotCode(s: string, from: nat, sp: Span)
    requires IsMatchFrom(s, from, sp)
    ensures !StartsWith(s[from..sp.start], Fence)
  {
    if StartsWith(s[from..sp.start], Fence) {
      assert s[from..sp.start][..3] == s[from..from + 3];
      assert FenceAt(s, from);
    }
  }

  /** The text after the last match starts and ends with a fence only when it is three
      to five characters long. */
  lemma TailCodeOnlyWhenShort(s: string, c: nat)
    requires c <= |s| && !HasFencePair(s, c)
    ensures IsCodePart(s[c..]) ==> 3 <= |s| - c < 6
  {
    var t := s[c..];
    if IsCodePart(t) && |t| >= 6 {
      assert t[..3] == s[c..c + 3];
      assert t[|t| - 3..] == s[|s| - 3..];
      assert FenceAt(s, c) && FenceAt(s, |s| - 3);
    }
  }

  /** A part at an odd position starts and ends with a fence. */
  lemma OddPartIsCode(content: string, k: nat)
    requires 2 * k + 1 < |Split(content)|
    ensures IsCodePart(Split(content)[2 * k + 1])
  {
    MatchedPartsAreBlocks(content);
  }

  /** A part at an even position other than the last never opens with a fence. */
  lemma EvenPartIsNotCode(content: string, k: nat)
    requires 2 * k + 1 < |Split(content)|
    ensures !IsCodePart(Split(content)[2 * k])
  {
    var spans := Spans(content, 0);
    var parts := Split(content);
    SplitFromParts(content, 0);
    assert parts == SplitFrom(content, 0);
    ScanAt(content, 0, spans, k);
    assert parts[2 * k] == content[Cursor(0, spans, k)..spans[k].start];
    GapNotCode(content, Cursor(0, spans, k), spans[k]);
  }

  /** The last part starts and ends with a fence only when it is three to five
      characters long. */
  lemma LastPartCodeOnlyWhenShort(content: string)
    ensures var parts := Split(content); var last := parts[|parts| - 1];
      IsCodePart(last) ==> 3 <= |last| < 6
  {
    var spans := Spans(content, 0);
    var parts := Split(content);
    var c := Cursor(0, spans, |spans|);
    SplitFromParts(content, 0);
    assert parts == SplitFrom(content, 0);
    assert parts[|parts| - 1] == content[c..];
    TailCodeOnlyWhenShort(content, c);
  }

  /** Every part but the last starts and ends with a fence exactly when it is at an odd
      position. */
  lemma ClassAgrees(content: string, i: nat)
    requires i + 1 < |Split(content)|
    ensures IsCodePart(Split(content)[i]) == (i % 2 == 1)
  {
    var k := i / 2;
    if i % 2 == 1 {
      assert i == 2 * k + 1;
      OddPartIsCode(content, k);
    } else {
      assert i == 2 * k;
      EvenPartIsNotCode(content, k);
    }
  }

  /** Twice a number is even; kept apart so that the parity step is proved away from
      the definitions of the split. */
  lemma Even(n: nat, m: int)
    requires m == 2 * n
    ensures m % 2 == 0
  {
  }

  /** The last split part sits at an even position. */
  lemma LastIsEven(content: string)
    ensures (|Split(content)| - 1) % 2 == 0
  {
    Even(|Spans(content, 0)|, |Split(content)| - 1);
  }

  /** The i-th segment of either renderer is the rendering of the i-th part. */
  lemma SegmentAt(content: string, i: nat)
    requires i < |Split(content)|
    ensures RenderContentAsWritten(content)[i] == RenderPart(Split(content)[i], IsCodePart(Split(content)[i]))
    ensures RenderContent(content)[i] == RenderPart(Split(content)[i], i % 2 == 1)
  {
  }

  /** The source's classification agrees with the positional one everywhere except,
      possibly, on a final part of three to five characters that starts and ends with a
      fence. */
  lemma AsWrittenAgreesExceptShortTail(content: string)
    ensures var a := RenderContentAsWritten(content); var r := RenderContent(content);
      var parts := Split(content); var last := |parts| - 1;
      && |a| == |r| == |parts|
      && (forall i :: 0 <= i < last ==> a[i] == r[i])
      && (a[last] != r[last] ==> IsCodePart(parts[last]) && 3 <= |parts[last]| < 6)
  {
    var parts := Split(content);
    var last := |parts| - 1;
    forall i | 0 <= i < last
      ensures RenderContentAsWritten(content)[i] == RenderContent(content)[i]
    {
      ClassAgrees(content, i);
      SegmentAt(content, i);
    }
    LastPartCodeOnlyWhenShort(content);
    LastIsEven(content);
    SegmentAt(content, last);
  }

  /** The discrepancy, on a concrete message: three backticks alone are no match, yet
      the source shows them as an empty code block labelled with the default language,
      where the positional classification keeps them as prose. */
  lemma LoneFenceShownAsCode()
    ensures !HasFencePair("```", 0)
    ensures RenderContentAsWritten("```") == [Code(DefaultLanguage, "")]
    ensures RenderContent("```") == [Prose("```")]
  {
    var s := "```";
    assert !HasFencePair(s, 0);
    UnmatchedIsProse(s);
    assert IsCodePart(s);
    assert LeadingWord(s[3..]) == "";
    assert StripOpening(s) == "";
  }

  /** The bubble as the source builds it at line 74 of the component: a loading message
      shows the typing indicator, any other message the segmentation with the source's
      own classification. */
  function RenderMessageAsWritten(m: Message): (b: Bubble)
    ensures m.isLoading <==> b.Typing?
    ensures b.Rendered? ==> |b.segments| == 2 * |Spans(m.content, 0)| + 1
  {
    if m.isLoading then Typing else Rendered(RenderContentAsWritten(m.content))
  }

  /** The two renderings of a text differ, if at all, only through a final part of three
      to five characters that starts and ends with a fence. */
  lemma RenderingsDifferOnlyAtTail(content: string)
    ensures var parts := Split(content);
      RenderContentAsWritten(content) != RenderContent(content) ==>
        IsCodePart(parts[|parts| - 1]) && 3 <= |parts[|parts| - 1]| < 6
  {
    var x := RenderContentAsWritten(content);
    var y := RenderContent(content);
    AsWrittenAgreesExceptShortTail(content);
    var last := |x| - 1;
    if x[last] == y[last] {
      SameButLast(x, y);
    }
  }

  /** Two renderings of equal length that agree before and at the last segment are equal. */
  lemma SameButLast(x: seq<Segment>, y: seq<Segment>)
    requires |x| == |y| > 0
    requires forall i :: 0 <= i < |x| - 1 ==> x[i] == y[i]
    requires x[|x| - 1] == y[|y| - 1]
    ensures x == y
  {
    assert forall i :: 0 <= i < |x| ==> x[i] == y[i];
  }

  /** The source's bubble and the corrected one show the same thing, except possibly
      for the last segment of a message ending in a short fenced tail. */
  lemma BubblesAgreeExceptShortTail(m: Message)
    ensures var a := RenderMessageAsWritten(m); var r := RenderMessage(m);
      && (a.Typing? <==> r.Typing?)
      && (a.Rendered? ==>
            && |a.segments| == |r.segments|
            && (forall i :: 0 <= i < |a.segments| - 1 ==> a.segments[i] == r.segments[i])
            && (a != r ==> var parts := Split(m.content);
                  IsCodePart(parts[|parts| - 1]) && 3 <= |parts[|parts| - 1]| < 6))
  {
    if !m.isLoading {
      AsWrittenAgreesExceptShortTail(m.content);
      RenderingsDifferOnlyAtTail(m.content);
    }
  }

  /** A message of three backticks alone: the source's bubble shows an empty code block,
      the corrected one shows the text. */
  lemma LoneFenceBubble(id: string, sender: Sender, timestamp: int)
    ensures RenderMessageAsWritten(Message(id, "```", sender, timestamp, false)) == Rendered([Code(DefaultLanguage, "")])
    ensures RenderMessage(Message(id, "```", sender, timestamp, false)) == Rendered([Prose("```")])
  {
    LoneFenceShownAsCode();
  }
}

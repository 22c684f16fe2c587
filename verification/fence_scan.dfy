/** The regular expression /```[\s\S]*?```/g that both the response formatter
    (src/utils/codeFormatter.ts) and the message renderer (src/components/ChatMessage.tsx)
    run over a text. A match opens at the first three-backtick fence at or after the
    search cursor and closes at the first fence that starts at least three characters
    later (the lazy `*?`); the cursor then moves past the match. When an opening fence
    has no closer, no later fence has one either, so the scan stops. The scan is defined
    once (NextMatch) and `split` with a capture group, `replace` with a callback and the
    list of all matches are each built on it. */
module FenceScan {

  import opened Options
  import opened Strings

  const Fence: string := "```"

  /** A span [start, end) of the scanned text; `end` is just past the closing fence. */
  datatype Span = Span(start: nat, end: nat)

  /** Three backticks start at position `i` of `s`. */
  predicate FenceAt(s: string, i: int)
  {
    0 <= i && i + 3 <= |s| && s[i] == '`' && s[i + 1] == '`' && s[i + 2] == '`'
  }

  /** No fence starts anywhere in `s`. */
  predicate NoFence(s: string)
  {
    forall k :: 0 <= k < |s| ==> !FenceAt(s, k)
  }

  /** Somewhere at or after `from` there is a fence and, at least three characters
      after its start, another fence: the regex has something to match. */
  ghost predicate HasFencePair(s: string, from: int)
  {
    exists i, j :: from <= i && i + 3 <= j && FenceAt(s, i) && FenceAt(s, j)
  }

  /** `m` is the match the regex reports when searching `s` from `from`: its opening
      fence is the leftmost fence at or after `from`, and its closing fence is the first
      one at or after the opening fence's end (non-greedy). */
  ghost predicate IsMatchFrom(s: string, from: int, m: Span)
  {
    && from <= m.start
    && m.start + 6 <= m.end <= |s|
    && FenceAt(s, m.start)
    && FenceAt(s, m.end - 3)
    && (forall k :: from <= k < m.start ==> !FenceAt(s, k))
    && (forall k :: m.start + 3 <= k < m.end - 3 ==> !FenceAt(s, k))
  }

  /** The first fence at or after `from`. */
  function FindFence(s: string, from: nat): (r: Option<nat>)
    decreases |s| - from
    ensures r.Some? ==> from <= r.value && FenceAt(s, r.value)
    ensures r.Some? ==> forall k :: from <= k < r.value ==> !FenceAt(s, k)
    ensures r.None? ==> forall k :: from <= k ==> !FenceAt(s, k)
  {
    if |s| < from + 3 then None
    else if FenceAt(s, from) then Some(from)
    else FindFence(s, from + 1)
  }

  /** One step of the global regex: the match found when searching from `from`. */
  function NextMatch(s: string, from: nat): (r: Option<Span>)
    ensures r.Some? ==> IsMatchFrom(s, from, r.value)
    ensures r.None? <==> !HasFencePair(s, from)
  {
    match FindFence(s, from)
    case None => None
    case Some(a) =>
      match FindFence(s, a + 3)
      case None => None
      case Some(c) =>
        assert FenceAt(s, a) && FenceAt(s, c);
        Some(Span(a, c + 3))
  }

  /** Where the i-th search of a scan that started at `from` begins. */
  function Cursor(from: nat, spans: seq<Span>, i: nat): nat
    requires i <= |spans|
  {
    if i == 0 then from else spans[i - 1].end
  }

  /** Each span of `spans` is the match found from the end of the previous one (from
      `from` for the first). */
  ghost predicate IsScanFrom(s: string, from: nat, spans: seq<Span>)
    decreases |spans|
  {
    |spans| == 0 || (IsMatchFrom(s, from, spans[0]) && IsScanFrom(s, spans[0].end, spans[1..]))
  }

  /** The spans lie inside `s`, in order, each at or after the previous one's end. */
  predicate Ordered(s: string, from: nat, spans: seq<Span>)
  {
    && (forall i :: 0 <= i < |spans| ==> spans[i].start <= spans[i].end <= |s|)
    && (forall i {:trigger Cursor(from, spans, i)} :: 0 <= i < |spans| ==> Cursor(from, spans, i) <= spans[i].start)
    && from <= Cursor(from, spans, |spans|)
  }

  /** A match followed by a scan from its end is a scan from the cursor. */
  lemma ScanCons(s: string, from: nat, m: Span, rest: seq<Span>)
    requires IsMatchFrom(s, from, m) && IsScanFrom(s, m.end, rest)
    requires Ordered(s, m.end, rest) && Cursor(m.end, rest, |rest|) <= |s|
    ensures IsScanFrom(s, from, [m] + rest) && Ordered(s, from, [m] + rest)
    ensures Cursor(from, [m] + rest, |rest| + 1) == Cursor(m.end, rest, |rest|)
  {
    assert ([m] + rest)[1..] == rest;
    OrderedCons(s, from, m, rest);
  }

  /** Every match of the global regex in `s` from `from` on, in order: each one is the
      match found from the end of the previous one, and after the last one nothing
      more matches. */
  function Spans(s: string, from: nat): (r: seq<Span>)
    requires from <= |s|
    decreases |s| - from
    ensures IsScanFrom(s, from, r) && Ordered(s, from, r)
    ensures Cursor(from, r, |r|) <= |s|
    ensures !HasFencePair(s, Cursor(from, r, |r|))
  {
    match NextMatch(s, from)
    case None => []
    case Some(m) =>
      var rest := Spans(s, m.end);
      ScanCons(s, from, m, rest);
      [m] + rest
  }

  /** `s.slice(from).split(/(```[\s\S]*?```)/)`: the text before the first match, the
      match itself, the text up to the next match, and so on, ending with the text
      after the last match. */
  function SplitFrom(s: string, from: nat): (parts: seq<string>)
    requires from <= |s|
    decreases |s| - from
    ensures |parts| == 2 * |Spans(s, from)| + 1
    ensures Concat(parts) == s[from..]
  {
    match NextMatch(s, from)
    case None => [s[from..]]
    case Some(m) =>
      var rest := SplitFrom(s, m.end);
      ConcatCons2(s[from..m.start], s[m.start..m.end], rest);
      SliceJoin(s, from, m.start, m.end);
      [s[from..m.start], s[m.start..m.end]] + rest
  }

  /** A suffix is the concatenation of its consecutive slices. */
  lemma SliceJoin(s: string, a: nat, b: nat, c: nat)
    requires a <= b <= c <= |s|
    ensures s[a..] == s[a..b] + s[b..c] + s[c..]
  {
  }

  /** `s.split(/(```[\s\S]*?```)/g)`: gaps at even positions, matches at odd ones. */
  function Split(s: string): (parts: seq<string>)
    ensures |parts| == 2 * |Spans(s, 0)| + 1
    ensures Concat(parts) == s
  {
    assert s[0..] == s;
    SplitFrom(s, 0)
  }

  /** `s.slice(from).replace(/```[\s\S]*?```/g, f)`: every match replaced by `f` of it,
      everything between matches copied. */
  function ReplaceFrom(s: string, from: nat, f: string -> string): (r: string)
    requires from <= |s|
    decreases |s| - from
    ensures !HasFencePair(s, from) ==> r == s[from..]
  {
    match NextMatch(s, from)
    case None => s[from..]
    case Some(m) => s[from..m.start] + f(s[m.start..m.end]) + ReplaceFrom(s, m.end, f)
  }

  /** `s.replace(/```[\s\S]*?```/g, f)` on the whole text. */
  function Replace(s: string, f: string -> string): (r: string)
    ensures !HasFencePair(s, 0) ==> r == s
  {
    ReplaceFrom(s, 0, f)
  }

  /** The odd-position parts are the spans' text and the even-position parts the text
      between consecutive spans (before the first, after the last). */
  ghost predicate PartsFollow(s: string, from: nat, spans: seq<Span>, parts: seq<string>)
    requires Ordered(s, from, spans) && Cursor(from, spans, |spans|) <= |s|
  {
    && |parts| == 2 * |spans| + 1
    && (forall i :: 0 <= i < |spans| ==> parts[2 * i + 1] == s[spans[i].start..spans[i].end])
    && (forall i {:trigger Cursor(from, spans, i)} :: 0 <= i < |spans| ==> parts[2 * i] == s[Cursor(from, spans, i)..spans[i].start])
    && parts[2 * |spans|] == s[Cursor(from, spans, |spans|)..]
  }

  /** Putting a match in front of an ordered scan from its end keeps the scan ordered. */
  lemma OrderedCons(s: string, from: nat, m: Span, spans: seq<Span>)
    requires from <= m.start <= m.end <= |s|
    requires Ordered(s, m.end, spans) && Cursor(m.end, spans, |spans|) <= |s|
    ensures Ordered(s, from, [m] + spans) && Cursor(from, [m] + spans, |spans| + 1) <= |s|
  {
    var sp := [m] + spans;
    forall i | 0 <= i < |sp|
      ensures sp[i].start <= sp[i].end <= |s|
      ensures Cursor(from, sp, i) <= sp[i].start
    {
      if i > 0 {
        assert sp[i] == spans[i - 1];
        assert Cursor(from, sp, i) == Cursor(m.end, spans, i - 1);
      }
    }
    assert Cursor(from, sp, |sp|) == Cursor(m.end, spans, |spans|);
  }

  /** The odd parts stay the matched texts when a gap and a match are put in front. */
  lemma OddPartsCons(s: string, from: nat, m: Span, spans: seq<Span>, parts: seq<string>)
    requires from <= m.start <= m.end <= |s|
    requires Ordered(s, m.end, spans) && Cursor(m.end, spans, |spans|) <= |s|
    requires PartsFollow(s, m.end, spans, parts)
    ensures var sp := [m] + spans; var ps := [s[from..m.start], s[m.start..m.end]] + parts;
      forall i :: 0 <= i < |sp| ==> ps[2 * i + 1] == s[sp[i].start..sp[i].end]
  {
    var sp := [m] + spans;
    var ps := [s[from..m.start], s[m.start..m.end]] + parts;
    forall i | 1 <= i < |sp|
      ensures ps[2 * i + 1] == s[sp[i].start..sp[i].end]
    {
      assert sp[i] == spans[i - 1];
      assert ps[2 * i + 1] == parts[2 * (i - 1) + 1];
    }
  }

  /** The even parts stay the gaps when a gap and a match are put in front. */
  lemma EvenPartsCons(s: string, from: nat, m: Span, spans: seq<Span>, parts: seq<string>)
    requires from <= m.start <= m.end <= |s|
    requires Ordered(s, m.end, spans) && Cursor(m.end, spans, |spans|) <= |s|
    requires Ordered(s, from, [m] + spans)
    requires PartsFollow(s, m.end, spans, parts)
    ensures var sp := [m] + spans; var ps := [s[from..m.start], s[m.start..m.end]] + parts;
      forall i {:trigger Cursor(from, sp, i)} :: 0 <= i < |sp| ==> ps[2 * i] == s[Cursor(from, sp, i)..sp[i].start]
  {
    var sp := [m] + spans;
    var ps := [s[from..m.start], s[m.start..m.end]] + parts;
    forall i | 1 <= i < |sp|
      ensures ps[2 * i] == s[Cursor(from, sp, i)..sp[i].start]
    {
      assert sp[i] == spans[i - 1];
      assert ps[2 * i] == parts[2 * (i - 1)];
      assert Cursor(from, sp, i) == Cursor(m.end, spans, i - 1);
    }
    assert Cursor(from, sp, 0) == from;
  }

  /** Both together: the split layout survives putting a gap and a match in front. */
  lemma PartsCons(s: string, from: nat, m: Span, spans: seq<Span>, parts: seq<string>)
    requires from <= m.start <= m.end <= |s|
    requires Ordered(s, m.end, spans) && Cursor(m.end, spans, |spans|) <= |s|
    requires PartsFollow(s, m.end, spans, parts)
    ensures Ordered(s, from, [m] + spans) && Cursor(from, [m] + spans, |spans| + 1) <= |s|
    ensures PartsFollow(s, from, [m] + spans, [s[from..m.start], s[m.start..m.end]] + parts)
  {
    OrderedCons(s, from, m, spans);
    OddPartsCons(s, from, m, spans, parts);
    EvenPartsCons(s, from, m, spans, parts);
    var sp := [m] + spans;
    var ps := [s[from..m.start], s[m.start..m.end]] + parts;
    assert ps[2 * |sp|] == parts[2 * |spans|];
    assert Cursor(from, sp, |sp|) == Cursor(m.end, spans, |spans|);
  }

  /** The i-th span of a scan is the match found from the end of the one before. */
  lemma {:induction false} ScanAt(s: string, from: nat, spans: seq<Span>, i: nat)
    requires IsScanFrom(s, from, spans) && i < |spans|
    ensures IsMatchFrom(s, Cursor(from, spans, i), spans[i])
    decreases i
  {
    if i > 0 {
      ScanAt(s, spans[0].end, spans[1..], i - 1);
      assert Cursor(from, spans, i) == Cursor(spans[0].end, spans[1..], i - 1);
    }
  }

  /** The parts of a split are exactly the scan's matches, at the odd positions, and
      the text between consecutive matches, at the even positions. */
  lemma {:induction false} SplitFromParts(s: string, from: nat)
    requires from <= |s|
    decreases |s| - from
    ensures PartsFollow(s, from, Spans(s, from), SplitFrom(s, from))
  {
    match NextMatch(s, from)
    case None =>
      assert Spans(s, from) == [];
    case Some(m) =>
      SplitFromParts(s, m.end);
      PartsCons(s, from, m, Spans(s, m.end), SplitFrom(s, m.end));
  }

  /** Replacing with a callback is the same as splitting and applying the callback
      to every odd-position part: the text outside the matches is kept verbatim and
      in order, and every match is rewritten exactly once. */
  lemma {:induction false} ReplaceIsSplice(s: string, from: nat, f: string -> string)
    requires from <= |s|
    decreases |s| - from
    ensures ReplaceFrom(s, from, f) == SpliceOdd(SplitFrom(s, from), f)
  {
    match NextMatch(s, from)
    case None =>
    case Some(m) =>
      ReplaceIsSplice(s, m.end, f);
      var parts := SplitFrom(s, from);
      assert parts[2..] == SplitFrom(s, m.end);
  }

  /** A fence in a slice is a fence of the text lying wholly inside the slice. */
  lemma FenceAtSlice(s: string, a: nat, b: nat, k: int)
    requires a <= b <= |s|
    ensures FenceAt(s[a..b], k) <==> 0 <= k && k + 3 <= b - a && FenceAt(s, a + k)
  {
  }

  /** A slice of a slice is a slice of the text. */
  lemma SliceOfSlice(s: string, a: nat, b: nat, i: nat, j: nat)
    requires a <= b <= |s| && i <= j <= b - a
    ensures s[a..b][i..j] == s[a + i..a + j]
  {
    assert forall k :: 0 <= k < j - i ==> s[a..b][i..j][k] == s[a + i..a + j][k];
  }

  /** The text of a match opens and closes with a fence and, the match being
      non-greedy, holds no fence between the two. */
  lemma MatchIsBlock(s: string, from: nat, sp: Span)
    requires IsMatchFrom(s, from, sp)
    ensures var m := s[sp.start..sp.end];
      |m| >= 6 && StartsWith(m, Fence) && EndsWith(m, Fence) && NoFence(m[3..|m| - 3])
  {
    var m := s[sp.start..sp.end];
    assert m[..3] == s[sp.start..sp.start + 3];
    assert m[|m| - 3..] == s[sp.end - 3..sp.end];
    var inner := m[3..|m| - 3];
    SliceOfSlice(s, sp.start, sp.end, 3, |m| - 3);
    forall k | 0 <= k < |inner|
      ensures !FenceAt(inner, k)
    {
      FenceAtSlice(s, sp.start + 3, sp.end - 3, k);
    }
  }

  /** Every matched part of a split is a fenced block. */
  lemma MatchedPartsAreBlocks(s: string)
    ensures var spans := Spans(s, 0); var parts := Split(s);
      forall i :: 0 <= i < |spans| ==>
        var m := parts[2 * i + 1];
        |m| >= 6 && StartsWith(m, Fence) && EndsWith(m, Fence) && NoFence(m[3..|m| - 3])
  {
    var spans := Spans(s, 0);
    SplitFromParts(s, 0);
    forall i | 0 <= i < |spans|
      ensures var m := Split(s)[2 * i + 1];
        |m| >= 6 && StartsWith(m, Fence) && EndsWith(m, Fence) && NoFence(m[3..|m| - 3])
    {
      ScanAt(s, 0, spans, i);
      MatchIsBlock(s, Cursor(0, spans, i), spans[i]);
    }
  }

  /** A canonical fenced block: opening fence, language tag, newline, body, newline,
      closing fence. */
  function FencedBlock(lang: string, body: string): string
  {
    Fence + lang + "\n" + body + "\n" + Fence
  }

  /** Where the fences, the label, the newlines and the body sit in a block. */
  lemma FencedBlockShape(lang: string, body: string)
    ensures var x := FencedBlock(lang, body);
      && |x| == |lang| + |body| + 8
      && x[..3] == Fence && x[3..|lang| + 3] == lang && x[|lang| + 3] == '\n'
      && x[|lang| + 4..|x| - 4] == body
      && x[|x| - 4] == '\n' && x[|x| - 3..] == Fence
      && x[3..|x| - 3] == lang + "\n" + body + "\n"
  {
  }

  /** A fenced block opens with the fence, tag and newline, closes with a newline and
      the fence, and holds its body in between. */
  lemma FencedBlockFrame(lang: string, body: string)
    ensures var x := FencedBlock(lang, body);
      && |x| == |lang| + |body| + 8
      && StartsWith(x, Fence + lang + "\n") && EndsWith(x, "\n" + Fence)
      && x[|lang| + 4..|x| - 4] == body
  {
    FencedBlockShape(lang, body);
    var x := FencedBlock(lang, body);
    assert x[..|lang| + 4] == x[..3] + x[3..|lang| + 3] + [x[|lang| + 3]];
    assert x[|x| - 4..] == [x[|x| - 4]] + x[|x| - 3..];
  }

  /** A fenced block whose tag is a word and whose body holds no fence is matched as a
      whole and nothing else in it matches. */
  lemma SingleBlockScan(lang: string, body: string)
    requires AllWord(lang) && NoFence(body)
    ensures var x := FencedBlock(lang, body);
      && NextMatch(x, 0) == Some(Span(0, |x|))
      && Spans(x, 0) == [Span(0, |x|)]
      && Split(x) == ["", x, ""]
  {
    var x := FencedBlock(lang, body);
    var n := |lang| + |body|;
    assert |x| == n + 8;
    assert x[n + 4] == '\n';
    forall k | 3 <= k < n + 5
      ensures !FenceAt(x, k)
    {
      if k < |lang| + 4 {
        assert x[k] == if k < |lang| + 3 then lang[k - 3] else '\n';
      } else if k + 2 < n + 4 {
        assert x[k..k + 3] == body[k - |lang| - 4..k - |lang| - 1];
        assert !FenceAt(body, k - |lang| - 4);
      }
    }
    assert FenceAt(x, 0) && FenceAt(x, n + 5);
    assert FindFence(x, 0) == Some(0);
    assert FindFence(x, 3) == Some(n + 5);
    assert NextMatch(x, |x|) == None;
    assert Spans(x, |x|) == [];
    assert x[0..0] == "" && x[0..|x|] == x && x[|x|..] == "";
  }

  /** Replacing in a single such block applies the callback to the whole text. */
  lemma SingleBlockReplace(lang: string, body: string, f: string -> string)
    requires AllWord(lang) && NoFence(body)
    ensures Replace(FencedBlock(lang, body), f) == f(FencedBlock(lang, body))
  {
    var x := FencedBlock(lang, body);
    SingleBlockScan(lang, body);
    ReplaceIsSplice(x, 0, f);
    assert SplitFrom(x, 0) == ["", x, ""];
    assert ["", x, ""][2..] == [""];
  }
}

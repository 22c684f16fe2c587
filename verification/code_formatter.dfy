/** `formatCodeBlocks` (src/utils/codeFormatter.ts): every fenced block found by the
    lazy fence regex is re-emitted as a `groovy` block whose body is the block's text
    between its outer fences, trimmed. Text outside the blocks is copied. Only the bare
    fences are removed, so a language word written after the opening fence stays in
    the body, and formatting an already formatted text adds another `groovy` line. */
module CodeFormatter {

  import opened Strings
  import opened FenceScan

  /** The one language tag the formatter ever writes. */
  const Canonical: string := "groovy"

  /** `match.replace(/^```/, '').replace(/```$/, '')`: one leading fence removed if
      present, then one trailing fence removed if present. */
  function StripFences(m: string): (r: string)
    ensures |r| <= |m|
    ensures |m| >= 6 && StartsWith(m, Fence) && EndsWith(m, Fence) ==> r == m[3..|m| - 3]
    ensures !StartsWith(m, Fence) && !EndsWith(m, Fence) ==> r == m
  {
    var a := if StartsWith(m, Fence) then m[3..] else m;
    assert StartsWith(m, Fence) && |m| >= 6 ==> a[|a| - 3..] == m[|m| - 3..];
    if EndsWith(a, Fence) then a[..|a| - 3] else a
  }

  /** The replacement written for one match: `'```groovy\n' + content.trim() + '\n```'`. */
  function RewriteBlock(m: string): (r: string)
    ensures StartsWith(r, Fence + Canonical + "\n") && EndsWith(r, "\n" + Fence)
    ensures |r| >= 14 && IsTrimmed(r[10..|r| - 4])
  {
    var body := Trim(StripFences(m));
    FencedBlockFrame(Canonical, body);
    FencedBlock(Canonical, body)
  }

  /** `formatCodeBlocks`: every match of the fence pattern rewritten as a canonical block. */
  function FormatCodeBlocks(text: string): (r: string)
    ensures !HasFencePair(text, 0) ==> r == text
  {
    Replace(text, RewriteBlock)
  }

  /** A matched block is rewritten from its inner text: exactly one fence is removed at
      each end and the rest is trimmed, then the canonical block is written. */
  lemma RewriteMatchedBlock(m: string)
    requires |m| >= 6 && StartsWith(m, Fence) && EndsWith(m, Fence)
    ensures RewriteBlock(m) == FencedBlock(Canonical, Trim(m[3..|m| - 3]))
  {
  }

  /** A labelled block keeps its label, as the first line of the body the formatter trims. */
  lemma RewriteFencedBlock(lang: string, body: string)
    ensures RewriteBlock(FencedBlock(lang, body)) == FencedBlock(Canonical, Trim(lang + "\n" + body + "\n"))
  {
    var x := FencedBlock(lang, body);
    FencedBlockShape(lang, body);
    assert StartsWith(x, Fence) && EndsWith(x, Fence);
    RewriteMatchedBlock(x);
  }

  /** The formatted text is the split text with every match rewritten: the text between
      matches is copied verbatim and in order, there is one rewritten block per match,
      and each is written from that match's fence-free inner text, trimmed. */
  lemma FormatLayout(text: string)
    ensures var spans := Spans(text, 0); var parts := Split(text);
      && FormatCodeBlocks(text) == SpliceOdd(parts, RewriteBlock)
      && PartsFollow(text, 0, spans, parts)
      && forall i :: 0 <= i < |spans| ==>
           var m := parts[2 * i + 1];
           |m| >= 6 && NoFence(m[3..|m| - 3]) && RewriteBlock(m) == FencedBlock(Canonical, Trim(m[3..|m| - 3]))
  {
    var spans := Spans(text, 0);
    var parts := Split(text);
    ReplaceIsSplice(text, 0, RewriteBlock);
    SplitFromParts(text, 0);
    MatchedPartsAreBlocks(text);
    forall i | 0 <= i < |spans|
      ensures var m := parts[2 * i + 1]; RewriteBlock(m) == FencedBlock(Canonical, Trim(m[3..|m| - 3]))
    {
      RewriteMatchedBlock(parts[2 * i + 1]);
    }
  }

  /** A word right after the opening fence is not treated as a language: it becomes the
      first line of the rewritten body, under the canonical tag. */
  lemma DeclaredLanguageKept(lang: string, body: string)
    requires |lang| > 0 && AllWord(lang) && NoFence(body) && IsTrimmed(body)
    ensures |body| > 0 ==> FormatCodeBlocks(FencedBlock(lang, body)) == FencedBlock(Canonical, lang + "\n" + body)
    ensures |body| == 0 ==> FormatCodeBlocks(FencedBlock(lang, body)) == FencedBlock(Canonical, lang)
  {
    SingleBlockReplace(lang, body, RewriteBlock);
    RewriteFencedBlock(lang, body);
    TrimDeclared(lang, body);
  }

  /** Trimming a label line followed by a trimmed body and a newline drops only the final newline
      (and the separating one when the body is empty). */
  lemma TrimDeclared(lang: string, body: string)
    requires |lang| > 0 && AllWord(lang) && IsTrimmed(body)
    ensures Trim(lang + "\n" + body + "\n") == if |body| > 0 then lang + "\n" + body else lang
  {
    assert IsWordChar(lang[0]) && IsWordChar(lang[|lang| - 1]);
    if |body| > 0 {
      var core := lang + "\n" + body;
      assert core[0] == lang[0] && core[|core| - 1] == body[|body| - 1];
      assert lang + "\n" + body + "\n" == core + "\n";
      TrimBack(core, "\n");
    } else {
      assert lang + "\n" + body + "\n" == lang + "\n\n";
      TrimBack(lang, "\n\n");
    }
  }

  /** Formatting is not idempotent: a canonical block whose body holds no fence is
      changed again, because its `groovy` tag is kept as a body line. */
  lemma FormatNotIdempotent(body: string)
    requires NoFence(body) && IsTrimmed(body)
    ensures FormatCodeBlocks(FencedBlock(Canonical, body)) != FencedBlock(Canonical, body)
  {
    DeclaredLanguageKept(Canonical, body);
  }

  /** A word label and a fence-free body, joined by newlines, contain no fence. */
  lemma NoFenceAround(lang: string, body: string)
    requires AllWord(lang) && NoFence(body)
    ensures NoFence(lang + "\n" + body + "\n")
  {
    var y := lang + "\n" + body + "\n";
    var n := |lang|;
    forall k | 0 <= k < |y|
      ensures !FenceAt(y, k)
    {
      if k < n {
        assert y[k] == lang[k] && IsWordChar(lang[k]);
      } else if k == n {
        assert y[k] == '\n';
      } else if k + 3 < |y| {
        assert y[k] == body[k - n - 1] && y[k + 1] == body[k - n] && y[k + 2] == body[k - n + 1];
        assert !FenceAt(body, k - n - 1);
      } else if k + 3 == |y| {
        assert y[k + 2] == '\n';
      }
    }
  }

  /** A slice of fence-free text is fence-free. */
  lemma NoFenceInfix(s: string, i: nat, j: nat)
    requires NoFence(s) && i <= j <= |s|
    ensures NoFence(s[i..j])
  {
    forall k | 0 <= k < j - i
      ensures !FenceAt(s[i..j], k)
    {
      assert !FenceAt(s, i + k);
    }
  }

  /** Formatting the formatter's own output of a single block changes it again. */
  lemma FormatTwiceDiffers(lang: string, body: string)
    requires AllWord(lang) && NoFence(body)
    ensures var once := FormatCodeBlocks(FencedBlock(lang, body));
      FormatCodeBlocks(once) != once
  {
    SingleBlockReplace(lang, body, RewriteBlock);
    RewriteFencedBlock(lang, body);
    var y := lang + "\n" + body + "\n";
    NoFenceAround(lang, body);
    var i, j := TrimInfix(y);
    NoFenceInfix(y, i, j);
    FormatNotIdempotent(Trim(y));
  }
}

/**
 * The clean-up that src/ai_reviewer.py applies to the model's reply before
 * decoding it: surrounding whitespace and a Markdown code fence are removed.
 */
module AiReviewer {
  import opened Text

  const Fence: string := "```"

  /** The text after the opening fence line, or after the three backticks when there is no line break. */
  function DropOpeningFence(t: string): (r: string)
    requires StartsWith(t, Fence)
    ensures '\n' in t ==> |r| < |t| && t[|t| - |r| - 1] == '\n' && t[|t| - |r|..] == r && '\n' !in t[..|t| - |r| - 1]
    ensures '\n' !in t ==> Fence + r == t
  {
    if '\n' in t then t[IndexOf(t, '\n') + 1..] else t[3..]
  }

  /** The steps after the first strip: drop an opening fence line, drop one closing fence, strip again. */
  function Unfence(t0: string): (r: string)
    ensures Stripped(r)
    ensures |r| <= |t0|
  {
    var t1 := if StartsWith(t0, Fence) then DropOpeningFence(t0) else t0;
    var t2 := if EndsWith(t1, Fence) then t1[..|t1| - 3] else t1;
    Strip(t2)
  }

  /** `_strip_markdown_fences`: strip, then remove the fences. */
  function StripMarkdownFences(text: string): (r: string)
    ensures Stripped(r)
    ensures |r| <= |text|
  {
    Unfence(Strip(text))
  }

  /** Text that, once stripped, neither opens nor closes with a fence is only stripped. */
  lemma NoFenceIsOnlyStripped(text: string)
    requires !StartsWith(Strip(text), Fence) && !EndsWith(Strip(text), Fence)
    ensures StripMarkdownFences(text) == Strip(text)
  {
    StripIdempotent(text);
  }

  /** A fenced block with a language tag gives back its body, stripped. */
  lemma {:induction false} FencedBlockGivesBody(tag: string, body: string)
    requires '\n' !in tag
    ensures StripMarkdownFences(Fence + tag + "\n" + body + "\n" + Fence) == Strip(body)
  {
    var opening, inner := Fence + tag, body + "\n";
    var text := opening + "\n" + body + "\n" + Fence;
    AppendAssoc(opening + "\n", body, "\n");
    AppendAssoc(opening + "\n", inner, Fence);
    assert text == opening + "\n" + (inner + Fence);
    OpeningLineDropped(opening, inner + Fence);
    assert text[0] == opening[0] == '`' && text[|text| - 1] == '`';
    StripStripped(text);
    ClosingFenceDropped(inner);
    StripLineBreak(body);
  }

  /** A trailing line break does not survive the strip. */
  lemma StripLineBreak(body: string)
    ensures Strip(body + "\n") == Strip(body)
  {
    assert "" + body + "\n" == body + "\n";
    StripSurroundingSpace("", body, "\n");
  }

  /** An opening line that starts with a fence is dropped together with its line break. */
  lemma OpeningLineDropped(line: string, rest: string)
    requires StartsWith(line, Fence) && '\n' !in line
    ensures StartsWith(line + "\n" + rest, Fence)
    ensures DropOpeningFence(line + "\n" + rest) == rest
  {
    var t := line + "\n" + rest;
    assert t[..3] == line[..3];
    IndexOfAfterFree(line, rest, '\n');
    assert t[|line| + 1..] == rest;
  }

  /** A closing fence is recognised and cut off. */
  lemma ClosingFenceDropped(x: string)
    ensures EndsWith(x + Fence, Fence)
    ensures (x + Fence)[..|x|] == x
  {
    assert (x + Fence)[|x|..] == Fence;
  }

  /** Surrounding whitespace does not change the result. */
  lemma SurroundingSpaceIgnored(w1: string, text: string, w2: string)
    requires forall i :: 0 <= i < |w1| ==> IsSpace(w1[i])
    requires forall i :: 0 <= i < |w2| ==> IsSpace(w2[i])
    ensures StripMarkdownFences(w1 + text + w2) == StripMarkdownFences(text)
  {
    StripSurroundingSpace(w1, text, w2);
  }

  /** With no line break, only the three opening backticks are dropped. */
  lemma {:induction false} OneLineDropsThreeBackticks(rest: string)
    requires Stripped(rest) && '\n' !in rest
    requires !EndsWith(rest, Fence)
    ensures StripMarkdownFences(Fence + rest) == Strip(rest)
  {
    var text := Fence + rest;
    assert text[0] == '`';
    assert text[|text| - 1] == '`' || text[|text| - 1] == rest[|rest| - 1];
    StripStripped(text);
    assert text[..3] == Fence;
    assert '\n' !in text;
    assert text[3..] == rest;
  }

  /** A closing fence is removed once: a doubled one leaves a single fence behind. */
  lemma {:induction false} ClosingFenceRemovedOnce(x: string)
    requires Stripped(x) && x != [] && x[0] != '`'
    ensures StripMarkdownFences(x + Fence + Fence) == x + Fence
  {
    var text := x + Fence + Fence;
    assert text[0] == x[0] && text[|text| - 1] == '`';
    StripStripped(text);
    assert !StartsWith(text, Fence) by {
      assert text[..3][0] == x[0];
    }
    assert text[|text| - 3..] == Fence;
    assert text[..|text| - 3] == x + Fence;
    var t2 := x + Fence;
    assert t2[0] == x[0] && t2[|t2| - 1] == '`';
    StripStripped(t2);
  }
}

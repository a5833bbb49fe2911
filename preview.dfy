/** The Markdown text the preview hands to the HTML renderer (app.py:63-77): the two
    block-math passes, then the diagram fences replaced by images. */
module Preview {
  import opened Regex
  import opened BlockMath
  import opened Diagram
  import opened ReSub

  /** The block-math passes, isolation first (app.py:63-64, again at 107-108). */
  function BlockPasses(s: string): string
  {
    Apply(LineStartBlock, Apply(IsolateBlock, s))
  }

  /** `replaced_md` of the preview, for an input text s and a renderer. */
  function PreviewMarkdown(s: string, render: Renderer): string
  {
    Apply(DiagramFence(render), BlockPasses(s))
  }

  /** The block-math passes change whitespace only. */
  lemma BlockPassesKeepNonSpace(s: string)
    ensures NonSpace(BlockPasses(s)) == NonSpace(s)
  {
    SubKeepsNonSpace(IsolateBlock, None, s);
    SubKeepsNonSpace(LineStartBlock, None, Apply(IsolateBlock, s));
  }

  /** A text without `\[` goes through the block-math passes unchanged. */
  lemma BlockPassesPlain(s: string)
    requires !Occurs(OpenBlock, s)
    ensures BlockPasses(s) == s
  {
    SubWithoutAnchor(IsolateBlock, None, s);
    SubWithoutAnchor(LineStartBlock, None, s);
  }

  /** A text with neither `\[` nor three backquotes is previewed as it is. */
  lemma PreviewPlain(s: string, render: Renderer)
    requires !Occurs(OpenBlock, s) && !Occurs(Fence, s)
    ensures PreviewMarkdown(s, render) == s
  {
    BlockPassesPlain(s);
    SubWithoutAnchor(DiagramFence(render), None, s);
  }

  /** Where the pieces of a fenced diagram block lie. */
  lemma FencedTextParts(tag: string, body: string, y: string)
    ensures var t := Fence + tag + body + Fence + y; var i := 3 + |tag|; var j := i + |body|;
      && j + 3 <= |t| && TicksAt(t, 0) && tag <= t[3..] && t[i..j] == body && TicksAt(t, j)
      && t[j + 3..] == y && t[j + 2] == '`'
      && (forall k :: i <= k < j ==> t[k] == body[k - i])
  {
    var t := Fence + tag + body + Fence + y;
    var i := 3 + |tag|;
    var j := i + |body|;
    assert t[3..] == tag + body + Fence + y;
    assert t[i..] == body + Fence + y;
    assert t[j..] == Fence + y;
  }

  /** The diagram pass on a fenced block with a diagram tag and a body in which no
      three backquotes start before the closing fence: the block alone is found,
      with exactly that tag and body. */
  lemma DiagramAtBlock(tag: string, body: string, y: string)
    requires tag in Tags && forall k :: 0 <= k < |body| ==> !TicksAt(body + Fence, k)
    ensures var t := Fence + tag + body + Fence + y;
      DiagramAt(t) == Some(Fenced(6 + |tag| + |body|, tag, body))
  {
    var t := Fence + tag + body + Fence + y;
    var i := 3 + |tag|;
    var j := i + |body|;
    FencedTextParts(tag, body, y);
    DiagramFinds(t, tag, j);
    DiagramShape(t);
    var h := DiagramAt(t).value;
    var j' := i + |h.body|;
    if j' < j {
      assert t[i..] == body + Fence + y;
      TicksShift(t, i, body + Fence, y, j' - i);
      assert false;
    }
    if j < j' {
      assert false;
    }
  }

  /** Text in which no three backquotes start is copied by the diagram pass. */
  lemma DiagramPassThrough(render: Renderer, x: string, t: string)
    requires forall k :: 0 <= k < |x| ==> !TicksAt(x + t, k)
    ensures Apply(DiagramFence(render), x + t) == x + Sub(DiagramFence(render), PrevAt(None, x + t, |x|), t)
  {
    var rule := DiagramFence(render);
    forall k | 0 <= k < |x| ensures MatchAt(rule, PrevAt(None, x + t, k), (x + t)[k..]).None? {
      var u := (x + t)[k..];
      assert !TicksAt(x + t, k);
      assert !TicksAt(u, 0);
    }
    SubPassThrough(rule, None, x, t);
  }

  /** A fenced diagram block at the start of the rest of the text is replaced as a
      whole, and the text after it is converted on its own. */
  lemma DiagramBlockFirst(render: Renderer, p: Option<char>, tag: string, body: string, y: string)
    requires tag in Tags && forall k :: 0 <= k < |body| ==> !TicksAt(body + Fence, k)
    ensures Sub(DiagramFence(render), p, Fence + tag + body + Fence + y)
         == DiagramReplacement(render, Fenced(6 + |tag| + |body|, tag, body)) + Apply(DiagramFence(render), y)
  {
    var rule := DiagramFence(render);
    var t := Fence + tag + body + Fence + y;
    var h := Fenced(6 + |tag| + |body|, tag, body);
    DiagramAtBlock(tag, body, y);
    FencedTextParts(tag, body, y);
    assert MatchAt(rule, p, t) == Some(h);
    assert Sub(rule, p, t) == Replacement(rule, h) + Sub(rule, Some(t[h.len - 1]), t[h.len..]);
    SubPrevFree(rule, Some(t[h.len - 1]), None, y);
  }

  /** Text before a fenced diagram block is kept, the block is replaced by the
      image of its stripped body or by the error note, and the text after it is
      converted on its own. No three backquotes start in the text before the
      block or in its body. */
  lemma DiagramBlock(render: Renderer, x: string, tag: string, body: string, y: string)
    requires tag in Tags && forall k :: 0 <= k < |x| ==> !TicksAt(x + Fence, k)
    requires forall k :: 0 <= k < |body| ==> !TicksAt(body + Fence, k)
    ensures var out := Apply(DiagramFence(render), x + (Fence + tag + body + Fence + y));
      var rest := Apply(DiagramFence(render), y);
      && (render(Strip(body)).Ok? ==> out == x + ImageMarkdown(render(Strip(body)).value) + rest)
      && (render(Strip(body)).Err? ==> out == x + ErrorMarkdown(render(Strip(body)).message) + rest)
  {
    var t := Fence + tag + body + Fence + y;
    var rest := Apply(DiagramFence(render), y);
    var rep := DiagramReplacement(render, Fenced(6 + |tag| + |body|, tag, body));
    forall k | 0 <= k < |x| ensures !TicksAt(x + t, k) {
      assert (x + t)[0..] == x + Fence + (tag + body + Fence + y);
      TicksShift(x + t, 0, x + Fence, tag + body + Fence + y, k);
    }
    DiagramPassThrough(render, x, t);
    DiagramBlockFirst(render, PrevAt(None, x + t, |x|), tag, body, y);
    AppendAssoc(x, rep, rest);
  }

  /** Where the pieces of a formula written inside a line lie. */
  lemma InlineTextParts(c: char, x: string, d: char, y: string)
    ensures var t := [c] + " " + OpenBlock + x + CloseBlock + [d] + y; var j := 4 + |x|;
      && j + 3 <= |t| && t[0] == c && t[1] == ' ' && OpensAt(t, 2) && t[4..j] == x
      && ClosesAt(t, j) && t[j + 2] == d && t[j + 3..] == y
      && t[4..] == x + CloseBlock + [d] + y
  {
    var t := [c] + " " + OpenBlock + x + CloseBlock + [d] + y;
    assert t[4..] == x + CloseBlock + [d] + y;
    assert t[4 + |x|..] == CloseBlock + [d] + y;
  }

  /** The isolation pattern on a formula written inside a line after one blank:
      the whole formula is matched, with the characters on either side. */
  lemma InlineIsolateAt(c: char, x: string, d: char, y: string)
    requires c != '\n' && d != '\n'
    requires forall k :: 0 <= k < |x| ==> !IsolateTailAt(x + CloseBlock + [d], k)
    ensures var t := [c] + " " + OpenBlock + x + CloseBlock + [d] + y;
      IsolateAt(t) == Some(Isolated(7 + |x|, c, x, d))
  {
    var t := [c] + " " + OpenBlock + x + CloseBlock + [d] + y;
    var j := 4 + |x|;
    InlineTextParts(c, x, d, y);
    assert IsSpace(t[1]) && !IsSpace(t[2]);
    assert SpaceRun(t, 1) == 1;
    forall k | 4 <= k < j ensures !IsolateTailAt(t, k) {
      IsolateTailShift(t, 4, x + CloseBlock + [d], y, k - 4);
    }
    IsolateFinds(t, j);
    IsolateShape(t);
    var h := IsolateAt(t).value;
    var j' := 4 + |h.inner|;
    if j' < j {
      assert false;
    }
    if j < j' {
      assert IsolateLazy(t, 2, h) && IsolateTailAt(t, j);
      assert false;
    }
  }

  /** Isolation of a formula written inside a line: blank lines are put around it,
      the blank before `\[` is dropped, the neighbouring characters stay, and the
      rest of the text is converted on its own. */
  lemma InlineIsolate(c: char, x: string, d: char, y: string)
    requires c != '\n' && d != '\n'
    requires forall k :: 0 <= k < |x| ==> !IsolateTailAt(x + CloseBlock + [d], k)
    ensures Apply(IsolateBlock, [c] + " " + OpenBlock + x + CloseBlock + [d] + y)
         == [c] + BlankLine + OpenBlock + x + CloseBlock + BlankLine + [d] + Apply(IsolateBlock, y)
  {
    var t := [c] + " " + OpenBlock + x + CloseBlock + [d] + y;
    var h := Isolated(7 + |x|, c, x, d);
    InlineIsolateAt(c, x, d, y);
    InlineTextParts(c, x, d, y);
    assert MatchAt(IsolateBlock, None, t) == Some(h);
    assert Sub(IsolateBlock, None, t) == IsolateReplacement(h) + Sub(IsolateBlock, Some(t[h.len - 1]), t[h.len..]);
    SubPrevFree(IsolateBlock, Some(t[h.len - 1]), None, y);
  }

  /** Where the pieces of a block formula alone on its line lie. */
  lemma LineTextPieces(x: string, y: string)
    ensures var t := OpenBlock + x + CloseBlock + NewLine + y; var j := 2 + |x|;
      && j + 3 <= |t| && OpensAt(t, 0) && t[2..j] == x && ClosesAt(t, j)
      && t[j + 2] == '\n' && t[j + 3..] == y && t[j + 2..] == NewLine + y
      && t[2..] == x + CloseBlock + (NewLine + y)
  {
    var t := OpenBlock + x + CloseBlock + NewLine + y;
    assert t[2..] == x + CloseBlock + NewLine + y;
    assert t[2 + |x|..] == CloseBlock + NewLine + y;
  }

  /** No `\]` inside x ends a line in the formula's text when none does in x followed by `\]`. */
  lemma LineNoEarlierTail(x: string, y: string)
    requires forall k :: 0 <= k < |x| ==> !LineTailAt(x + CloseBlock, k)
    ensures var t := OpenBlock + x + CloseBlock + NewLine + y;
      forall k :: 2 <= k < 2 + |x| ==> !LineTailAt(t, k)
  {
    var t := OpenBlock + x + CloseBlock + NewLine + y;
    assert t[2..] == x + CloseBlock + (NewLine + y);
    forall k | 2 <= k < 2 + |x| ensures !LineTailAt(t, k) {
      LineTailInside(x, k - 2);
      LineTailShift(t, 2, x + CloseBlock, NewLine + y, k - 2);
    }
  }

  /** The line pattern on a block formula alone on its line, with a line after it
      that does not start with whitespace: the match stops before the newline. */
  lemma LineAloneAt(x: string, y: string)
    requires (forall k :: 0 <= k < |x| ==> !LineTailAt(x + CloseBlock, k)) && y != [] && !IsSpace(y[0])
    ensures LineStartAt(None, OpenBlock + x + CloseBlock + NewLine + y) == Some(LineBlock(4 + |x|, x))
  {
    var t := OpenBlock + x + CloseBlock + NewLine + y;
    var j := 2 + |x|;
    LineTextPieces(x, y);
    assert SpaceRun(t, 0) == 0;
    assert SpaceRun(t, j + 2) == 1 by {
      assert IsSpace(t[j + 2]) && !IsSpace(t[j + 3]);
    }
    assert LineEndAfter(t, j) == Some(j + 2);
    LineNoEarlierTail(x, y);
    assert LineTailAt(t, j);
    if LineTail(t, 2).None? || j < LineTail(t, 2).value {
      LineTailFirst(t, 2, j);
      assert false;
    }
  }

  /** A block formula alone on its line is set on a line of its own, with a newline
      before and after it; the newline that ended its line stays, and the rest of
      the text is converted on its own. */
  lemma LineAlone(x: string, y: string)
    requires (forall k :: 0 <= k < |x| ==> !LineTailAt(x + CloseBlock, k)) && y != [] && !IsSpace(y[0])
    ensures Apply(LineStartBlock, OpenBlock + x + CloseBlock + NewLine + y)
         == NewLine + OpenBlock + x + CloseBlock + NewLine + NewLine + Apply(LineStartBlock, y)
  {
    var t := OpenBlock + x + CloseBlock + NewLine + y;
    var h := LineBlock(4 + |x|, x);
    var u := NewLine + y;
    LineAloneAt(x, y);
    LineTextPieces(x, y);
    assert t[h.len - 1] == ']' && t[h.len..] == u;
    SubReplaces(LineStartBlock, None, t, h);
    LineBreakCopied(']', y);
  }

  /** After a line of text, the newline that ends it and the one the replacement
      starts with make a blank line before the formula. */
  lemma LineAloneAfterBreak(c: char, x: string, y: string)
    requires c != '\n'
    requires (forall k :: 0 <= k < |x| ==> !LineTailAt(x + CloseBlock, k)) && y != [] && !IsSpace(y[0])
    ensures Sub(LineStartBlock, Some(c), NewLine + OpenBlock + x + CloseBlock + NewLine + y)
         == BlankLine + OpenBlock + x + CloseBlock + NewLine + NewLine + Apply(LineStartBlock, y)
  {
    var t := OpenBlock + x + CloseBlock + NewLine + y;
    LineBreakCopied(c, t);
    LineAlone(x, y);
    LineAfterBreakText(x, y, Apply(LineStartBlock, y));
  }

  lemma LineAfterBreakText(x: string, y: string, v: string)
    ensures NewLine + OpenBlock + x + CloseBlock + NewLine + y == NewLine + (OpenBlock + x + CloseBlock + NewLine + y)
    ensures NewLine + (NewLine + OpenBlock + x + CloseBlock + NewLine + NewLine + v)
         == BlankLine + OpenBlock + x + CloseBlock + NewLine + NewLine + v
  {
  }

  /** Where the pieces of a formula whose first `\]` ends a line lie. */
  lemma PastBreakParts(c: char, x: string, z: string, d: char, y: string)
    ensures var w := x + CloseBlock + NewLine + z;
      var t := [c] + OpenBlock + w + CloseBlock + [d] + y; var j := 3 + |w|; var b := 3 + |x|;
      && j + 3 <= |t| && t[0] == c && t[1] == '\\' && OpensAt(t, 1) && t[3..j] == w
      && ClosesAt(t, j) && t[j + 2] == d && t[j + 3..] == y
      && t[3..] == x + CloseBlock + NewLine + (z + CloseBlock + [d] + y)
      && t[b + 1] == ']' && t[b + 2] == '\n' && t[b + 3..] == z + CloseBlock + [d] + y
  {
    var w := x + CloseBlock + NewLine + z;
    var t := [c] + OpenBlock + w + CloseBlock + [d] + y;
    assert t[3..] == w + CloseBlock + [d] + y;
    assert t[3 + |w|..] == CloseBlock + [d] + y;
    assert t[3 + |x|..] == CloseBlock + NewLine + (z + CloseBlock + [d] + y);
  }

  /** The inner text of the isolation pattern runs past a `\]` that ends a line,
      since the character after `\]` must not be a newline: the match reaches the
      next `\]`, newline and all. */
  lemma IsolatePastBreakAt(c: char, x: string, z: string, d: char, y: string)
    requires c != '\n' && d != '\n'
    requires forall k :: 0 <= k < |x| ==> !IsolateTailAt(x + CloseBlock + NewLine, k)
    requires forall k :: 0 <= k < |z| ==> !IsolateTailAt(z + CloseBlock + [d], k)
    ensures var w := x + CloseBlock + NewLine + z;
      IsolateAt([c] + OpenBlock + w + CloseBlock + [d] + y) == Some(Isolated(6 + |w|, c, w, d))
  {
    var w := x + CloseBlock + NewLine + z;
    var t := [c] + OpenBlock + w + CloseBlock + [d] + y;
    var j := 3 + |w|;
    PastBreakParts(c, x, z, d, y);
    assert SpaceRun(t, 1) == 0 by {
      assert !IsSpace(t[1]);
    }
    assert IsolateTailAt(t, j);
    var b := 3 + |x|;
    forall k | 3 <= k < j ensures !IsolateTailAt(t, k) {
      if k < b {
        IsolateTailShift(t, 3, x + CloseBlock + NewLine, z + CloseBlock + [d] + y, k - 3);
      } else if k >= b + 3 {
        IsolateTailShift(t, b + 3, z + CloseBlock + [d], y, k - b - 3);
      }
    }
    IsolateFinds(t, j);
    IsolateShape(t);
    var h := IsolateAt(t).value;
    var j' := 3 + |h.inner|;
    if j' < j {
      assert false;
    }
    if j < j' {
      assert false;
    }
  }

  /** The same formula through the whole pass: one match from the first `\[` to
      the last `\]`, the `\]` that ended a line kept inside it. */
  lemma IsolatePastBreak(c: char, x: string, z: string, d: char, y: string)
    requires c != '\n' && d != '\n'
    requires forall k :: 0 <= k < |x| ==> !IsolateTailAt(x + CloseBlock + NewLine, k)
    requires forall k :: 0 <= k < |z| ==> !IsolateTailAt(z + CloseBlock + [d], k)
    ensures var w := x + CloseBlock + NewLine + z;
      Apply(IsolateBlock, [c] + OpenBlock + w + CloseBlock + [d] + y)
      == [c] + BlankLine + OpenBlock + w + CloseBlock + BlankLine + [d] + Apply(IsolateBlock, y)
  {
    var w := x + CloseBlock + NewLine + z;
    var t := [c] + OpenBlock + w + CloseBlock + [d] + y;
    var h := Isolated(6 + |w|, c, w, d);
    IsolatePastBreakAt(c, x, z, d, y);
    PastBreakParts(c, x, z, d, y);
    SubReplaces(IsolateBlock, None, t, h);
    SubPrevFree(IsolateBlock, Some(t[h.len - 1]), None, y);
  }
}

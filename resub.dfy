/** `re.sub(pattern, repl, text)` for the patterns of app.py: the text is scanned
    from the left; where the pattern matches, the match is replaced and scanning
    resumes after it; elsewhere one character is copied. No pattern here can
    match the empty string, so this is all of Python's scanning rule. Lookbehind,
    `^` and lookahead look at the input text, never at replacement text: the
    character before the current position is passed along as `prev`. */
module ReSub {
  import opened Regex
  import opened BlockMath
  import opened Diagram
  import opened ExportRules

  /** The patterns and their replacements. */
  datatype Rule =
    | IsolateBlock                           // app.py:63 and app.py:107
    | LineStartBlock                         // app.py:64 and app.py:108
    | DiagramFence(render: Renderer)         // app.py:67-77
    | Literal(pat: Token, rep: string)       // app.py:104, 113-117
    | UnwrapSpan                             // app.py:111
    | CollapseSpacing                        // app.py:121

  /** The kind of hit each pattern produces. */
  predicate Fits(rule: Rule, h: Hit) {
    match rule
    case IsolateBlock => h.Isolated?
    case LineStartBlock => h.LineBlock?
    case DiagramFence(_) => h.Fenced?
    case Literal(_, _) => h.Token?
    case UnwrapSpan => h.Spanned?
    case CollapseSpacing => h.Padded?
  }

  /** The pattern tried at the start of t, prev being the input character before t. */
  function MatchAt(rule: Rule, prev: Option<char>, t: string): (r: Option<Hit>)
    ensures r.Some? ==> 0 < r.value.len <= |t| && Fits(rule, r.value)
  {
    match rule
    case IsolateBlock => IsolateAt(t)
    case LineStartBlock => LineStartAt(prev, t)
    case DiagramFence(_) => DiagramAt(t)
    case Literal(pat, _) => LiteralAt(pat, t)
    case UnwrapSpan => SpanAt(t)
    case CollapseSpacing => CollapseAt(prev, t)
  }

  /** What a match is replaced with. */
  function Replacement(rule: Rule, h: Hit): string
    requires Fits(rule, h)
  {
    match rule
    case IsolateBlock => IsolateReplacement(h)
    case LineStartBlock => LineReplacement(h)
    case DiagramFence(render) => DiagramReplacement(render, h)
    case Literal(_, rep) => rep
    case UnwrapSpan => h.content
    case CollapseSpacing => CollapseReplacement(h)
  }

  /** The rewrite of the rest t of the text, prev being the input character just
      before t. */
  function Sub(rule: Rule, prev: Option<char>, t: string): string
    decreases |t|
  {
    if t == [] then []
    else
      match MatchAt(rule, prev, t)
      case Some(h) => Replacement(rule, h) + Sub(rule, Some(t[h.len - 1]), t[h.len..])
      case None => [t[0]] + Sub(rule, Some(t[0]), t[1..])
  }

  /** `re.sub` over a whole text. */
  function Apply(rule: Rule, s: string): string
  {
    Sub(rule, None, s)
  }

  /** The input character before position k of t. */
  function PrevAt(prev: Option<char>, t: string, k: nat): Option<char>
    requires k <= |t|
  {
    if k == 0 then prev else Some(t[k - 1])
  }

  /** The patterns whose matches depend on the character before them. */
  predicate UsesPrev(rule: Rule) {
    rule.LineStartBlock? || rule.CollapseSpacing?
  }

  /** A pattern that ignores the character before it rewrites a text the same way
      whatever came before. */
  lemma SubPrevFree(rule: Rule, p: Option<char>, p': Option<char>, t: string)
    requires !UsesPrev(rule)
    ensures Sub(rule, p, t) == Sub(rule, p', t)
  {
    if t != [] {
      assert MatchAt(rule, p, t) == MatchAt(rule, p', t);
    }
  }

  /** After a newline the line pattern sees the start of a line, as at the start
      of the text. */
  lemma LineStartAfterBreak(t: string)
    ensures Sub(LineStartBlock, Some('\n'), t) == Apply(LineStartBlock, t)
  {
    if t != [] {
      assert MatchAt(LineStartBlock, Some('\n'), t) == MatchAt(LineStartBlock, None, t);
    }
  }

  /** A newline after a character other than a newline is copied by the line
      pattern, and the text after it is converted as from the start of a line. */
  lemma LineBreakCopied(c: char, t: string)
    requires c != '\n'
    ensures Sub(LineStartBlock, Some(c), NewLine + t) == NewLine + Apply(LineStartBlock, t)
  {
    var u := NewLine + t;
    assert MatchAt(LineStartBlock, Some(c), u).None?;
    SubCopies(LineStartBlock, Some(c), u);
    assert u[1..] == t;
    LineStartAfterBreak(t);
  }

  /** At a match, its replacement is emitted and the rest follows. */
  lemma SubReplaces(rule: Rule, prev: Option<char>, t: string, h: Hit)
    requires t != [] && MatchAt(rule, prev, t) == Some(h)
    ensures Sub(rule, prev, t) == Replacement(rule, h) + Sub(rule, Some(t[h.len - 1]), t[h.len..])
  {
  }

  /** Where nothing matches, one character is copied. */
  lemma SubCopies(rule: Rule, prev: Option<char>, t: string)
    requires t != [] && MatchAt(rule, prev, t).None?
    ensures Sub(rule, prev, t) == [t[0]] + Sub(rule, Some(t[0]), t[1..])
  {
  }

  /** SubPassThrough's precondition for x carries over to x[1..]. */
  lemma PassThroughShift(rule: Rule, prev: Option<char>, x: string, y: string)
    requires x != []
    requires forall k :: 0 <= k < |x| ==> MatchAt(rule, PrevAt(prev, x + y, k), (x + y)[k..]).None?
    ensures MatchAt(rule, prev, x + y).None? && (x + y)[0] == x[0] && (x + y)[1..] == x[1..] + y
    ensures forall k :: 0 <= k < |x[1..]| ==>
      MatchAt(rule, PrevAt(Some(x[0]), x[1..] + y, k), (x[1..] + y)[k..]).None?
    ensures PrevAt(Some(x[0]), x[1..] + y, |x[1..]|) == PrevAt(prev, x + y, |x|)
  {
    var t := x + y;
    assert MatchAt(rule, PrevAt(prev, t, 0), t[0..]).None?;
    assert t[0..] == t;
    forall k | 0 <= k < |x[1..]|
      ensures MatchAt(rule, PrevAt(Some(x[0]), x[1..] + y, k), (x[1..] + y)[k..]).None?
    {
      assert MatchAt(rule, PrevAt(prev, t, k + 1), t[k + 1..]).None?;
      assert (x[1..] + y)[k..] == t[k + 1..];
      assert PrevAt(Some(x[0]), x[1..] + y, k) == PrevAt(prev, t, k + 1);
    }
  }

  /** Where the pattern matches at no position of x, x is copied and the rewrite
      goes on after it. */
  lemma {:induction false} SubPassThrough(rule: Rule, prev: Option<char>, x: string, y: string)
    requires forall k :: 0 <= k < |x| ==> MatchAt(rule, PrevAt(prev, x + y, k), (x + y)[k..]).None?
    ensures Sub(rule, prev, x + y) == x + Sub(rule, PrevAt(prev, x + y, |x|), y)
    decreases |x|
  {
    if x != [] {
      PassThroughShift(rule, prev, x, y);
      SubPassThrough(rule, Some(x[0]), x[1..], y);
      SubCopies(rule, prev, x + y);
      ConsAppend(x, Sub(rule, PrevAt(prev, x + y, |x|), y));
    } else {
      assert x + y == y;
    }
  }

  /** The text each pattern needs: nothing without it is ever matched. */
  function Anchor(rule: Rule): string
  {
    match rule
    case IsolateBlock => OpenBlock
    case LineStartBlock => OpenBlock
    case DiagramFence(_) => Fence
    case Literal(pat, _) => pat
    case UnwrapSpan => SpanOpen
    case CollapseSpacing => "$"
  }

  lemma MatchNeedsAnchor(rule: Rule, prev: Option<char>, t: string)
    requires MatchAt(rule, prev, t).Some?
    ensures Occurs(Anchor(rule), t)
  {
    match rule
    case IsolateBlock => IsolateNeedsOpen(t);
    case LineStartBlock => LineNeedsOpen(prev, t);
    case DiagramFence(_) =>
      assert TicksAt(t, 0);
      assert Fence <= t;
    case Literal(pat, _) =>
    case UnwrapSpan =>
    case CollapseSpacing =>
      assert "$" <= t;
  }

  /** A text without the pattern's anchor is left as it is. */
  lemma {:induction false} SubWithoutAnchor(rule: Rule, prev: Option<char>, t: string)
    requires !Occurs(Anchor(rule), t)
    ensures Sub(rule, prev, t) == t
    decreases |t|
  {
    if t != [] {
      if MatchAt(rule, prev, t).Some? {
        MatchNeedsAnchor(rule, prev, t);
        assert false;
      }
      assert !Occurs(Anchor(rule), t[1..]);
      SubWithoutAnchor(rule, Some(t[0]), t[1..]);
    }
  }

  /** One match of a block-math pattern rewritten: whitespace changes only. */
  lemma MatchKeepsNonSpace(rule: Rule, prev: Option<char>, t: string)
    requires rule.IsolateBlock? || rule.LineStartBlock?
    requires MatchAt(rule, prev, t).Some?
    ensures var h := MatchAt(rule, prev, t).value;
      NonSpace(Replacement(rule, h)) == NonSpace(t[..h.len])
  {
    if rule.IsolateBlock? {
      IsolateKeepsNonSpace(t);
    } else {
      LineKeepsNonSpace(prev, t);
    }
  }

  /** The block-math passes change whitespace only: the text without its
      whitespace is the same before and after. */
  lemma {:induction false} SubKeepsNonSpace(rule: Rule, prev: Option<char>, t: string)
    requires rule.IsolateBlock? || rule.LineStartBlock?
    ensures NonSpace(Sub(rule, prev, t)) == NonSpace(t)
    decreases |t|
  {
    if t != [] {
      match MatchAt(rule, prev, t)
      case Some(h) =>
        var rest := Sub(rule, Some(t[h.len - 1]), t[h.len..]);
        SubKeepsNonSpace(rule, Some(t[h.len - 1]), t[h.len..]);
        MatchKeepsNonSpace(rule, prev, t);
        NonSpaceJoin(t, h.len, Replacement(rule, h), rest);
      case None =>
        var rest := Sub(rule, Some(t[0]), t[1..]);
        SubKeepsNonSpace(rule, Some(t[0]), t[1..]);
        assert t[..1] == [t[0]];
        NonSpaceJoin(t, 1, [t[0]], rest);
    }
  }

  /** The patterns whose replacement is never longer than the match. */
  predicate Shrinking(rule: Rule) {
    || rule.UnwrapSpan?
    || rule.CollapseSpacing?
    || (rule.Literal? && |rule.rep| <= |rule.pat|)
  }

  lemma MatchShrinks(rule: Rule, prev: Option<char>, t: string)
    requires Shrinking(rule) && MatchAt(rule, prev, t).Some?
    ensures var h := MatchAt(rule, prev, t).value; |Replacement(rule, h)| <= h.len
  {
    match rule
    case UnwrapSpan => SpanShape(t);
    case CollapseSpacing => CollapseShrinks(prev, t);
    case Literal(_, _) =>
  }

  /** One step of the rewriting with a shrinking pattern: the n characters it
      consumes give at most n characters of output. */
  lemma ShrinkingStep(rule: Rule, prev: Option<char>, t: string) returns (n: nat, p: Option<char>)
    requires t != [] && Shrinking(rule)
    ensures 1 <= n <= |t| && |Sub(rule, prev, t)| <= n + |Sub(rule, p, t[n..])|
  {
    match MatchAt(rule, prev, t)
    case Some(h) =>
      MatchShrinks(rule, prev, t);
      n, p := h.len, Some(t[h.len - 1]);
    case None =>
      n, p := 1, Some(t[0]);
  }

  /** A shrinking pattern never makes the text longer. */
  lemma {:induction false} SubNoLonger(rule: Rule, prev: Option<char>, t: string)
    requires Shrinking(rule)
    ensures |Sub(rule, prev, t)| <= |t|
    decreases |t|
  {
    if t != [] {
      var n, p := ShrinkingStep(rule, prev, t);
      SubNoLonger(rule, p, t[n..]);
    }
  }
}

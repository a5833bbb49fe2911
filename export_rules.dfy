/** The patterns only the export applies (app.py:104, 111, 113-117, 121): literal
    token rewrites, the arithmatex span unwrap, and the spacing collapse of inline
    dollar math. */
module ExportRules {
  import opened Regex

  /** A literal pattern: never empty. */
  type Token = s: string | |s| > 0 witness "$"

  /** A literal pattern tried at the start of t. */
  function LiteralAt(pat: Token, t: string): (r: Option<Hit>)
    ensures r.Some? <==> pat <= t
    ensures r.Some? ==> r.value == Token(|pat|) && 0 < |pat| <= |t|
  {
    if pat <= t then Some(Token(|pat|)) else None
  }

  // ---------------------------------------------------------------------------
  // <span class="arithmatex">(.*?)</span>   without DOTALL  (app.py:111)
  // ---------------------------------------------------------------------------

  const SpanOpen := "<span class=\"arithmatex\">"
  const SpanClose := "</span>"

  /** `</span>` starts at t[j]. */
  predicate SpanCloseAt(t: string, j: nat) {
    j + |SpanClose| <= |t| && t[j..j + |SpanClose|] == SpanClose
  }

  /** No newline in t[i..j]. */
  predicate OneLine(t: string, i: nat, j: nat)
    requires i <= j <= |t|
  {
    forall k :: i <= k < j ==> t[k] != '\n'
  }

  /** Lazy `(.*?)` from i, `.` stopping at a newline, then `</span>`: where the
      first `</span>` of the line starts. */
  function SpanTail(t: string, i: nat): (r: Option<nat>)
    requires i <= |t|
    ensures r.Some? ==> i <= r.value && SpanCloseAt(t, r.value) && OneLine(t, i, r.value)
    decreases |t| - i
  {
    if SpanCloseAt(t, i) then Some(i)
    else if i < |t| && t[i] != '\n' then SpanTail(t, i + 1)
    else None
  }

  /** Lazy: no `</span>` starts between i and the one found. */
  lemma {:induction false} SpanTailFirst(t: string, i: nat, j: nat)
    requires i <= |t| && SpanTail(t, i).Some? && i <= j < SpanTail(t, i).value
    ensures !SpanCloseAt(t, j)
    decreases j - i
  {
    if j > i {
      SpanTailFirst(t, i + 1, j);
    }
  }

  /** The lazy search misses no `</span>` on the same line. */
  lemma {:induction false} SpanTailFinds(t: string, i: nat, j: nat)
    requires i <= j && SpanCloseAt(t, j) && OneLine(t, i, j)
    ensures SpanTail(t, i).Some? && SpanTail(t, i).value <= j
    decreases j - i
  {
    if !SpanCloseAt(t, i) {
      SpanTailFinds(t, i + 1, j);
    }
  }

  /** The span pattern tried at the start of t. */
  function SpanAt(t: string): (r: Option<Hit>)
    ensures r.Some? ==> r.value.Spanned? && 0 < r.value.len <= |t|
  {
    if SpanOpen <= t then
      match SpanTail(t, |SpanOpen|)
      case Some(j) => Some(Spanned(j + |SpanClose|, t[|SpanOpen|..j]))
      case None => None
    else None
  }

  /** What a match of the span pattern consists of: the opening tag, a content
      without a newline, and the first `</span>` after it. */
  lemma SpanShape(t: string)
    requires SpanAt(t).Some?
    ensures var h := SpanAt(t).value; var j := |SpanOpen| + |h.content|;
      && SpanOpen <= t && h.len == j + |SpanClose|
      && t[|SpanOpen|..j] == h.content && SpanCloseAt(t, j) && OneLine(t, |SpanOpen|, j)
      && (forall k :: |SpanOpen| <= k < j ==> !SpanCloseAt(t, k))
  {
    var j := SpanTail(t, |SpanOpen|).value;
    forall k | |SpanOpen| <= k < j ensures !SpanCloseAt(t, k) {
      SpanTailFirst(t, |SpanOpen|, k);
    }
  }

  /** Conversely an opening tag with `</span>` later on the same line is matched. */
  lemma SpanFinds(t: string, j: nat)
    requires SpanOpen <= t && |SpanOpen| <= j && SpanCloseAt(t, j) && OneLine(t, |SpanOpen|, j)
    ensures SpanAt(t).Some? && SpanAt(t).value.len <= j + |SpanClose|
  {
    SpanTailFinds(t, |SpanOpen|, j);
  }

  /** In a text whose part from n on is x, `</span>` and y, no `</span>` starts
      inside x when x holds none: `</span>` cannot overlap itself. */
  lemma SpanCloseInside(t: string, n: nat, x: string, y: string, k: nat)
    requires n <= |t| && t[n..] == x + SpanClose + y
    requires n <= k < n + |x| && !Occurs(SpanClose, x)
    ensures !SpanCloseAt(t, k)
  {
    assert SpanClose[0] !in SpanClose[1..];
    WordInside(t, n, x, SpanClose, y, k);
  }

  // ---------------------------------------------------------------------------
  // (?<!\$)\$ +(.+?) +\$(?!\$)   without DOTALL  (app.py:121)
  // ---------------------------------------------------------------------------

  /** `\$(?!\$)` at e: a dollar sign not followed by another. */
  predicate CloseDollarAt(t: string, e: nat) {
    e < |t| && t[e] == '$' && (e + 1 == |t| || t[e + 1] != '$')
  }

  /** ` +\$(?!\$)` after the group ends at f, the blanks holding w characters and
      giving them back one at a time: where the match ends. */
  function CollapseClose(t: string, f: nat, w: nat): (r: Option<nat>)
    requires f + w <= |t| && AllBlank(t, f, f + w)
    ensures r.Some? ==> var e := r.value - 1;
      f < e <= f + w && AllBlank(t, f, e) && CloseDollarAt(t, e)
    decreases w
  {
    if w == 0 then None
    else if CloseDollarAt(t, f + w) then Some(f + w + 1)
    else CollapseClose(t, f, w - 1)
  }

  /** The closing part fails when no dollar sign it could reach qualifies. */
  lemma {:induction false} CollapseCloseMiss(t: string, f: nat, w: nat)
    requires f + w <= |t| && AllBlank(t, f, f + w)
    requires forall e :: f < e <= f + w ==> !CloseDollarAt(t, e)
    ensures CollapseClose(t, f, w).None?
    decreases w
  {
    if w > 0 {
      CollapseCloseMiss(t, f, w - 1);
    }
  }

  /** The closing part after the group ends at f, the blanks taking their longest
      run first. */
  function CloseAfter(t: string, f: nat): Option<nat>
    requires f <= |t|
  {
    CollapseClose(t, f, BlankRun(t, f))
  }

  /** Lazy `(.+?)` from a, holding m characters (none of them a newline) and taking
      one more each time the rest fails: where the group ends and the match ends. */
  function CollapseFormula(t: string, a: nat, m: nat): (r: Option<(nat, nat)>)
    requires 1 <= m && a + m <= |t| && OneLine(t, a, a + m)
    ensures r.Some? ==> var (f, e) := r.value;
      && a + m <= f && f < e - 1 < e <= |t| && OneLine(t, a, f)
      && AllBlank(t, f, e - 1) && CloseDollarAt(t, e - 1)
    decreases |t| - m
  {
    var f := a + m;
    var close := CloseAfter(t, f);
    if close.Some? then Some((f, close.value))
    else if f < |t| && t[f] != '\n' then CollapseFormula(t, a, m + 1)
    else None
  }

  /** The lazy group stops at the first end after which the closing part matches. */
  lemma {:induction false} CollapseFormulaFirst(t: string, a: nat, m: nat, g: nat)
    requires 1 <= m && a + m <= |t| && OneLine(t, a, a + m)
    requires CollapseFormula(t, a, m).Some? && a + m <= g < CollapseFormula(t, a, m).value.0
    ensures CloseAfter(t, g).None?
    decreases g - (a + m)
  {
    if g > a + m {
      CollapseFormulaFirst(t, a, m + 1, g);
    }
  }

  /** The hit when the group starts at a and the lazy group succeeds. */
  function FormulaHit(t: string, a: nat): (h: Hit)
    requires 2 <= a < |t| && t[a] != '\n' && CollapseFormula(t, a, 1).Some?
    ensures h.Padded? && 0 < h.len <= |t|
  {
    var (f, e) := CollapseFormula(t, a, 1).value;
    Padded(e, a, t[a..f])
  }

  /** The group `(.+?)` can start at a (after the opening dollar sign and at least
      one blank) and the rest of the pattern then matches. */
  predicate FormulaStarts(t: string, a: nat) {
    2 <= a < |t| && t[a] != '\n' && CollapseFormula(t, a, 1).Some?
  }

  /** ` +` after the opening dollar sign holding k blanks, counted down to one. */
  function CollapseLead(t: string, k: nat): (r: Option<Hit>)
    requires 1 + k <= |t| && AllBlank(t, 1, 1 + k)
    ensures r.Some? ==> r.value.Padded? && 0 < r.value.len <= |t|
    decreases k
  {
    if k == 0 then None
    else if FormulaStarts(t, 1 + k) then Some(FormulaHit(t, 1 + k))
    else CollapseLead(t, k - 1)
  }

  /** The collapse pattern tried at the start of t, prev being the character of the
      text just before t (None at the start of the text). */
  function CollapseAt(prev: Option<char>, t: string): (r: Option<Hit>)
    ensures r.Some? ==> r.value.Padded? && 0 < r.value.len <= |t|
  {
    if prev == Some('$') || |t| == 0 || t[0] != '$' then None
    else CollapseLead(t, BlankRun(t, 1))
  }

  /** The replacement template `$\1$`. */
  function CollapseReplacement(h: Hit): string
    requires h.Padded?
  {
    "$" + h.formula + "$"
  }

  /** What a hit h of the collapse pattern at the start of t consists of: a dollar
      sign, blanks, a formula of at least one character on one line, blanks, and a
      dollar sign not followed by another. */
  predicate PaddedMatch(t: string, h: Hit) {
    h.Padded? &&
    var f := h.at + |h.formula|;
    && 2 <= h.at && 1 <= |h.formula| && f + 1 < h.len <= |t| && t[0] == '$'
    && AllBlank(t, 1, h.at) && t[h.at..f] == h.formula && OneLine(t, h.at, f)
    && AllBlank(t, f, h.len - 1) && CloseDollarAt(t, h.len - 1)
  }

  /** The match found with the leading blanks holding k or fewer characters is
      the one the group finds from some a with 2 <= a <= 1 + k. */
  lemma {:induction false} CollapseLeadFrom(t: string, k: nat)
    requires 1 + k <= |t| && AllBlank(t, 1, 1 + k) && CollapseLead(t, k).Some?
    ensures var h := CollapseLead(t, k).value;
      && FormulaStarts(t, h.at) && h.at <= 1 + k && h == FormulaHit(t, h.at)
    decreases k
  {
    if !FormulaStarts(t, 1 + k) {
      CollapseLeadFrom(t, k - 1);
    }
  }

  /** Greedy ` +`: the blanks give back only what they must, so no start of the
      formula further right in the k blanks lets the rest match. */
  lemma {:induction false} CollapseLeadGreedy(t: string, k: nat)
    requires 1 + k <= |t| && AllBlank(t, 1, 1 + k) && CollapseLead(t, k).Some?
    ensures forall a :: CollapseLead(t, k).value.at < a <= 1 + k ==> !FormulaStarts(t, a)
    decreases k
  {
    if !FormulaStarts(t, 1 + k) {
      CollapseLeadGreedy(t, k - 1);
    }
  }

  /** A start of the formula within the k blanks is found by the count-down. */
  lemma {:induction false} CollapseLeadFinds(t: string, k: nat, a: nat)
    requires 1 + k <= |t| && AllBlank(t, 1, 1 + k) && a <= 1 + k && FormulaStarts(t, a)
    ensures CollapseLead(t, k).Some?
    decreases k
  {
    if !FormulaStarts(t, 1 + k) {
      CollapseLeadFinds(t, k - 1, a);
    }
  }

  /** A formula from a to f and a closing part from f to e, after a dollar sign
      and blanks, make a PaddedMatch. */
  lemma PaddedParts(t: string, a: nat, f: nat, e: nat)
    requires 2 <= a < f < e - 1 < e <= |t| && t[0] == '$' && AllBlank(t, 1, a)
    requires OneLine(t, a, f) && AllBlank(t, f, e - 1) && CloseDollarAt(t, e - 1)
    ensures PaddedMatch(t, Padded(e, a, t[a..f]))
  {
    assert a + |t[a..f]| == f;
  }

  /** The hit the group finds from a, after a dollar sign and blanks. */
  lemma FormulaHitShape(t: string, a: nat)
    requires 2 <= a < |t| && t[a] != '\n' && CollapseFormula(t, a, 1).Some?
    requires t[0] == '$' && AllBlank(t, 1, a)
    ensures PaddedMatch(t, FormulaHit(t, a))
  {
    var (f, e) := CollapseFormula(t, a, 1).value;
    PaddedParts(t, a, f, e);
  }

  /** A match of the collapse pattern: a dollar sign not preceded by one, then a
      PaddedMatch. */
  lemma CollapseShape(prev: Option<char>, t: string)
    requires CollapseAt(prev, t).Some?
    ensures prev != Some('$') && PaddedMatch(t, CollapseAt(prev, t).value)
  {
    var h := CollapseAt(prev, t).value;
    var n := BlankRun(t, 1);
    CollapseLeadFrom(t, n);
    assert AllBlank(t, 1, h.at) by {
      assert AllBlank(t, 1, 1 + n);
    }
    FormulaHitShape(t, h.at);
  }

  /** A match never spans a line break. */
  lemma CollapseOneLine(prev: Option<char>, t: string)
    requires CollapseAt(prev, t).Some?
    ensures OneLine(t, 0, CollapseAt(prev, t).value.len)
  {
    var h := CollapseAt(prev, t).value;
    CollapseShape(prev, t);
    var f := h.at + |h.formula|;
    forall k | 0 <= k < h.len ensures t[k] != '\n' {
      if 1 <= k < h.at {
        assert t[k] == ' ';
      } else if f <= k < h.len - 1 {
        assert t[k] == ' ';
      }
    }
  }

  /** Rewriting one match drops at least the two blank runs. */
  lemma CollapseShrinks(prev: Option<char>, t: string)
    requires CollapseAt(prev, t).Some?
    ensures var h := CollapseAt(prev, t).value; |CollapseReplacement(h)| + 2 <= h.len
  {
    CollapseShape(prev, t);
  }

  /** The formula is the shortest one after which blanks and a closing dollar sign
      follow. */
  lemma CollapseLazyFormula(prev: Option<char>, t: string)
    requires CollapseAt(prev, t).Some?
    ensures var h := CollapseAt(prev, t).value;
      && h.at + |h.formula| <= |t|
      && forall g :: h.at + 1 <= g < h.at + |h.formula| ==> CloseAfter(t, g).None?
  {
    var h := CollapseAt(prev, t).value;
    CollapseLeadFrom(t, BlankRun(t, 1));
    var g := CollapseFormula(t, h.at, 1).value.0;
    assert |h.formula| == g - h.at;
    forall g | h.at + 1 <= g < h.at + |h.formula| ensures CloseAfter(t, g).None? {
      CollapseFormulaFirst(t, h.at, 1, g);
    }
  }

  /** A match takes every blank it can after the opening dollar sign: its formula
      starts at the last place in that blank run from which the rest matches. */
  lemma CollapseGreedyBlanks(prev: Option<char>, t: string)
    requires CollapseAt(prev, t).Some?
    ensures var h := CollapseAt(prev, t).value;
      && FormulaStarts(t, h.at) && h.at <= 1 + BlankRun(t, 1)
      && forall a :: h.at < a <= 1 + BlankRun(t, 1) ==> !FormulaStarts(t, a)
  {
    CollapseLeadFrom(t, BlankRun(t, 1));
    CollapseLeadGreedy(t, BlankRun(t, 1));
  }

  /** The closing part after f matches when blanks up to e and a dollar sign not
      followed by another at e come next. */
  lemma CloseAfterFinds(t: string, f: nat, e: nat)
    requires f < e < |t| && AllBlank(t, f, e) && CloseDollarAt(t, e)
    ensures CloseAfter(t, f) == Some(e + 1)
  {
    BlankRunCovers(t, f, e);
    assert BlankRun(t, f) == e - f;
  }

  /** The lazy group misses no end after which the closing part matches. */
  lemma {:induction false} CollapseFormulaFinds(t: string, a: nat, m: nat, f: nat)
    requires 1 <= m && a + m <= f <= |t| && OneLine(t, a, f) && CloseAfter(t, f).Some?
    ensures CollapseFormula(t, a, m).Some?
    decreases f - (a + m)
  {
    if CloseAfter(t, a + m).None? {
      CollapseFormulaFinds(t, a, m + 1, f);
    }
  }

  /** Conversely the collapse pattern misses no match: a dollar sign not after a
      dollar sign, blanks, a formula on one line, blanks, and a dollar sign not
      followed by another are matched. */
  lemma CollapseFinds(prev: Option<char>, t: string, a: nat, f: nat, e: nat)
    requires prev != Some('$') && |t| > 0 && t[0] == '$'
    requires 2 <= a < f < e < |t| && AllBlank(t, 1, a) && OneLine(t, a, f)
    requires AllBlank(t, f, e) && CloseDollarAt(t, e)
    ensures CollapseAt(prev, t).Some?
  {
    CloseAfterFinds(t, f, e);
    CollapseFormulaFinds(t, a, 1, f);
    BlankRunCovers(t, 1, a);
    CollapseLeadFinds(t, BlankRun(t, 1), a);
  }
}

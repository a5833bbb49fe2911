/** The two block-math patterns of app.py (lines 63-64, repeated at 107-108), each
    tried at the start of a suffix t of the text in the order Python's regular
    expression engine tries the alternatives: a greedy `\s*` from its longest run
    down, a lazy `(.*?)` from the empty string up. */
module BlockMath {
  import opened Regex

  const OpenBlock := "\\["
  const CloseBlock := "\\]"
  const BlankLine := "\n\n"
  const NewLine := "\n"

  lemma DelimitersAreNotSpace()
    ensures NonSpace(OpenBlock) == OpenBlock && NonSpace(CloseBlock) == CloseBlock
    ensures NonSpace(BlankLine) == [] && NonSpace(NewLine) == []
  {
  }

  /** `\[` starts at t[i]. */
  predicate OpensAt(t: string, i: nat) {
    i + 2 <= |t| && t[i] == '\\' && t[i + 1] == '['
  }

  /** `\]` starts at t[j]. */
  predicate ClosesAt(t: string, j: nat) {
    j + 2 <= |t| && t[j] == '\\' && t[j + 1] == ']'
  }

  lemma DelimiterSlices(t: string, i: nat)
    ensures OpensAt(t, i) ==> t[i..i + 2] == OpenBlock
    ensures ClosesAt(t, i) ==> t[i..i + 2] == CloseBlock
  {
  }

  // ---------------------------------------------------------------------------
  // ([^\n])(\s*)\\\[(.*?)\\\]([^\n])   with DOTALL  (app.py:63)
  // ---------------------------------------------------------------------------

  /** The part `\\\]([^\n])` of the isolation pattern matches at j. */
  predicate IsolateTailAt(t: string, j: nat) {
    ClosesAt(t, j) && j + 3 <= |t| && t[j + 2] != '\n'
  }

  /** The isolation tail at n + m of t is the tail at m of w, when the part of t
      from n on is w + v and the three characters it reads lie in w. */
  lemma IsolateTailShift(t: string, n: nat, w: string, v: string, m: nat)
    requires n <= |t| && t[n..] == w + v && m + 3 <= |w|
    ensures IsolateTailAt(t, n + m) == IsolateTailAt(w, m)
  {
    assert t[n + m] == t[n..][m] == w[m];
    assert t[n + m + 1] == t[n..][m + 1] == w[m + 1];
    assert t[n + m + 2] == t[n..][m + 2] == w[m + 2];
  }

  /** Lazy `(.*?)` (any character, newlines included) from i, then `\\\]([^\n])`:
      the first position at or after i where that tail matches. */
  function IsolateTail(t: string, i: nat): (r: Option<nat>)
    requires i <= |t|
    ensures r.Some? ==> i <= r.value && IsolateTailAt(t, r.value)
    ensures forall j :: i <= j && (r.None? || j < r.value) ==> !IsolateTailAt(t, j)
    decreases |t| - i
  {
    if IsolateTailAt(t, i) then Some(i)
    else if i < |t| then IsolateTail(t, i + 1)
    else None
  }

  /** The hit when `\[` is at q and the tail matches first at j. */
  function IsolateHit(t: string, q: nat, j: nat): Hit
    requires 1 <= q && q + 2 <= j && IsolateTailAt(t, j)
  {
    Isolated(j + 3, t[0], t[q + 2..j], t[j + 2])
  }

  /** The pattern after its first character, with `(\s*)` holding w characters and
      giving them back one at a time when the rest fails. */
  function IsolateFrom(t: string, w: nat): (r: Option<Hit>)
    requires 1 + w <= |t|
    ensures r.Some? ==> r.value.Isolated? && 0 < r.value.len <= |t|
    decreases w
  {
    var q := 1 + w;
    var tail := if OpensAt(t, q) then IsolateTail(t, q + 2) else None;
    if tail.Some? then Some(IsolateHit(t, q, tail.value))
    else if w == 0 then None
    else IsolateFrom(t, w - 1)
  }

  /** The isolation pattern tried at the start of t. */
  function IsolateAt(t: string): (r: Option<Hit>)
    ensures r.Some? ==> r.value.Isolated? && 0 < r.value.len <= |t|
  {
    if |t| == 0 || t[0] == '\n' then None else IsolateFrom(t, SpaceRun(t, 1))
  }

  /** The replacement template `\1\n\n\\[\3\\]\n\n\4`. */
  function IsolateReplacement(h: Hit): string
    requires h.Isolated?
  {
    [h.lead] + BlankLine + OpenBlock + h.inner + CloseBlock + BlankLine + [h.trail]
  }

  /** Fewer characters in `(\s*)` than its longest run never help: the character
      after them is whitespace, not the backslash of `\[`. */
  lemma {:induction false} IsolateFromBelowRun(t: string, w: nat)
    requires 1 + w <= |t| && w < SpaceRun(t, 1)
    ensures IsolateFrom(t, w) == None
    decreases w
  {
    assert IsSpace(t[1 + w]);
    assert !OpensAt(t, 1 + w);
    if w > 0 {
      IsolateFromBelowRun(t, w - 1);
    }
  }

  /** A match of the isolation pattern always takes the whole whitespace run after
      its first character: the hit is the one found at the longest run. */
  lemma IsolateAtLongestRun(t: string)
    requires IsolateAt(t).Some?
    ensures var q := 1 + SpaceRun(t, 1);
      && OpensAt(t, q) && IsolateTail(t, q + 2).Some?
      && IsolateAt(t).value == IsolateHit(t, q, IsolateTail(t, q + 2).value)
  {
    var w := SpaceRun(t, 1);
    if !(OpensAt(t, 1 + w) && IsolateTail(t, 1 + w + 2).Some?) {
      if w > 0 {
        IsolateFromBelowRun(t, w - 1);
      }
      assert false;
    }
  }

  /** What a hit h of the isolation pattern at the start of t consists of, `\[`
      being at q: a first character other than a newline, whitespace up to q,
      `\[`, an inner text, `\]`, and a character other than a newline. */
  predicate IsolateMatch(t: string, q: nat, h: Hit) {
    h.Isolated? &&
    var j := q + 2 + |h.inner|;
    && 1 <= q && h.len == j + 3 <= |t|
    && t[0] == h.lead != '\n'
    && AllSpace(t, 1, q)
    && OpensAt(t, q) && t[q + 2..j] == h.inner && ClosesAt(t, j)
    && t[j + 2] == h.trail != '\n'
  }

  /** The inner text of h is the shortest one after which `\]` and a character
      other than a newline follow. */
  predicate IsolateLazy(t: string, q: nat, h: Hit)
    requires h.Isolated?
  {
    forall k :: q + 2 <= k < q + 2 + |h.inner| ==> !IsolateTailAt(t, k)
  }

  lemma IsolateHitMatch(t: string, q: nat, j: nat)
    requires |t| > 0 && t[0] != '\n' && 1 <= q <= |t| && AllSpace(t, 1, q) && OpensAt(t, q)
    requires q + 2 <= j && IsolateTailAt(t, j)
    ensures IsolateMatch(t, q, IsolateHit(t, q, j))
  {
    var h := IsolateHit(t, q, j);
    assert q + 2 + |h.inner| == j;
  }

  lemma IsolateHitLazy(t: string, q: nat, j: nat)
    requires 1 <= q && q + 2 <= j <= |t|
    requires forall k :: q + 2 <= k < j ==> !IsolateTailAt(t, k)
    requires IsolateTailAt(t, j)
    ensures IsolateLazy(t, q, IsolateHit(t, q, j))
  {
    assert |IsolateHit(t, q, j).inner| == j - (q + 2);
  }

  /** What a match of the isolation pattern consists of: the whole whitespace run
      after the first character comes before `\[`, and the inner text is the
      shortest possible. */
  lemma IsolateShape(t: string)
    requires IsolateAt(t).Some?
    ensures var q := 1 + SpaceRun(t, 1);
      IsolateMatch(t, q, IsolateAt(t).value) && IsolateLazy(t, q, IsolateAt(t).value)
  {
    IsolateAtLongestRun(t);
    var q := 1 + SpaceRun(t, 1);
    var j := IsolateTail(t, q + 2).value;
    IsolateHitMatch(t, q, j);
    IsolateHitLazy(t, q, j);
  }

  /** `\[` at q is an occurrence of `\[` in t. */
  lemma OpensOccur(t: string, q: nat)
    requires OpensAt(t, q)
    ensures Occurs(OpenBlock, t)
  {
    DelimiterSlices(t, q);
    assert OpenBlock <= t[q..];
    OccursAt(OpenBlock, t, q);
  }

  /** The isolation pattern matches only where `\[` occurs. */
  lemma IsolateNeedsOpen(t: string)
    requires IsolateAt(t).Some?
    ensures Occurs(OpenBlock, t)
  {
    IsolateAtLongestRun(t);
    OpensOccur(t, 1 + SpaceRun(t, 1));
  }

  /** Conversely the pattern misses no match: when the first character is not a
      newline, `\[` follows the whitespace run after it, and `\]` with a
      non-newline character after it follows somewhere later, a match is found. */
  lemma IsolateFinds(t: string, j: nat)
    requires |t| > 0 && t[0] != '\n' && OpensAt(t, 1 + SpaceRun(t, 1))
    requires 1 + SpaceRun(t, 1) + 2 <= j && IsolateTailAt(t, j)
    ensures IsolateAt(t).Some?
  {
  }

  /** A text cut into a character, whitespace, `\[`, an inner text, `\]` and a
      character. */
  lemma IsolatedTextParts(t: string, q: nat, j: nat)
    requires 1 <= q && q + 2 <= j && j + 3 <= |t| && OpensAt(t, q) && ClosesAt(t, j)
    ensures t[..j + 3] == [t[0]] + t[1..q] + OpenBlock + t[q + 2..j] + CloseBlock + [t[j + 2]]
  {
    DelimiterSlices(t, q);
    DelimiterSlices(t, j);
    assert t[..j + 3] == t[..1] + t[1..q] + t[q..q + 2] + t[q + 2..j] + t[j..j + 2] + t[j + 2..j + 3];
  }

  /** The non-whitespace characters of such a text. */
  lemma IsolatedTextNonSpace(t: string, q: nat, j: nat, h: Hit)
    requires 1 <= q && q + 2 <= j && j + 3 <= |t|
    requires AllSpace(t, 1, q) && OpensAt(t, q) && ClosesAt(t, j)
    requires h.Isolated? && t[0] == h.lead && t[q + 2..j] == h.inner && t[j + 2] == h.trail
    ensures NonSpace(t[..j + 3]) == NonSpace([h.lead]) + OpenBlock + NonSpace(h.inner) + CloseBlock + NonSpace([h.trail])
  {
    IsolatedTextParts(t, q, j);
    NonSpaceOfSpaceSlice(t, 1, q);
    DelimitersAreNotSpace();
    NonSpaceConcat6([t[0]], t[1..q], OpenBlock, t[q + 2..j], CloseBlock, [t[j + 2]]);
  }

  lemma IsolateReplacementNonSpace(h: Hit)
    requires h.Isolated?
    ensures NonSpace(IsolateReplacement(h))
         == NonSpace([h.lead]) + OpenBlock + NonSpace(h.inner) + CloseBlock + NonSpace([h.trail])
  {
    DelimitersAreNotSpace();
    NonSpaceConcat6([h.lead] + BlankLine, OpenBlock, h.inner, CloseBlock, BlankLine, [h.trail]);
    NonSpaceAppend([h.lead], BlankLine);
  }

  /** Rewriting one match changes whitespace only. */
  lemma IsolateKeepsNonSpace(t: string)
    requires IsolateAt(t).Some?
    ensures var h := IsolateAt(t).value;
      NonSpace(IsolateReplacement(h)) == NonSpace(t[..h.len])
  {
    var h := IsolateAt(t).value;
    IsolateShape(t);
    IsolatedTextNonSpace(t, 1 + SpaceRun(t, 1), 1 + SpaceRun(t, 1) + 2 + |h.inner|, h);
    IsolateReplacementNonSpace(h);
  }

  // ---------------------------------------------------------------------------
  // ^(\s*)\\\[(.*?)\\\](\s*)(?=\n|$)   with MULTILINE | DOTALL  (app.py:64)
  // ---------------------------------------------------------------------------

  /** `(?=\n|$)` under MULTILINE holds at e: the end of the text or a newline. */
  predicate BreakAt(t: string, e: nat) {
    e == |t| || (e < |t| && t[e] == '\n')
  }

  /** `(\s*)(?=\n|$)` after `\]`, starting at a, the group holding w characters
      and giving them back one at a time: where the match ends. */
  function LineEnd(t: string, a: nat, w: nat): (r: Option<nat>)
    requires a + w <= |t|
    ensures r.Some? ==> a <= r.value <= a + w && BreakAt(t, r.value)
    decreases w
  {
    if BreakAt(t, a + w) then Some(a + w)
    else if w == 0 then None
    else LineEnd(t, a, w - 1)
  }

  /** Greedy: the match ends at the LAST line break the group can reach, and the
      group fails only when it reaches none. */
  lemma {:induction false} LineEndLast(t: string, a: nat, w: nat, e: nat)
    requires a + w <= |t| && a <= e <= a + w && BreakAt(t, e)
    ensures LineEnd(t, a, w).Some? && e <= LineEnd(t, a, w).value
    decreases w
  {
    if !BreakAt(t, a + w) {
      LineEndLast(t, a, w - 1, e);
    }
  }

  /** Where the line pattern ends when `\]` is at j, if it can end there. */
  function LineEndAfter(t: string, j: nat): Option<nat>
    requires j + 2 <= |t|
  {
    LineEnd(t, j + 2, SpaceRun(t, j + 2))
  }

  /** The part `\\\](\s*)(?=\n|$)` of the line pattern matches at j. */
  predicate LineTailAt(t: string, j: nat) {
    ClosesAt(t, j) && LineEndAfter(t, j).Some?
  }

  /** The line end found from a inside u is found from n + a in a text whose part
      from n on is u + v. */
  lemma {:induction false} LineEndShift(t: string, n: nat, u: string, v: string, a: nat, w: nat)
    requires n <= |t| && t[n..] == u + v && a + w < |u|
    ensures LineEnd(t, n + a, w).Some? == LineEnd(u, a, w).Some?
    decreases w
  {
    assert t[n + a + w] == t[n..][a + w] == u[a + w];
    if w > 0 {
      LineEndShift(t, n, u, v, a, w - 1);
    }
  }

  /** The line tail at n + k of t is the tail at k of u, when the whitespace after
      the `\\]` at k stops inside u. */
  lemma LineTailShift(t: string, n: nat, u: string, v: string, k: nat)
    requires n <= |t| && t[n..] == u + v && k + 2 <= |u| && k + 2 + SpaceRun(u, k + 2) < |u|
    ensures LineTailAt(t, n + k) == LineTailAt(u, k)
  {
    assert t[n + k] == t[n..][k] == u[k];
    assert t[n + k + 1] == t[n..][k + 1] == u[k + 1];
    SpaceRunShift(t, n, u, v, k + 2);
    LineEndShift(t, n, u, v, k + 2, SpaceRun(u, k + 2));
  }

  /** Inside x + `\\]` the whitespace after any `\\]` of x stops inside the text:
      at the latest at the closing `]`. */
  lemma LineTailInside(x: string, k: nat)
    requires k < |x|
    ensures var u := x + CloseBlock; k + 2 + SpaceRun(u, k + 2) < |u|
  {
    var u := x + CloseBlock;
    assert u[|x| + 1] == ']';
    SpaceRunStops(u, k + 2, |x| + 1);
  }

  /** Lazy `(.*?)` from i, then `\\\](\s*)(?=\n|$)`: the first position at or after
      i where that tail matches. */
  function LineTail(t: string, i: nat): (r: Option<nat>)
    requires i <= |t|
    ensures r.Some? ==> i <= r.value && LineTailAt(t, r.value)
    decreases |t| - i
  {
    if LineTailAt(t, i) then Some(i)
    else if i < |t| then LineTail(t, i + 1)
    else None
  }

  /** Lazy: no position from i up to the one found (or any position when none is
      found) completes the pattern. */
  lemma {:induction false} LineTailFirst(t: string, i: nat, j: nat)
    requires i <= j <= |t| && (LineTail(t, i).None? || j < LineTail(t, i).value)
    ensures !LineTailAt(t, j)
    decreases j - i
  {
    if j > i {
      LineTailFirst(t, i + 1, j);
    }
  }

  lemma LineTailNoneBefore(t: string, i: nat)
    requires i <= |t| && LineTail(t, i).Some?
    ensures forall k :: i <= k < LineTail(t, i).value ==> !LineTailAt(t, k)
  {
    forall k | i <= k < LineTail(t, i).value ensures !LineTailAt(t, k) {
      LineTailFirst(t, i, k);
    }
  }

  /** The hit when `\[` is at q and the tail matches first at j. */
  function LineHit(t: string, q: nat, j: nat): Hit
    requires q + 2 <= j && LineTailAt(t, j)
  {
    LineBlock(LineEndAfter(t, j).value, t[q + 2..j])
  }

  /** The line pattern after `^`, with the leading `(\s*)` holding w characters
      and giving them back one at a time. */
  function LineFrom(t: string, w: nat): (r: Option<Hit>)
    requires w <= |t|
    ensures r.Some? ==> r.value.LineBlock? && 0 < r.value.len <= |t|
    decreases w
  {
    var tail := if OpensAt(t, w) then LineTail(t, w + 2) else None;
    if tail.Some? then Some(LineHit(t, w, tail.value))
    else if w == 0 then None
    else LineFrom(t, w - 1)
  }

  /** The line pattern tried at the start of t, prev being the character of the
      text just before t (None at the start of the text). */
  function LineStartAt(prev: Option<char>, t: string): (r: Option<Hit>)
    ensures r.Some? ==> r.value.LineBlock? && 0 < r.value.len <= |t|
  {
    if prev.Some? && prev.value != '\n' then None else LineFrom(t, SpaceRun(t, 0))
  }

  /** The replacement template `\n\\[\2\\]\n`. */
  function LineReplacement(h: Hit): string
    requires h.LineBlock?
  {
    NewLine + OpenBlock + h.inner + CloseBlock + NewLine
  }

  lemma {:induction false} LineFromBelowRun(t: string, w: nat)
    requires w <= |t| && w < SpaceRun(t, 0)
    ensures LineFrom(t, w) == None
    decreases w
  {
    assert IsSpace(t[w]);
    assert !OpensAt(t, w);
    if w > 0 {
      LineFromBelowRun(t, w - 1);
    }
  }

  /** A match of the line pattern always takes the whole whitespace run at the
      start of the line: the hit is the one found at the longest run. */
  lemma LineAtLongestRun(prev: Option<char>, t: string)
    requires LineStartAt(prev, t).Some?
    ensures var q := SpaceRun(t, 0);
      && (prev.None? || prev.value == '\n')
      && OpensAt(t, q) && LineTail(t, q + 2).Some?
      && LineStartAt(prev, t).value == LineHit(t, q, LineTail(t, q + 2).value)
  {
    var q := SpaceRun(t, 0);
    if !(OpensAt(t, q) && LineTail(t, q + 2).Some?) {
      if q > 0 {
        LineFromBelowRun(t, q - 1);
      }
      assert false;
    }
  }

  /** The line pattern matches only where `\[` occurs. */
  lemma LineNeedsOpen(prev: Option<char>, t: string)
    requires LineStartAt(prev, t).Some?
    ensures Occurs(OpenBlock, t)
  {
    LineAtLongestRun(prev, t);
    OpensOccur(t, SpaceRun(t, 0));
  }

  /** Conversely the line pattern misses no match: at the start of a line, with
      `\[` after the leading whitespace run and, somewhere later, `\]` followed by
      whitespace up to a line break or the end of the text, a match is found. */
  lemma LineFinds(prev: Option<char>, t: string, j: nat)
    requires prev.None? || prev.value == '\n'
    requires OpensAt(t, SpaceRun(t, 0)) && SpaceRun(t, 0) + 2 <= j && LineTailAt(t, j)
    ensures LineStartAt(prev, t).Some?
  {
    var q := SpaceRun(t, 0);
    if LineTail(t, q + 2).None? {
      LineTailFirst(t, q + 2, j);
      assert false;
    }
  }

  /** What a hit h of the line pattern at the start of t consists of: the whole
      whitespace run at the start of the line, `\[`, the inner text, `\]`, and
      whitespace up to a line break or the end of the text. */
  predicate LineMatch(t: string, h: Hit) {
    h.LineBlock? &&
    var q := SpaceRun(t, 0); var j := q + 2 + |h.inner|;
    && j + 2 <= h.len <= |t|
    && AllSpace(t, 0, q)
    && OpensAt(t, q) && t[q + 2..j] == h.inner && ClosesAt(t, j)
    && AllSpace(t, j + 2, h.len) && BreakAt(t, h.len)
  }

  /** The inner text of h is the shortest one after which the rest of the
      pattern matches. */
  predicate LineLazy(t: string, h: Hit)
    requires h.LineBlock?
  {
    var q := SpaceRun(t, 0);
    forall k :: q + 2 <= k < q + 2 + |h.inner| ==> !LineTailAt(t, k)
  }

  /** The whitespace after the `\]` of h reaches the LAST line break inside the
      whitespace run there. */
  predicate LineGreedy(t: string, h: Hit)
    requires h.LineBlock?
  {
    var j := SpaceRun(t, 0) + 2 + |h.inner|;
    j + 2 <= |t| && forall e :: h.len < e <= j + 2 + SpaceRun(t, j + 2) ==> !BreakAt(t, e)
  }

  /** The hit found with `\[` after the whitespace run and `\]` at j. */
  lemma LineHitShape(t: string, j: nat)
    requires OpensAt(t, SpaceRun(t, 0)) && SpaceRun(t, 0) + 2 <= j && LineTailAt(t, j)
    ensures LineMatch(t, LineHit(t, SpaceRun(t, 0), j))
  {
    var q := SpaceRun(t, 0);
    var h := LineHit(t, q, j);
    var r := SpaceRun(t, j + 2);
    var e := LineEnd(t, j + 2, r).value;
    assert j + 2 <= e <= j + 2 + r;
    assert |h.inner| == j - (q + 2);
  }

  /** The end of a hit found with `\]` at j is the LAST break the whitespace run
      after `\]` reaches. */
  lemma LineHitGreedyEnd(t: string, q: nat, j: nat, e: nat)
    requires q + 2 <= j && LineTailAt(t, j)
    requires LineHit(t, q, j).len < e <= j + 2 + SpaceRun(t, j + 2)
    ensures !BreakAt(t, e)
  {
    if BreakAt(t, e) {
      LineEndLast(t, j + 2, SpaceRun(t, j + 2), e);
    }
  }

  lemma LineHitGreedy(t: string, j: nat)
    requires SpaceRun(t, 0) + 2 <= j && LineTailAt(t, j)
    ensures LineGreedy(t, LineHit(t, SpaceRun(t, 0), j))
  {
    var q := SpaceRun(t, 0);
    var h := LineHit(t, q, j);
    assert |h.inner| == j - (q + 2);
    forall e | h.len < e <= j + 2 + SpaceRun(t, j + 2) ensures !BreakAt(t, e) {
      LineHitGreedyEnd(t, q, j, e);
    }
  }

  lemma LineHitLazy(t: string)
    requires SpaceRun(t, 0) + 2 <= |t| && LineTail(t, SpaceRun(t, 0) + 2).Some?
    ensures LineLazy(t, LineHit(t, SpaceRun(t, 0), LineTail(t, SpaceRun(t, 0) + 2).value))
  {
    var q := SpaceRun(t, 0);
    var j := LineTail(t, q + 2).value;
    var h := LineHit(t, q, j);
    assert |h.inner| == j - (q + 2);
    LineTailNoneBefore(t, q + 2);
  }

  /** What a match of the line pattern consists of: it starts a line and is a
      LineMatch. */
  lemma LineShape(prev: Option<char>, t: string)
    requires LineStartAt(prev, t).Some?
    ensures prev.None? || prev.value == '\n'
    ensures LineMatch(t, LineStartAt(prev, t).value)
  {
    LineAtLongestRun(prev, t);
    LineHitShape(t, LineTail(t, SpaceRun(t, 0) + 2).value);
  }

  /** The inner text is the shortest one after which the rest of the pattern
      matches. */
  lemma LineLazyInner(prev: Option<char>, t: string)
    requires LineStartAt(prev, t).Some?
    ensures LineLazy(t, LineStartAt(prev, t).value)
  {
    LineAtLongestRun(prev, t);
    var q := SpaceRun(t, 0);
    var h := LineHit(t, q, LineTail(t, q + 2).value);
    assert LineStartAt(prev, t).value == h;
    LineHitLazy(t);
  }

  /** The whitespace after `\]` reaches the LAST line break inside the whitespace
      run there (so blank lines after a block are taken too). */
  lemma LineGreedyEnd(prev: Option<char>, t: string)
    requires LineStartAt(prev, t).Some?
    ensures LineGreedy(t, LineStartAt(prev, t).value)
  {
    LineAtLongestRun(prev, t);
    LineHitGreedy(t, LineTail(t, SpaceRun(t, 0) + 2).value);
  }

  /** A text cut into whitespace, `\[`, an inner text, `\]` and whitespace. */
  lemma LineTextParts(t: string, q: nat, j: nat, e: nat)
    requires q + 2 <= j && j + 2 <= e <= |t| && OpensAt(t, q) && ClosesAt(t, j)
    ensures t[..e] == t[..q] + OpenBlock + t[q + 2..j] + CloseBlock + t[j + 2..e]
  {
    DelimiterSlices(t, q);
    DelimiterSlices(t, j);
    assert t[..e] == t[..q] + t[q..q + 2] + t[q + 2..j] + t[j..j + 2] + t[j + 2..e];
  }

  /** Blank text around a formula in block delimiters drops out. */
  lemma NonSpaceFramed(a: string, c: string, e: string)
    requires NonSpace(a) == [] && NonSpace(e) == []
    ensures NonSpace(a + OpenBlock + c + CloseBlock + e) == OpenBlock + NonSpace(c) + CloseBlock
  {
    DelimitersAreNotSpace();
    NonSpaceAppend(a + OpenBlock + c + CloseBlock, e);
    NonSpaceAppend(a + OpenBlock + c, CloseBlock);
    NonSpaceAppend(a + OpenBlock, c);
    NonSpaceAppend(a, OpenBlock);
  }

  /** The non-whitespace characters of such a text. */
  lemma LineTextNonSpace(t: string, q: nat, j: nat, e: nat, inner: string)
    requires q + 2 <= j && j + 2 <= e <= |t|
    requires AllSpace(t, 0, q) && OpensAt(t, q) && ClosesAt(t, j) && AllSpace(t, j + 2, e)
    requires t[q + 2..j] == inner
    ensures NonSpace(t[..e]) == OpenBlock + NonSpace(inner) + CloseBlock
  {
    LineTextParts(t, q, j, e);
    NonSpaceOfSpaceSlice(t, 0, q);
    NonSpaceOfSpaceSlice(t, j + 2, e);
    assert t[0..q] == t[..q];
    NonSpaceFramed(t[..q], inner, t[j + 2..e]);
  }

  lemma LineReplacementNonSpace(h: Hit)
    requires h.LineBlock?
    ensures NonSpace(LineReplacement(h)) == OpenBlock + NonSpace(h.inner) + CloseBlock
  {
    DelimitersAreNotSpace();
    NonSpaceConcat6(NewLine, OpenBlock, h.inner, CloseBlock, NewLine, []);
    assert NewLine + OpenBlock + h.inner + CloseBlock + NewLine + [] == LineReplacement(h);
  }

  /** Rewriting one match changes whitespace only. */
  lemma LineKeepsNonSpace(prev: Option<char>, t: string)
    requires LineStartAt(prev, t).Some?
    ensures var h := LineStartAt(prev, t).value;
      NonSpace(LineReplacement(h)) == NonSpace(t[..h.len])
  {
    var h := LineStartAt(prev, t).value;
    LineShape(prev, t);
    var q := SpaceRun(t, 0);
    LineTextNonSpace(t, q, q + 2 + |h.inner|, h.len, h.inner);
    LineReplacementNonSpace(h);
  }
}

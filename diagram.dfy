/** The diagram-fence pattern of the preview (app.py:67-77): a fenced block whose
    info string starts with one of three diagram tags is replaced by the image the
    renderer makes from its stripped body, or by an error note when rendering
    fails. */
module Diagram {
  import opened Regex

  /** What a call of the renderer ends in: the base64 text of the image, or the
      message of the exception it raised. */
  datatype Result<T> = Ok(value: T) | Err(message: string)

  /** The mermaid command line behind `generate_mermaid_image`, seen only as a
      function from diagram source to base64 text or error message. */
  type Renderer = string -> Result<string>

  /** The alternation `(mermaid|sequence|flowchart)`, in the order it is tried. */
  const Mermaid := "mermaid"
  const Sequence := "sequence"
  const Flowchart := "flowchart"
  const Tags: seq<string> := [Mermaid, Sequence, Flowchart]

  const Fence := "```"
  const ImageOpen := "\n![](data:image/png;base64,"
  const ImageClose := ")\n"
  const ErrorOpen := "\n**[Mermaid Error: "
  const ErrorClose := "]**\n"

  /** Three backquotes start at t[j]. */
  predicate TicksAt(t: string, j: nat) {
    j + 3 <= |t| && t[j] == '`' && t[j + 1] == '`' && t[j + 2] == '`'
  }

  lemma TicksSlice(t: string, j: nat)
    requires TicksAt(t, j)
    ensures t[j..j + 3] == Fence
  {
  }

  /** Lazy `(.*?)` (newlines included) from i, then three backquotes: the first
      position at or after i where backquotes start. */
  function FenceClose(t: string, i: nat): (r: Option<nat>)
    requires i <= |t|
    ensures r.Some? ==> i <= r.value && TicksAt(t, r.value)
    decreases |t| - i
  {
    if TicksAt(t, i) then Some(i)
    else if i < |t| then FenceClose(t, i + 1)
    else None
  }

  /** Lazy: no backquote triple starts between i and the one found, and none at all
      when none is found. */
  lemma {:induction false} FenceCloseFirst(t: string, i: nat, j: nat)
    requires i <= j <= |t| && (FenceClose(t, i).None? || j < FenceClose(t, i).value)
    ensures !TicksAt(t, j)
    decreases j - i
  {
    if j > i {
      FenceCloseFirst(t, i + 1, j);
    }
  }

  /** The lazy search misses no backquote triple. */
  lemma {:induction false} FenceCloseFinds(t: string, i: nat, j: nat)
    requires i <= j && TicksAt(t, j)
    ensures FenceClose(t, i).Some? && FenceClose(t, i).value <= j
    decreases j - i
  {
    if !TicksAt(t, i) {
      FenceCloseFinds(t, i + 1, j);
    }
  }

  /** Backquotes at n + m of t are backquotes at m of w when t goes on from n
      with w and the triple lies inside w. */
  lemma TicksShift(t: string, n: nat, w: string, v: string, m: nat)
    requires n <= |t| && t[n..] == w + v && m + 3 <= |w|
    ensures TicksAt(t, n + m) == TicksAt(w, m)
  {
    assert t[n + m] == t[n..][m] == w[m];
    assert t[n + m + 1] == t[n..][m + 1] == w[m + 1];
    assert t[n + m + 2] == t[n..][m + 2] == w[m + 2];
  }

  /** One alternative of the tag group: the tag after the opening backquotes at
      the start of t, then the lazy body and the closing backquotes. */
  function TagTry(t: string, tag: string): (r: Option<Hit>)
    ensures r.Some? ==> r.value.Fenced? && r.value.tag == tag && 0 < r.value.len <= |t|
  {
    var close := if 3 + |tag| <= |t| && tag <= t[3..] then FenceClose(t, 3 + |tag|) else None;
    if close.Some? then Some(Fenced(close.value + 3, tag, t[3 + |tag|..close.value])) else None
  }

  /** The diagram pattern tried at the start of t, the tags in the order of the
      alternation. */
  function DiagramAt(t: string): (r: Option<Hit>)
    ensures r.Some? ==> r.value.Fenced? && 0 < r.value.len <= |t|
  {
    if !TicksAt(t, 0) then None
    else if TagTry(t, Mermaid).Some? then TagTry(t, Mermaid)
    else if TagTry(t, Sequence).Some? then TagTry(t, Sequence)
    else TagTry(t, Flowchart)
  }

  /** What one alternative matches: the tag, the shortest body, the backquotes. */
  lemma TagTryShape(t: string, tag: string)
    requires TagTry(t, tag).Some?
    ensures var h := TagTry(t, tag).value; var i := 3 + |tag|; var j := i + |h.body|;
      && h.len == j + 3 && t[3..i] == tag && t[i..j] == h.body && TicksAt(t, j)
      && (forall k :: i <= k < j ==> !TicksAt(t, k))
  {
    var i := 3 + |tag|;
    var j := FenceClose(t, i).value;
    forall k | i <= k < j ensures !TicksAt(t, k) {
      FenceCloseFirst(t, i, k);
    }
  }

  /** What a match of the diagram pattern consists of: backquotes, one of the
      three tags, the shortest body, and the first backquotes after it. */
  lemma DiagramShape(t: string)
    requires DiagramAt(t).Some?
    ensures var h := DiagramAt(t).value; var i := 3 + |h.tag|; var j := i + |h.body|;
      && h.tag in Tags && h.len == j + 3
      && TicksAt(t, 0) && t[3..i] == h.tag && t[i..j] == h.body && TicksAt(t, j)
      && (forall k :: i <= k < j ==> !TicksAt(t, k))
  {
    var h := DiagramAt(t).value;
    TagTryShape(t, h.tag);
  }

  /** Conversely a fence with a diagram tag and closing backquotes after it is
      always matched, with that tag. */
  lemma DiagramFinds(t: string, tag: string, j: nat)
    requires tag in Tags && TicksAt(t, 0) && 3 + |tag| <= j && tag <= t[3..] && TicksAt(t, j)
    ensures DiagramAt(t).Some? && DiagramAt(t).value.tag == tag
  {
    FenceCloseFinds(t, 3 + |tag|, j);
    assert t[3] == tag[0];
    if tag == Mermaid {
    } else if tag == Sequence {
      assert !(Mermaid <= t[3..]);
    } else {
      assert !(Mermaid <= t[3..]) && !(Sequence <= t[3..]);
    }
  }

  // ---------------------------------------------------------------------------
  // str.strip()
  // ---------------------------------------------------------------------------

  /** The length of the whitespace run at the end of x. */
  function TrailingSpace(x: string): (n: nat)
    ensures n <= |x| && AllSpace(x, |x| - n, |x|)
    ensures n == |x| || !IsSpace(x[|x| - n - 1])
  {
    if |x| > 0 && IsSpace(x[|x| - 1]) then
      var y := x[..|x| - 1];
      var m := TrailingSpace(y);
      assert forall k :: |y| - m <= k < |y| ==> x[k] == y[k];
      1 + m
    else 0
  }

  /** `str.strip()`: x without the whitespace at either end. */
  function Strip(x: string): string
  {
    var a := SpaceRun(x, 0);
    if a == |x| then []
    else
      assert !IsSpace(x[a]);
      x[a..|x| - TrailingSpace(x)]
  }

  /** Stripping removes exactly a whitespace prefix and a whitespace suffix, and
      what remains, when anything does, neither starts nor ends with whitespace. */
  lemma StripShape(x: string)
    ensures var r := Strip(x); var a := SpaceRun(x, 0);
      && a + |r| <= |x| && r == x[a..a + |r|]
      && AllSpace(x, 0, a) && AllSpace(x, a + |r|, |x|)
      && (r != [] ==> !IsSpace(r[0]) && !IsSpace(r[|r| - 1]))
  {
  }

  /** Stripping removes whitespace only. */
  lemma StripKeepsNonSpace(x: string)
    ensures NonSpace(Strip(x)) == NonSpace(x)
  {
    var r := Strip(x);
    var a := SpaceRun(x, 0);
    StripShape(x);
    var e := a + |r|;
    assert x == x[0..a] + r + x[e..|x|];
    NonSpaceOfSpaceSlice(x, 0, a);
    NonSpaceOfSpaceSlice(x, e, |x|);
    NonSpaceAppend(x[0..a] + r, x[e..|x|]);
    NonSpaceAppend(x[0..a], r);
  }

  // ---------------------------------------------------------------------------
  // repl (app.py:69-75)
  // ---------------------------------------------------------------------------

  /** The image line for the base64 text of a rendered diagram. */
  function ImageMarkdown(b64: string): string
  {
    ImageOpen + b64 + ImageClose
  }

  /** The note that replaces a diagram the renderer failed on. */
  function ErrorMarkdown(message: string): string
  {
    ErrorOpen + message + ErrorClose
  }

  /** The text `repl` returns for a match: the image built from the stripped body,
      or the error note when the renderer fails. */
  function DiagramReplacement(render: Renderer, h: Hit): string
    requires h.Fenced?
  {
    match render(Strip(h.body))
    case Ok(b64) => ImageMarkdown(b64)
    case Err(msg) => ErrorMarkdown(msg)
  }
}

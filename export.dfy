/** The Markdown text the export hands to pandoc (app.py:103-121): `\[1mm]` turned
    into `\vspace{1mm}`, the block-math passes, the arithmatex spans unwrapped,
    the LaTeX delimiters turned into dollar signs, and the blanks inside inline
    dollar math dropped. */
module Export {
  import opened Regex
  import opened BlockMath
  import opened ExportRules
  import opened ReSub
  import opened Preview

  const VspacePat: Token := "\\[1mm]"
  const VspaceRep := "\\vspace{1mm}"

  /** `re.sub(r"\\\[1mm\]", r"\\vspace{1mm}", md_text)` (app.py:104). */
  const Vspace := Literal(VspacePat, VspaceRep)

  /** Backslash followed by e: the literal patterns of the delimiter remap. */
  function Delim(e: char): Token
  {
    ['\\', e]
  }

  /** One pass of the delimiter remap (app.py:113-117). */
  function RemapPass(e: char, rep: string): Rule
  {
    Literal(Delim(e), rep)
  }

  /** The four passes of the remap, in the order of the source. */
  function Remap(s: string): string
  {
    var parens := Apply(RemapPass(')', "$"), Apply(RemapPass('(', "$"), s));
    Apply(RemapPass(']', "$$"), Apply(RemapPass('[', "$$"), parens))
  }

  /** The passes after the vspace one (app.py:107-121). */
  function LaterPasses(s: string): string
  {
    Apply(CollapseSpacing, Remap(Apply(UnwrapSpan, BlockPasses(s))))
  }

  /** `cleaned_md` of the export, for an input text s. */
  function ExportMarkdown(s: string): string
  {
    LaterPasses(Apply(Vspace, s))
  }

  // ---------------------------------------------------------------------------
  // Literal passes
  // ---------------------------------------------------------------------------

  /** A literal pass at a match. */
  lemma LiteralHit(pat: Token, rep: string, t: string)
    requires pat <= t
    ensures Apply(Literal(pat, rep), t) == rep + Apply(Literal(pat, rep), t[|pat|..])
  {
    SubPrevFree(Literal(pat, rep), Some(t[|pat| - 1]), None, t[|pat|..]);
  }

  /** A literal pass where the pattern does not match. */
  lemma LiteralMiss(pat: Token, rep: string, t: string)
    requires t != [] && !(pat <= t)
    ensures Apply(Literal(pat, rep), t) == [t[0]] + Apply(Literal(pat, rep), t[1..])
  {
    SubPrevFree(Literal(pat, rep), Some(t[0]), None, t[1..]);
  }

  /** Every occurrence of a literal pattern is replaced, and the text between
      occurrences is kept: here a text x in which the pattern does not occur,
      then the pattern, then the rest. The pattern must not overlap itself, as
      every literal of app.py does not. */
  lemma LiteralBlock(pat: Token, rep: string, x: string, y: string)
    requires !Occurs(pat, x) && pat[0] !in pat[1..]
    ensures Apply(Literal(pat, rep), x + (pat + y)) == x + rep + Apply(Literal(pat, rep), y)
  {
    var rule := Literal(pat, rep);
    var t := pat + y;
    var u := x + t;
    forall k | 0 <= k < |x| ensures MatchAt(rule, PrevAt(None, u, k), u[k..]).None? {
      LiteralNotBefore(pat, rep, x, y, k);
    }
    SubPassThrough(rule, None, x, t);
    SubPrevFree(rule, PrevAt(None, u, |x|), None, t);
    assert t[|pat|..] == y;
    LiteralHit(pat, rep, t);
    AppendAssoc(x, rep, Apply(rule, y));
  }

  lemma LiteralNotBefore(pat: Token, rep: string, x: string, y: string, k: nat)
    requires !Occurs(pat, x) && pat[0] !in pat[1..] && k < |x|
    ensures var u := x + (pat + y); !(pat <= u[k..])
  {
    var u := x + (pat + y);
    assert u[0..] == x + pat + y;
    WordInside(u, 0, x, pat, y, k);
    assert k + |pat| <= |u| ==> u[k..][..|pat|] == u[k..k + |pat|];
  }

  /** A text without the pattern is left as it is. */
  lemma LiteralAbsent(pat: Token, rep: string, s: string)
    requires !Occurs(pat, s)
    ensures Apply(Literal(pat, rep), s) == s
  {
    SubWithoutAnchor(Literal(pat, rep), None, s);
  }

  /** The first character a literal pass puts out. */
  lemma LiteralFirst(pat: Token, rep: string, t: string)
    requires t != [] && rep != []
    ensures Apply(Literal(pat, rep), t)[0] == (if pat <= t then rep[0] else t[0])
    ensures !(pat <= t) ==> Apply(Literal(pat, rep), t) == [t[0]] + Apply(Literal(pat, rep), t[1..])
  {
    if pat <= t {
      LiteralHit(pat, rep, t);
    } else {
      LiteralMiss(pat, rep, t);
    }
  }

  /** A block the replacement's first character is not in starts the output of a
      literal pass only where it starts the input. */
  lemma {:induction false} LiteralHeadCopied(pat: Token, rep: string, w: string, t: string)
    requires rep != [] && rep[0] !in w && w <= Apply(Literal(pat, rep), t)
    ensures w <= t
    decreases |w|
  {
    if w != [] {
      LiteralFirst(pat, rep, t);
      var r := Apply(Literal(pat, rep), t[1..]);
      PrefixTail(w, t[0], r);
      LiteralHeadCopied(pat, rep, w[1..], t[1..]);
      PrefixCons(w, t);
    }
  }

  lemma VspaceFacts()
    ensures |VspacePat| >= 2 && |VspaceRep| >= 2 && VspaceRep[0] == VspacePat[0]
    ensures VspaceRep[1] != VspacePat[1] && VspacePat[0] !in VspaceRep[1..]
    ensures VspacePat[0] !in VspacePat[1..] && VspaceRep[0] !in VspacePat[1..]
  {
  }

  /** After the vspace pass no `\[1mm]` is left: every one was replaced, and
      `\vspace{1mm}` cannot combine with the text around it into a new one. */
  lemma {:induction false} VspaceGone(s: string)
    ensures !Occurs(VspacePat, Apply(Vspace, s))
    decreases |s|
  {
    VspaceFacts();
    if s == [] {
      assert Apply(Vspace, s) == [];
    } else if VspacePat <= s {
      LiteralHit(VspacePat, VspaceRep, s);
      VspaceGone(s[|VspacePat|..]);
      NoOccurrenceAppend(VspacePat, VspaceRep, Apply(Vspace, s[|VspacePat|..]));
    } else {
      LiteralMiss(VspacePat, VspaceRep, s);
      var r := Apply(Vspace, s[1..]);
      VspaceGone(s[1..]);
      if VspacePat <= [s[0]] + r {
        PrefixTail(VspacePat, s[0], r);
        LiteralHeadCopied(VspacePat, VspaceRep, VspacePat[1..], s[1..]);
        PrefixCons(VspacePat, s);
        assert false;
      }
      assert ([s[0]] + r)[1..] == r;
    }
  }

  // ---------------------------------------------------------------------------
  // The delimiter remap against a one-pass reference
  // ---------------------------------------------------------------------------

  /** The characters that make a backslash a delimiter. */
  predicate Plain(c: char) {
    c != '(' && c != ')' && c != '[' && c != ']'
  }

  /** The text after a backslash does not start a delimiter with it. */
  predicate HeadPlain(t: string) {
    t == [] || Plain(t[0])
  }

  /** A one-pass reading of the remap: scanning from the left, `\(` and `\)`
      become `$`, `\[` and `\]` become `$$`, every other character is kept. */
  function DelimRef(s: string): string
    decreases |s|
  {
    if |s| >= 2 && s[0] == '\\' && (s[1] == '(' || s[1] == ')') then "$" + DelimRef(s[2..])
    else if |s| >= 2 && s[0] == '\\' && (s[1] == '[' || s[1] == ']') then "$$" + DelimRef(s[2..])
    else if s == [] then []
    else [s[0]] + DelimRef(s[1..])
  }

  /** The dollar signs a delimiter `\\d` becomes: `$` for the inline pair, `$$` for
      the display pair. */
  function DelimDollars(d: char): string
  {
    if d == '(' || d == ')' then "$" else "$$"
  }

  /** The replacements of the remap. */
  predicate Dollars(rep: string) {
    rep == "$" || rep == "$$"
  }

  lemma PassCopy(e: char, rep: string, c: char, x: string)
    requires c != '\\'
    ensures Apply(RemapPass(e, rep), [c] + x) == [c] + Apply(RemapPass(e, rep), x)
  {
    assert ([c] + x)[1..] == x;
    LiteralMiss(Delim(e), rep, [c] + x);
  }

  lemma PassDollars(e: char, rep: string, r: string, x: string)
    requires Dollars(r)
    ensures Apply(RemapPass(e, rep), r + x) == r + Apply(RemapPass(e, rep), x)
  {
    if r == "$" {
      PassCopy(e, rep, '$', x);
    } else {
      assert r + x == ['$'] + (['$'] + x);
      PassCopy(e, rep, '$', ['$'] + x);
      PassCopy(e, rep, '$', x);
    }
  }

  lemma PassPair(e: char, rep: string, d: char, x: string)
    requires d != e && d != '\\'
    ensures Apply(RemapPass(e, rep), ['\\', d] + x) == ['\\', d] + Apply(RemapPass(e, rep), x)
  {
    var t := ['\\', d] + x;
    assert t[1..] == [d] + x && t[1] == d;
    assert Delim(e)[1] == e;
    LiteralMiss(Delim(e), rep, t);
    PassCopy(e, rep, d, x);
  }

  lemma PassHit(e: char, rep: string, x: string)
    ensures Apply(RemapPass(e, rep), ['\\', e] + x) == rep + Apply(RemapPass(e, rep), x)
  {
    var t := ['\\', e] + x;
    assert t[2..] == x;
    LiteralHit(Delim(e), rep, t);
  }

  lemma PassBackslash(e: char, rep: string, x: string)
    requires !Plain(e) && HeadPlain(x)
    ensures Apply(RemapPass(e, rep), ['\\'] + x) == ['\\'] + Apply(RemapPass(e, rep), x)
  {
    var t := ['\\'] + x;
    assert t[1..] == x;
    LiteralMiss(Delim(e), rep, t);
  }

  lemma PassHeadPlain(e: char, rep: string, t: string)
    requires Dollars(rep) && HeadPlain(t)
    ensures HeadPlain(Apply(RemapPass(e, rep), t))
  {
    if t != [] {
      var pat := Delim(e);
      if pat <= t {
        LiteralHit(pat, rep, t);
      } else {
        LiteralMiss(pat, rep, t);
      }
    }
  }

  /** The one delimiter at the start of s is replaced by its pass, and the three
      others carry it through. */
  lemma RemapDelimiter(d: char, rest: string)
    requires !Plain(d)
    ensures Remap(['\\', d] + rest) == DelimDollars(d) + Remap(rest)
  {
    var s := ['\\', d] + rest;
    var p1 := RemapPass('(', "$");
    var p2 := RemapPass(')', "$");
    var p3 := RemapPass('[', "$$");
    var p4 := RemapPass(']', "$$");
    var a := Apply(p1, rest);
    var b := Apply(p2, a);
    var c := Apply(p3, b);
    if d == '(' {
      PassHit('(', "$", rest);
      PassDollars(')', "$", "$", a);
      PassDollars('[', "$$", "$", b);
      PassDollars(']', "$$", "$", c);
    } else if d == ')' {
      PassPair('(', "$", d, rest);
      PassHit(')', "$", a);
      PassDollars('[', "$$", "$", b);
      PassDollars(']', "$$", "$", c);
    } else if d == '[' {
      PassPair('(', "$", d, rest);
      PassPair(')', "$", d, a);
      PassHit('[', "$$", b);
      PassDollars(']', "$$", "$$", c);
    } else {
      PassPair('(', "$", d, rest);
      PassPair(')', "$", d, a);
      PassPair('[', "$$", d, b);
      PassHit(']', "$$", c);
    }
  }

  /** A character that does not start a delimiter is carried through all four
      passes. */
  lemma RemapCopy(s: string)
    requires s != [] && !(|s| >= 2 && s[0] == '\\' && !Plain(s[1]))
    ensures Remap(s) == [s[0]] + Remap(s[1..])
  {
    var x := s[1..];
    assert s == [s[0]] + x;
    var a := Apply(RemapPass('(', "$"), x);
    var b := Apply(RemapPass(')', "$"), a);
    var c := Apply(RemapPass('[', "$$"), b);
    if s[0] != '\\' {
      PassCopy('(', "$", s[0], x);
      PassCopy(')', "$", s[0], a);
      PassCopy('[', "$$", s[0], b);
      PassCopy(']', "$$", s[0], c);
    } else {
      assert HeadPlain(x);
      PassBackslash('(', "$", x);
      PassHeadPlain('(', "$", x);
      PassBackslash(')', "$", a);
      PassHeadPlain(')', "$", a);
      PassBackslash('[', "$$", b);
      PassHeadPlain('[', "$$", b);
      PassBackslash(']', "$$", c);
    }
  }

  /** The four passes of app.py:113-117 together are the one-pass reading. */
  lemma {:induction false} RemapIsDelimRef(s: string)
    ensures Remap(s) == DelimRef(s)
    decreases |s|
  {
    if s == [] {
    } else if |s| >= 2 && s[0] == '\\' && !Plain(s[1]) {
      assert s == ['\\', s[1]] + s[2..];
      RemapDelimiter(s[1], s[2..]);
      RemapIsDelimRef(s[2..]);
    } else {
      RemapCopy(s);
      RemapIsDelimRef(s[1..]);
    }
  }

  /** No backslash in t is followed by `(`, `)`, `[` or `]`. */
  predicate Clean(t: string)
    decreases |t|
  {
    |t| < 2 || ((t[0] != '\\' || Plain(t[1])) && Clean(t[1..]))
  }

  lemma {:induction false} CleanDollars(r: string, t: string)
    requires Dollars(r) && Clean(t)
    ensures Clean(r + t)
  {
    if r == "$" {
      assert (r + t)[1..] == t;
    } else {
      assert (r + t)[1..] == "$" + t;
      assert ("$" + t)[1..] == t;
    }
  }

  /** A backslash inside a text with no delimiter is followed by a character that
      does not make it one. */
  lemma {:induction false} CleanAt(t: string, i: nat)
    requires Clean(t) && i + 1 < |t| && t[i] == '\\'
    ensures Plain(t[i + 1])
    decreases i
  {
    if i > 0 {
      CleanAt(t[1..], i - 1);
    }
  }

  /** Two texts with no delimiter, joined where no trailing backslash of the first
      meets a delimiter character, make a text with no delimiter. */
  lemma {:induction false} CleanAppend(a: string, b: string)
    requires Clean(a) && Clean(b) && (a != [] && a[|a| - 1] == '\\' ==> HeadPlain(b))
    ensures Clean(a + b)
    decreases |a|
  {
    var t := a + b;
    if a == [] {
      assert t == b;
    } else {
      assert t[0] == a[0] && t[1..] == a[1..] + b;
      assert |a| >= 2 ==> t[1] == a[1] && a[1..][|a| - 2] == a[|a| - 1];
      CleanAppend(a[1..], b);
    }
  }

  /** The one-pass reading leaves no delimiter behind. */
  lemma {:induction false} DelimRefClean(s: string)
    ensures Clean(DelimRef(s)) && (HeadPlain(s) ==> HeadPlain(DelimRef(s)))
    decreases |s|
  {
    if |s| >= 2 && s[0] == '\\' && (s[1] == '(' || s[1] == ')') {
      DelimRefClean(s[2..]);
      CleanDollars("$", DelimRef(s[2..]));
    } else if |s| >= 2 && s[0] == '\\' && (s[1] == '[' || s[1] == ']') {
      DelimRefClean(s[2..]);
      CleanDollars("$$", DelimRef(s[2..]));
    } else if s != [] {
      DelimRefClean(s[1..]);
      var r := DelimRef(s[1..]);
      assert ([s[0]] + r)[1..] == r;
      if s[0] == '\\' && r != [] {
        assert HeadPlain(s[1..]);
      }
    }
  }

  /** On a text with no delimiter the one-pass reading changes nothing. */
  lemma {:induction false} DelimRefOfClean(t: string)
    requires Clean(t)
    ensures DelimRef(t) == t
    decreases |t|
  {
    if t != [] {
      if |t| >= 2 {
        assert Clean(t[1..]);
      }
      DelimRefOfClean(t[1..]);
      assert t == [t[0]] + t[1..];
    }
  }

  /** A text with no delimiter has none of `\(`, `\)`, `\[`, `\]` in it. */
  lemma {:induction false} CleanHasNoDelim(t: string, e: char)
    requires Clean(t) && !Plain(e)
    ensures !Occurs(Delim(e), t)
    decreases |t|
  {
    if |t| >= 2 {
      CleanHasNoDelim(t[1..], e);
    }
  }

  /** After the remap the text holds no `\(`, `\)`, `\[` or `\]`. */
  lemma RemapLeavesNoDelim(s: string, e: char)
    requires !Plain(e)
    ensures !Occurs(Delim(e), Remap(s))
  {
    RemapIsDelimRef(s);
    DelimRefClean(s);
    CleanHasNoDelim(DelimRef(s), e);
  }

  /** Applying the remap a second time changes nothing. */
  lemma RemapIdempotent(s: string)
    ensures Remap(Remap(s)) == Remap(s)
  {
    RemapIsDelimRef(s);
    RemapIsDelimRef(Remap(s));
    DelimRefClean(s);
    DelimRefOfClean(DelimRef(s));
  }

  /** Text without a backslash is copied by the one-pass reading. */
  lemma {:induction false} DelimRefBackslashFree(a: string, y: string)
    requires '\\' !in a
    ensures DelimRef(a + y) == a + DelimRef(y)
    decreases |a|
  {
    if a != [] {
      var s := a + y;
      assert s[0] == a[0] && s[1..] == a[1..] + y;
      DelimRefBackslashFree(a[1..], y);
      ConsAppend(a, DelimRef(y));
    } else {
      assert a + y == y;
    }
  }

  /** The one-pass reading at a delimiter. */
  lemma DelimRefAt(d: char, y: string)
    requires !Plain(d)
    ensures DelimRef(Delim(d) + y) == DelimDollars(d) + DelimRef(y)
  {
    var s := Delim(d) + y;
    assert s[0] == '\\' && s[1] == d && s[2..] == y;
  }

  /** Text without a backslash is carried through the remap as it is. */
  lemma RemapBackslashFree(a: string, y: string)
    requires '\\' !in a
    ensures Remap(a + y) == a + Remap(y)
  {
    RemapIsDelimRef(a + y);
    RemapIsDelimRef(y);
    DelimRefBackslashFree(a, y);
  }

  lemma DelimRefPair(o: char, c: char, a: string, y: string)
    requires !Plain(o) && !Plain(c) && Clean(a)
    ensures DelimRef(Delim(o) + a + Delim(c) + y) == DelimDollars(o) + a + DelimDollars(c) + DelimRef(y)
  {
    var r := DelimDollars(o);
    var r' := DelimDollars(c);
    var z := Delim(c) + y;
    assert Delim(o) + a + Delim(c) + y == Delim(o) + (a + z);
    DelimRefAt(o, a + z);
    DelimRefSplit(a, z);
    DelimRefOfClean(a);
    DelimRefAt(c, y);
    assert DelimRef(z) == r' + DelimRef(y);
    AppendAssoc(a, r', DelimRef(y));
    AppendAssoc(r, a + r', DelimRef(y));
    AppendAssoc(r, a, r');
  }

  /** A delimiter pair around a text with no delimiter in it: `\\(a\\)` becomes
      `$a$` and `\\[b\\]` becomes `$$b$$`, and the text after it is remapped on
      its own. */
  lemma RemapPair(o: char, c: char, a: string, y: string)
    requires !Plain(o) && !Plain(c) && Clean(a)
    ensures Remap(Delim(o) + a + Delim(c) + y) == DelimDollars(o) + a + DelimDollars(c) + Remap(y)
  {
    RemapIsDelimRef(Delim(o) + a + Delim(c) + y);
    RemapIsDelimRef(y);
    DelimRefPair(o, c, a, y);
  }

  /** The one-pass reading of a concatenation, when the second part does not
      finish a delimiter begun by a trailing backslash of the first. */
  lemma {:induction false} DelimRefSplit(x: string, z: string)
    requires HeadPlain(z)
    ensures DelimRef(x + z) == DelimRef(x) + DelimRef(z)
    decreases |x|
  {
    var s := x + z;
    if x == [] {
      assert s == z;
    } else if |x| >= 2 && x[0] == '\\' && !Plain(x[1]) {
      assert s[0] == '\\' && s[1] == x[1] && s[2..] == x[2..] + z;
      DelimRefSplit(x[2..], z);
      AppendAssoc(DelimDollars(x[1]), DelimRef(x[2..]), DelimRef(z));
    } else {
      assert s[0] == x[0] && s[1..] == x[1..] + z;
      assert |x| >= 2 ==> s[1] == x[1];
      DelimRefSplit(x[1..], z);
      AppendAssoc([x[0]], DelimRef(x[1..]), DelimRef(z));
    }
  }

  /** `\\vspace{1mm}` holds no delimiter: the remap treats the text on either side
      of it on its own and keeps it. */
  lemma RemapKeepsVspace(x: string, y: string)
    ensures Remap(x + VspaceRep + y) == Remap(x) + VspaceRep + Remap(y)
  {
    var m := "vspace{1mm}";
    assert VspaceRep == ['\\'] + m;
    assert '\\' !in m;
    var z := VspaceRep + y;
    assert x + VspaceRep + y == x + z;
    DelimRefSplit(x, z);
    assert z == ['\\'] + (m + y);
    assert z[1] == 'v';
    DelimRefBackslashFree(m, y);
    assert DelimRef(z) == ['\\'] + DelimRef(m + y);
    AppendAssoc(['\\'], m, DelimRef(y));
    RemapIsDelimRef(x + z);
    RemapIsDelimRef(x);
    RemapIsDelimRef(y);
    AppendAssoc(DelimRef(x), VspaceRep, DelimRef(y));
  }

  // ---------------------------------------------------------------------------
  // Order of the passes
  // ---------------------------------------------------------------------------

  lemma RemapNoDelimAt(s: string, e: char, rep: string)
    requires e !in s
    ensures Apply(RemapPass(e, rep), s) == s
  {
    OccursNeedsChar(Delim(e), s, e);
    LiteralAbsent(Delim(e), rep, s);
  }

  /** A text with none of `(`, `)`, `[`, `]` goes through the remap unchanged. */
  lemma RemapNoDelimChar(s: string)
    requires '(' !in s && ')' !in s && '[' !in s && ']' !in s
    ensures Remap(s) == s
  {
    RemapNoDelimAt(s, '(', "$");
    RemapNoDelimAt(s, ')', "$");
    RemapNoDelimAt(s, '[', "$$");
    RemapNoDelimAt(s, ']', "$$");
  }

  /** Text without `[` and `<` goes through the block-math passes and the span
      unwrap unchanged. */
  lemma BlockUnwrapPlain(s: string)
    requires '[' !in s && '<' !in s
    ensures Apply(UnwrapSpan, BlockPasses(s)) == s
  {
    OccursNeedsChar(OpenBlock, s, '[');
    BlockPassesPlain(s);
    OccursNeedsChar(Anchor(UnwrapSpan), s, '<');
    SubWithoutAnchor(UnwrapSpan, None, s);
  }

  /** Text with none of `(`, `)`, `[`, `]`, `$` goes through the remap and the
      collapse unchanged. */
  lemma RemapCollapsePlain(s: string)
    requires '(' !in s && ')' !in s && '[' !in s && ']' !in s && '$' !in s
    ensures Apply(CollapseSpacing, Remap(s)) == s
  {
    RemapNoDelimChar(s);
    OccursNeedsChar(Anchor(CollapseSpacing), s, '$');
    SubWithoutAnchor(CollapseSpacing, None, s);
  }

  /** None of the characters the passes after the vspace one look for. */
  predicate Inert(s: string) {
    '[' !in s && '(' !in s && ')' !in s && ']' !in s && '<' !in s && '$' !in s
  }

  /** A text with none of those characters goes through the passes after the
      vspace one unchanged. */
  lemma LaterPassesPlain(s: string)
    requires Inert(s)
    ensures LaterPasses(s) == s
  {
    BlockUnwrapPlain(s);
    RemapCollapsePlain(s);
  }

  /** A text with none of those characters is exported as it is. */
  lemma ExportPlain(s: string)
    requires Inert(s)
    ensures ExportMarkdown(s) == s
  {
    OccursNeedsChar(VspacePat, s, '[');
    LiteralAbsent(VspacePat, VspaceRep, s);
    LaterPassesPlain(s);
  }

  lemma VspaceRepPlain()
    ensures Inert(VspaceRep)
  {
  }

  /** `\\[1mm]` is spacing, not math: the vspace pass runs before the block-math
      and delimiter passes, so the whole export keeps it as `\\vspace{1mm}` between
      texts that the later passes leave alone. */
  lemma VspaceExport(x: string, y: string)
    requires Inert(x) && Inert(y)
    ensures ExportMarkdown(x + VspacePat + y) == x + VspaceRep + y
  {
    VspaceFacts();
    OccursNeedsChar(VspacePat, x, '[');
    LiteralBlock(VspacePat, VspaceRep, x, y);
    assert x + VspacePat + y == x + (VspacePat + y);
    OccursNeedsChar(VspacePat, y, '[');
    LiteralAbsent(VspacePat, VspaceRep, y);
    VspaceRepPlain();
    LaterPassesPlain(x + VspaceRep + y);
  }

  /** Were the remap run first, it would take the `\[` of `\[1mm]` for a display
      delimiter. */
  lemma RemapMisreadsVspace(y: string)
    ensures Remap(VspacePat + y) == "$$1mm]" + Remap(y)
  {
    RemapIsDelimRef(VspacePat + y);
    RemapIsDelimRef(y);
    DelimRefVspace(y);
  }

  lemma DelimRefVspace(y: string)
    ensures DelimRef(VspacePat + y) == "$$1mm]" + DelimRef(y)
  {
    var m := "1mm]";
    assert VspacePat + y == Delim('[') + (m + y);
    DelimRefAt('[', m + y);
    assert '\\' !in m;
    DelimRefBackslashFree(m, y);
    assert "$$" + (m + DelimRef(y)) == "$$1mm]" + DelimRef(y);
  }

  // ---------------------------------------------------------------------------
  // The span unwrap
  // ---------------------------------------------------------------------------

  /** Where the pieces of w + x + c + y lie. */
  lemma ConcatParts(w: string, x: string, c: string, y: string)
    ensures var t := w + x + c + y; var j := |w| + |x|;
      && w <= t && j + |c| <= |t| && t[|w|..] == x + c + y && t[|w|..j] == x
      && t[j..] == c + y && t[j + |c|..] == y
  {
    var t := w + x + c + y;
    assert t == w + (x + c + y);
    assert (x + c + y)[..|x|] == x;
  }

  /** `</span>` at n + k of t is `</span>` at k of t[n..]. */
  lemma SpanCloseShift(t: string, n: nat, k: nat)
    requires n + k <= |t|
    ensures SpanCloseAt(t, n + k) == SpanCloseAt(t[n..], k)
  {
    if n + k + |SpanClose| <= |t| {
      assert t[n..][k..k + |SpanClose|] == t[n + k..n + k + |SpanClose|];
    }
  }

  /** Where the pieces of an arithmatex span lie. */
  lemma SpanTextParts(x: string, y: string)
    requires !Occurs(SpanClose, x)
    ensures var t := SpanOpen + x + SpanClose + y; var j := |SpanOpen| + |x|;
      && SpanOpen <= t && j + |SpanClose| <= |t| && t[|SpanOpen|..j] == x
      && SpanCloseAt(t, j) && t[j + |SpanClose|..] == y
      && (forall k :: |SpanOpen| <= k < j ==> !SpanCloseAt(t, k))
  {
    var t := SpanOpen + x + SpanClose + y;
    var u := x + SpanClose + y;
    ConcatParts(SpanOpen, x, SpanClose, y);
    SpanCloseShift(t, |SpanOpen|, |x|);
    assert u[|x|..] == SpanClose + y;
    forall k | |SpanOpen| <= k < |SpanOpen| + |x| ensures !SpanCloseAt(t, k) {
      SpanCloseInside(t, |SpanOpen|, x, y, k);
    }
  }

  lemma OneLineOf(t: string, i: nat, j: nat)
    requires i <= j <= |t| && '\n' !in t[i..j]
    ensures OneLine(t, i, j)
  {
    forall k | i <= k < j ensures t[k] != '\n' {
      assert t[k] == t[i..j][k - i];
    }
  }

  /** The span pattern on a span whose content is on one line and holds no
      `</span>`: exactly that span is matched. */
  lemma UnwrapOneAt(x: string, y: string)
    requires '\n' !in x && !Occurs(SpanClose, x)
    ensures SpanAt(SpanOpen + x + SpanClose + y) == Some(Spanned(|SpanOpen| + |x| + |SpanClose|, x))
  {
    var t := SpanOpen + x + SpanClose + y;
    var j := |SpanOpen| + |x|;
    SpanTextParts(x, y);
    OneLineOf(t, |SpanOpen|, j);
    SpanFinds(t, j);
    SpanShape(t);
    var h := SpanAt(t).value;
    var j' := |SpanOpen| + |h.content|;
    if j' < j {
      assert false;
    }
    if j < j' {
      assert false;
    }
    assert h.content == t[|SpanOpen|..j] == x;
  }

  /** A span whose content is on one line and holds no `</span>` is replaced by
      its content, and the text after it is unwrapped on its own. */
  lemma UnwrapOne(x: string, y: string)
    requires '\n' !in x && !Occurs(SpanClose, x)
    ensures Apply(UnwrapSpan, SpanOpen + x + SpanClose + y) == x + Apply(UnwrapSpan, y)
  {
    var t := SpanOpen + x + SpanClose + y;
    var h := Spanned(|SpanOpen| + |x| + |SpanClose|, x);
    UnwrapOneAt(x, y);
    SpanTextParts(x, y);
    assert MatchAt(UnwrapSpan, None, t) == Some(h);
    assert Sub(UnwrapSpan, None, t) == x + Sub(UnwrapSpan, Some(t[h.len - 1]), t[h.len..]);
    SubPrevFree(UnwrapSpan, Some(t[h.len - 1]), None, y);
  }


  lemma SpanOpenPlain()
    ensures '\n' !in SpanOpen && '/' !in SpanOpen && 'c' !in SpanClose
  {
  }

  /** The opening tag ahead of a text without `</span>` does not make one. */
  lemma SpanOpenNoClose(a: string)
    requires !Occurs(SpanClose, a)
    ensures !Occurs(SpanClose, SpanOpen + a)
  {
    SpanTagsDiffer();
    NoOccurrenceAppend(SpanClose, SpanOpen, a);
  }

  lemma SpanTagsDiffer()
    ensures |SpanClose| >= 2 && |SpanOpen| >= 2 && SpanOpen[0] == SpanClose[0]
    ensures SpanOpen[1] != SpanClose[1] && SpanClose[0] !in SpanOpen[1..]
  {
  }

  /** Only one level of nested spans is removed: the lazy content stops at the
      first `</span>`, so the inner opening tag and the outer closing tag stay. */
  lemma UnwrapNested(a: string)
    requires '\n' !in a && !Occurs(SpanClose, a)
    ensures Apply(UnwrapSpan, SpanOpen + (SpanOpen + a) + SpanClose + SpanClose)
         == SpanOpen + a + SpanClose
  {
    SpanOpenPlain();
    SpanOpenNoClose(a);
    UnwrapOne(SpanOpen + a, SpanClose);
    OccursNeedsChar(Anchor(UnwrapSpan), SpanClose, 'c');
    SubWithoutAnchor(UnwrapSpan, None, SpanClose);
  }

  // ---------------------------------------------------------------------------
  // The spacing collapse
  // ---------------------------------------------------------------------------

  /** An inline formula the collapse applies to: on one line, without a dollar
      sign, not starting or ending with a blank. */
  predicate InlineFormula(f: string) {
    |f| > 0 && f[0] != ' ' && f[|f| - 1] != ' ' && '$' !in f && '\n' !in f
  }

  /** A text after a closing dollar sign that lets it close: it does not start
      with another dollar sign. */
  predicate ClosingTail(z: string) {
    z == [] || z[0] != '$'
  }

  /** Where the pieces of `$ f $` followed by z lie. */
  lemma PaddedTextParts(f: string, z: string)
    ensures var t := "$ " + f + " $" + z;
      && |t| == |f| + 4 + |z| && t[0] == '$' && t[1] == ' ' && t[2 + |f|] == ' ' && t[3 + |f|] == '$'
      && t[2..2 + |f|] == f && (forall k :: 2 <= k < 2 + |f| ==> t[k] == f[k - 2])
      && t[|f| + 4..] == z && (z != [] ==> t[|f| + 4] == z[0])
  {
    var t := "$ " + f + " $" + z;
    assert t == "$ " + f + " $" + z;
  }

  /** The lazy group grows over the formula and stops at its end: before that no
      blank run is followed by a dollar sign. */
  lemma {:induction false} PaddedFormula(f: string, z: string, m: nat)
    requires InlineFormula(f) && ClosingTail(z) && 1 <= m <= |f|
    ensures var t := "$ " + f + " $" + z;
      OneLine(t, 2, 2 + m) && CollapseFormula(t, 2, m) == Some((2 + |f|, |f| + 4))
    decreases |f| - m
  {
    var t := "$ " + f + " $" + z;
    PaddedTextParts(f, z);
    var g := 2 + m;
    assert OneLine(t, 2, g) by {
      forall k | 2 <= k < g ensures t[k] != '\n' {
        assert t[k] == f[k - 2];
      }
    }
    var w := BlankRun(t, g);
    if m == |f| {
      assert w == 1;
      assert CloseDollarAt(t, g + 1);
    } else {
      if g + w > 1 + |f| {
        assert false;
      }
      forall e | g < e <= g + w ensures !CloseDollarAt(t, e) {
        assert t[e] == f[e - 2];
      }
      CollapseCloseMiss(t, g, w);
      assert t[g] == f[m];
      PaddedFormula(f, z, m + 1);
    }
  }

  /** The collapse pattern on `$ f $` matches all of it, the formula starting
      after the blank, whatever follows that does not start with a dollar sign. */
  lemma CollapseSingleAt(f: string, z: string)
    requires InlineFormula(f) && ClosingTail(z)
    ensures CollapseAt(None, "$ " + f + " $" + z) == Some(Padded(|f| + 4, 2, f))
  {
    var t := "$ " + f + " $" + z;
    PaddedTextParts(f, z);
    assert BlankRun(t, 1) == 1;
    PaddedFormula(f, z, 1);
    assert t[2] == f[0];
  }

  /** `$ f $` becomes `$f$`: the blanks around an inline formula are dropped, and
      the collapse goes on after it, whatever follows that does not start with a
      dollar sign. */
  lemma CollapseSingle(f: string, r: string)
    requires InlineFormula(f) && ClosingTail(r)
    ensures Apply(CollapseSpacing, "$ " + f + " $" + r)
         == "$" + f + "$" + Sub(CollapseSpacing, Some('$'), r)
  {
    var t := "$ " + f + " $" + r;
    var h := Padded(|f| + 4, 2, f);
    CollapseSingleAt(f, r);
    PaddedTextParts(f, r);
    assert MatchAt(CollapseSpacing, None, t) == Some(h);
    SubReplaces(CollapseSpacing, None, t, h);
  }

  /** A match of the collapse pattern ends in a blank and a dollar sign. */
  lemma CollapseBlankBeforeClose(prev: Option<char>, t: string)
    requires CollapseAt(prev, t).Some?
    ensures var e := CollapseAt(prev, t).value.len - 1;
      1 <= e < |t| && CloseDollarAt(t, e) && t[e - 1] == ' '
  {
    CollapseShape(prev, t);
    var h := CollapseAt(prev, t).value;
    assert t[h.len - 2] == ' ';
  }

  /** Where the pieces of `$ f $$b$` lie. */
  lemma BeforeDollarText(f: string, b: string)
    ensures var t := "$ " + f + " $$" + b + "$"; var n := |f| + 5;
      && |t| == n + |b| + 1 && t[0] == '$' && t[1] == ' ' && t[2 + |f|] == ' '
      && t[3 + |f|] == '$' && t[4 + |f|] == '$' && t[|t| - 1] == '$'
      && t[|t| - 2] == (if b == [] then '$' else b[|b| - 1])
      && (forall k :: 2 <= k < 2 + |f| ==> t[k] == f[k - 2])
      && (forall k :: n <= k < n + |b| ==> t[k] == b[k - n])
  {
    var t := "$ " + f + " $$" + b + "$";
    assert t == "$ " + f + " $$" + b + "$";
  }

  /** In `$ f $$b$` no dollar sign that can close a formula comes after a blank. */
  lemma BeforeDollarNoClose(f: string, b: string)
    requires InlineFormula(f) && '$' !in b && (b == [] || b[|b| - 1] != ' ')
    ensures var t := "$ " + f + " $$" + b + "$";
      forall e :: 1 <= e < |t| && CloseDollarAt(t, e) ==> t[e - 1] != ' '
  {
    BeforeDollarText(f, b);
  }

  /** A formula followed directly by another dollar sign keeps its blanks: in
      `$ f $$b$` the lookahead refuses the dollar sign after f, and no other
      dollar sign closes it. */
  lemma CollapseBeforeDollar(f: string, b: string)
    requires InlineFormula(f) && '$' !in b && (b == [] || b[|b| - 1] != ' ')
    ensures Apply(CollapseSpacing, "$ " + f + " $$" + b + "$") == "$ " + f + " $$" + b + "$"
  {
    var t := "$ " + f + " $$" + b + "$";
    BeforeDollarText(f, b);
    BeforeDollarNoClose(f, b);
    if CollapseAt(None, t).Some? {
      CollapseBlankBeforeClose(None, t);
      assert false;
    }
    SubCopies(CollapseSpacing, None, t);
    var u := t[1..];
    forall k | 0 <= k < |u| ensures !LoneOpenAt(Some('$'), u, k) {
      if 1 <= k < 1 + |f| {
        assert u[k] == t[k + 1] == f[k - 1];
      } else if k == 2 + |f| {
        assert u[k + 1] == '$';
      } else if k == 3 + |f| {
        assert PrevAt(Some('$'), u, k) == Some('$');
      } else if |f| + 4 <= k < |u| - 1 {
        assert u[k] == t[k + 1] == b[k - |f| - 4];
      }
    }
    CollapseWithoutLoneOpen(Some('$'), u);
  }

  /** A dollar sign not preceded by another and followed by a blank: where a match
      of the collapse pattern can start. */
  predicate LoneOpenAt(prev: Option<char>, t: string, k: nat) {
    k + 1 < |t| && t[k] == '$' && t[k + 1] == ' ' && PrevAt(prev, t, k) != Some('$')
  }

  lemma CollapseNeedsLoneOpen(prev: Option<char>, t: string)
    requires CollapseAt(prev, t).Some?
    ensures LoneOpenAt(prev, t, 0)
  {
    CollapseShape(prev, t);
    var h := CollapseAt(prev, t).value;
    assert t[1] == ' ';
  }

  /** A text in which no dollar sign opens a padded formula is not changed. */
  lemma {:induction false} CollapseWithoutLoneOpen(prev: Option<char>, t: string)
    requires forall k :: 0 <= k < |t| ==> !LoneOpenAt(prev, t, k)
    ensures Sub(CollapseSpacing, prev, t) == t
    decreases |t|
  {
    if t != [] {
      if CollapseAt(prev, t).Some? {
        CollapseNeedsLoneOpen(prev, t);
        assert false;
      }
      forall k | 0 <= k < |t[1..]| ensures !LoneOpenAt(Some(t[0]), t[1..], k) {
        assert !LoneOpenAt(prev, t, k + 1);
      }
      CollapseWithoutLoneOpen(Some(t[0]), t[1..]);
    }
  }

  /** Display math written with dollars keeps its blanks: the lookbehind refuses
      the second dollar sign and the lookahead the first closing one. */
  lemma DisplayMathKept(g: string)
    requires '$' !in g
    ensures Apply(CollapseSpacing, "$$" + g + "$$") == "$$" + g + "$$"
  {
    var t := "$$" + g + "$$";
    forall k | 0 <= k < |t| ensures !LoneOpenAt(None, t, k) {
      if k == 0 {
        assert t[1] == '$';
      } else if k == 1 {
        assert PrevAt(None, t, k) == Some('$');
      } else if k < |g| + 2 {
        assert t[k] == g[k - 2];
      } else if k == |g| + 2 {
        assert t[k + 1] == '$';
      }
    }
    CollapseWithoutLoneOpen(None, t);
  }

  /** A dollar sign followed by a word that has no dollar sign and does not start
      with a blank is copied by the collapse. */
  lemma CollapseTightHead(x: string, u: string)
    requires x != [] && x[0] != ' ' && '$' !in x
    ensures Apply(CollapseSpacing, "$" + x + u) == "$" + x + Sub(CollapseSpacing, Some(x[|x| - 1]), u)
  {
    var p := "$" + x;
    var t := p + u;
    forall k | 0 <= k < |p| ensures MatchAt(CollapseSpacing, PrevAt(None, t, k), t[k..]).None? {
      if k == 0 {
        assert t[1] == x[0];
        assert BlankRun(t, 1) == 0;
      } else {
        assert t[k..][0] == x[k - 1];
      }
    }
    SubPassThrough(CollapseSpacing, None, p, u);
    assert PrevAt(None, t, |p|) == Some(x[|x| - 1]);
  }

  /** After a character other than a dollar sign, `$ g $` followed by a text that
      does not start with a dollar sign becomes `$g$`, and the collapse goes on
      after it. */
  lemma CollapsePaddedNext(c: char, g: string, r: string)
    requires c != '$' && InlineFormula(g) && ClosingTail(r)
    ensures Sub(CollapseSpacing, Some(c), "$ " + g + " $" + r)
         == "$" + g + "$" + Sub(CollapseSpacing, Some('$'), r)
  {
    var u := "$ " + g + " $" + r;
    var h := Padded(|g| + 4, 2, g);
    CollapseSingleAt(g, r);
    PaddedTextParts(g, r);
    assert MatchAt(CollapseSpacing, Some(c), u) == Some(h);
    SubReplaces(CollapseSpacing, Some(c), u, h);
  }

  /** A text whose only dollar sign is its last character is not changed. */
  lemma CollapseLastDollar(prev: Option<char>, y: string)
    requires '$' !in y
    ensures Sub(CollapseSpacing, prev, " " + y + " $") == " " + y + " $"
  {
    var r := " " + y + " $";
    forall k | 0 <= k < |r| ensures !LoneOpenAt(prev, r, k) {
      if 1 <= k <= |y| {
        assert r[k] == y[k - 1];
      }
    }
    CollapseWithoutLoneOpen(prev, r);
  }

  /** The dollar sign that closes a tight formula can open a padded one: in
      `$x$ g $ y $` the pattern pairs the second and third dollar signs, so the
      blanks around g are dropped and those of the second formula are kept. */
  lemma CollapsePairsAcross(x: string, g: string, y: string)
    requires x != [] && x[0] != ' ' && '$' !in x && InlineFormula(g) && '$' !in y
    ensures Apply(CollapseSpacing, "$" + x + "$ " + g + " $ " + y + " $")
         == "$" + x + "$" + g + "$ " + y + " $"
  {
    var r := " " + y + " $";
    var u := "$ " + g + " $" + r;
    var p := "$" + x;
    PairsAcrossText(p, g, y);
    CollapseTightHead(x, u);
    CollapsePaddedNext(x[|x| - 1], g, r);
    CollapseLastDollar(Some('$'), y);
  }

  lemma PairsAcrossText(p: string, g: string, y: string)
    ensures p + "$ " + g + " $ " + y + " $" == p + ("$ " + g + " $" + (" " + y + " $"))
    ensures p + ("$" + g + "$" + (" " + y + " $")) == p + "$" + g + "$ " + y + " $"
  {
    var r := " " + y + " $";
    assert " $ " + y + " $" == " $" + r;
    assert "$" + g + "$" + r == "$" + g + "$ " + y + " $";
  }

  // ---------------------------------------------------------------------------
  // The whole export
  // ---------------------------------------------------------------------------

  /** A dollar word that does not start with a blank is left alone by the
      collapse: no dollar sign in it opens a padded formula. */
  lemma CollapseKeepsTight(a: string)
    requires '$' !in a && (a == [] || a[0] != ' ')
    ensures Apply(CollapseSpacing, "$" + a + "$") == "$" + a + "$"
  {
    var t := "$" + a + "$";
    forall k | 0 <= k < |t| ensures !LoneOpenAt(None, t, k) {
      if 0 < k <= |a| {
        assert t[k] == a[k - 1];
      } else if k == 0 && |a| > 0 {
        assert t[1] == a[0];
      }
    }
    CollapseWithoutLoneOpen(None, t);
  }

  /** Inside `\\(a\\)` with no delimiter in a, every backslash is followed by a
      parenthesis, another backslash or a character that is not a delimiter one,
      so no block starting with `\\[` or `\\]` occurs there. */
  lemma InlineBackslashWord(w: string, a: string)
    requires |w| >= 2 && w[0] == '\\' && (w[1] == '[' || w[1] == ']') && Clean(a)
    ensures !Occurs(w, Delim('(') + a + Delim(')'))
  {
    var s := Delim('(') + a + Delim(')');
    assert forall i :: 2 <= i < |a| + 2 ==> s[i] == a[i - 2];
    assert s[0] == '\\' && s[1] == '(' && s[|a| + 2] == '\\' && s[|a| + 3] == ')';
    forall i | 0 <= i < |a| - 1 && a[i] == '\\' ensures Plain(a[i + 1]) {
      CleanAt(a, i);
    }
    forall k | 0 <= k <= |s| ensures !(w <= s[k..]) {
      if k + 2 <= |s| {
        assert s[k..][0] == s[k] && s[k..][1] == s[k + 1];
      }
    }
    NoOccurrence(w, s);
  }

  lemma ExportWordsFacts()
    ensures |VspacePat| >= 2 && VspacePat[0] == '\\' && VspacePat[1] == '['
    ensures |OpenBlock| >= 2 && OpenBlock[0] == '\\' && OpenBlock[1] == '['
    ensures SpanOpen != [] && '\\' !in SpanOpen && '(' !in SpanOpen && ')' !in SpanOpen
    ensures SpanOpen[0] != ' ' && SpanOpen[|SpanOpen| - 1] != ' '
    ensures Anchor(UnwrapSpan) == SpanOpen
  {
  }

  /** Inline math written with LaTeX delimiters reaches the collapse as dollar
      math: `\\(a\\)` turns into `$a$`, whatever a holds besides a delimiter or
      an arithmatex span (LaTeX commands such as `\\frac` included). */
  lemma ExportInlineMath(a: string)
    requires Clean(a) && !Occurs(SpanOpen, a)
    ensures ExportMarkdown(Delim('(') + a + Delim(')')) == Apply(CollapseSpacing, "$" + a + "$")
  {
    var s := Delim('(') + a + Delim(')');
    ExportWordsFacts();
    InlineBackslashWord(VspacePat, a);
    LiteralAbsent(VspacePat, VspaceRep, s);
    InlineBackslashWord(OpenBlock, a);
    BlockPassesPlain(s);
    WordBetween(SpanOpen, Delim('('), a, Delim(')'));
    SubWithoutAnchor(UnwrapSpan, None, s);
    RemapPair('(', ')', a, []);
    assert s + [] == s;
    assert Remap([]) == [];
    assert DelimDollars('(') + a + DelimDollars(')') + [] == "$" + a + "$";
  }

  /** So `\\(a\\)` is exported as `$a$` when a holds no dollar sign and does not
      start with a blank. */
  lemma ExportTightMath(a: string)
    requires Clean(a) && !Occurs(SpanOpen, a) && '$' !in a && (a == [] || a[0] != ' ')
    ensures ExportMarkdown(Delim('(') + a + Delim(')')) == "$" + a + "$"
  {
    ExportInlineMath(a);
    CollapseKeepsTight(a);
  }

  /** And `\\( f \\)` is exported as `$f$`: the blanks just inside the
      delimiters are dropped by the collapse. */
  lemma ExportPaddedMath(f: string)
    requires InlineFormula(f) && Clean(f) && !Occurs(SpanOpen, f)
    ensures ExportMarkdown(Delim('(') + " " + f + " " + Delim(')')) == "$" + f + "$"
  {
    PaddedMathText(f);
    PaddedClean(f);
    ExportWordsFacts();
    WordPadded(SpanOpen, f);
    ExportInlineMath(" " + f + " ");
    CollapseSingle(f, []);
    assert "$ " + f + " $" + [] == "$ " + f + " $";
    assert Sub(CollapseSpacing, Some('$'), []) == [];
  }

  lemma PaddedMathText(f: string)
    ensures Delim('(') + " " + f + " " + Delim(')') == Delim('(') + (" " + f + " ") + Delim(')')
    ensures "$" + (" " + f + " ") + "$" == "$ " + f + " $"
  {
  }

  lemma PaddedClean(f: string)
    requires Clean(f)
    ensures Clean(" " + f + " ")
  {
    CleanAppend(f, " ");
    CleanAppend(" ", f + " ");
    assert " " + (f + " ") == " " + f + " ";
  }
}

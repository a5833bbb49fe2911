/** Character classes, greedy runs and match records shared by the patterns that
    app.py hands to Python's `re.sub`. Strings are `seq<char>`; a position into a
    string is a `nat`. */
module Regex {

  datatype Option<T> = None | Some(value: T)

  /** `\s` in a str pattern, which is also what `str.strip()` removes: exactly the
      characters for which `str.isspace()` holds. */
  predicate IsSpace(c: char) {
    || ('\t' <= c <= '\r')
    || ('\U{1C}' <= c <= '\U{1F}')
    || c == ' '
    || c == '\U{85}'
    || c == '\U{A0}'
    || c == '\U{1680}'
    || ('\U{2000}' <= c <= '\U{200A}')
    || c == '\U{2028}'
    || c == '\U{2029}'
    || c == '\U{202F}'
    || c == '\U{205F}'
    || c == '\U{3000}'
  }

  /** Every character of t[i..j] satisfies `\s`. */
  predicate AllSpace(t: string, i: nat, j: nat)
    requires i <= j <= |t|
  {
    forall k :: i <= k < j ==> IsSpace(t[k])
  }

  /** Every character of t[i..j] is a blank (U+0020, the ` ` of a pattern). */
  predicate AllBlank(t: string, i: nat, j: nat)
    requires i <= j <= |t|
  {
    forall k :: i <= k < j ==> t[k] == ' '
  }

  /** The first thing a greedy `\s*` tries at i: the longest run of whitespace there. */
  function SpaceRun(t: string, i: nat): (n: nat)
    requires i <= |t|
    ensures i + n <= |t| && AllSpace(t, i, i + n)
    ensures i + n == |t| || !IsSpace(t[i + n])
    decreases |t| - i
  {
    if i < |t| && IsSpace(t[i]) then 1 + SpaceRun(t, i + 1) else 0
  }

  /** A whitespace run stops at the first non-whitespace character. */
  lemma {:induction false} SpaceRunStops(t: string, i: nat, m: nat)
    requires i <= m < |t| && !IsSpace(t[m])
    ensures i + SpaceRun(t, i) <= m
    decreases m - i
  {
    if i < m && IsSpace(t[i]) {
      SpaceRunStops(t, i + 1, m);
    }
  }

  /** A whitespace run that stops inside u is the same run in a text whose part
      from n on is u + v. */
  lemma {:induction false} SpaceRunShift(t: string, n: nat, u: string, v: string, i: nat)
    requires n <= |t| && t[n..] == u + v && i <= |u| && i + SpaceRun(u, i) < |u|
    ensures SpaceRun(t, n + i) == SpaceRun(u, i)
    decreases |u| - i
  {
    assert t[n + i] == t[n..][i] == u[i];
    if IsSpace(u[i]) {
      SpaceRunShift(t, n, u, v, i + 1);
    }
  }

  /** The first thing a greedy ` *` or ` +` tries at i: the longest run of blanks there. */
  function BlankRun(t: string, i: nat): (n: nat)
    requires i <= |t|
    ensures i + n <= |t| && AllBlank(t, i, i + n)
    ensures i + n == |t| || t[i + n] != ' '
    decreases |t| - i
  {
    if i < |t| && t[i] == ' ' then 1 + BlankRun(t, i + 1) else 0
  }

  /** Blanks from i to j lie inside the longest run of blanks at i. */
  lemma {:induction false} BlankRunCovers(t: string, i: nat, j: nat)
    requires i <= j <= |t| && AllBlank(t, i, j)
    ensures j <= i + BlankRun(t, i)
    decreases j - i
  {
    if i < j {
      BlankRunCovers(t, i + 1, j);
    }
  }

  /** The characters of t that are not whitespace, in order. */
  function NonSpace(t: string): string
  {
    if t == [] then []
    else if IsSpace(t[0]) then NonSpace(t[1..])
    else [t[0]] + NonSpace(t[1..])
  }

  lemma {:induction false} NonSpaceAppend(a: string, b: string)
    ensures NonSpace(a + b) == NonSpace(a) + NonSpace(b)
  {
    if a != [] {
      assert (a + b)[1..] == a[1..] + b;
      NonSpaceAppend(a[1..], b);
    } else {
      assert a + b == b;
    }
  }

  lemma {:induction false} NonSpaceOfSpace(t: string)
    requires AllSpace(t, 0, |t|)
    ensures NonSpace(t) == []
  {
    if t != [] {
      assert AllSpace(t[1..], 0, |t[1..]|) by {
        forall k | 0 <= k < |t[1..]| ensures IsSpace(t[1..][k]) {
          assert t[1..][k] == t[k + 1];
        }
      }
      NonSpaceOfSpace(t[1..]);
    }
  }

  /** A whitespace stretch of t has no non-whitespace characters. */
  lemma NonSpaceOfSpaceSlice(t: string, i: nat, j: nat)
    requires i <= j <= |t| && AllSpace(t, i, j)
    ensures NonSpace(t[i..j]) == []
  {
    var u := t[i..j];
    assert AllSpace(u, 0, |u|) by {
      forall k | 0 <= k < |u| ensures IsSpace(u[k]) {
        assert u[k] == t[i + k];
      }
    }
    NonSpaceOfSpace(u);
  }

  lemma NonSpaceSplit(t: string, a: nat, b: nat, c: nat)
    requires a <= b <= c <= |t|
    ensures NonSpace(t[a..c]) == NonSpace(t[a..b]) + NonSpace(t[b..c])
  {
    assert t[a..c] == t[a..b] + t[b..c];
    NonSpaceAppend(t[a..b], t[b..c]);
  }

  /** Two pieces with the non-space text of the two parts of t make up the
      non-space text of t. */
  lemma NonSpaceJoin(t: string, n: nat, x: string, y: string)
    requires n <= |t| && NonSpace(x) == NonSpace(t[..n]) && NonSpace(y) == NonSpace(t[n..])
    ensures NonSpace(x + y) == NonSpace(t)
  {
    NonSpaceAppend(x, y);
    assert t == t[..n] + t[n..];
    NonSpaceAppend(t[..n], t[n..]);
  }

  lemma NonSpaceConcat6(a: string, b: string, c: string, d: string, e: string, f: string)
    ensures NonSpace(a + b + c + d + e + f)
         == NonSpace(a) + NonSpace(b) + NonSpace(c) + NonSpace(d) + NonSpace(e) + NonSpace(f)
  {
    NonSpaceAppend(a + b + c + d + e, f);
    NonSpaceAppend(a + b + c + d, e);
    NonSpaceAppend(a + b + c, d);
    NonSpaceAppend(a + b, c);
    NonSpaceAppend(a, b);
  }

  lemma AppendAssoc(a: string, b: string, c: string)
    ensures a + (b + c) == a + b + c
  {
  }

  lemma ConsAppend(x: string, r: string)
    requires |x| > 0
    ensures [x[0]] + (x[1..] + r) == x + r
  {
    assert x == [x[0]] + x[1..];
  }

  /** w occurs somewhere in t (as a contiguous block). */
  predicate Occurs(w: string, t: string)
    decreases |t|
  {
    w <= t || (|t| > 0 && Occurs(w, t[1..]))
  }

  lemma {:induction false} OccursAt(w: string, t: string, i: nat)
    requires i <= |t| && w <= t[i..]
    ensures Occurs(w, t)
  {
    if i > 0 {
      assert t[1..][i - 1..] == t[i..];
      OccursAt(w, t[1..], i - 1);
    }
  }

  /** A block that holds a character t lacks cannot occur in t. */
  lemma {:induction false} OccursNeedsChar(w: string, t: string, c: char)
    requires c in w && c !in t
    ensures !Occurs(w, t)
  {
    if |t| > 0 {
      assert forall k :: 0 <= k < |t[1..]| ==> t[1..][k] == t[k + 1];
      OccursNeedsChar(w, t[1..], c);
    }
  }

  /** A block that starts at no position of t does not occur in t. */
  lemma {:induction false} NoOccurrence(w: string, t: string)
    requires forall k :: 0 <= k <= |t| ==> !(w <= t[k..])
    ensures !Occurs(w, t)
    decreases |t|
  {
    assert t[0..] == t;
    if |t| > 0 {
      forall k | 0 <= k <= |t[1..]| ensures !(w <= t[1..][k..]) {
        assert t[1..][k..] == t[k + 1..];
      }
      NoOccurrence(w, t[1..]);
    }
  }

  lemma PrefixTail(w: string, c: char, r: string)
    requires w != [] && w <= [c] + r
    ensures w[0] == c && w[1..] <= r
  {
    assert ([c] + r)[1..] == r;
  }

  lemma PrefixCons(w: string, t: string)
    requires w != [] && t != [] && w[0] == t[0] && w[1..] <= t[1..]
    ensures w <= t
  {
    assert w == [w[0]] + w[1..] && t == [t[0]] + t[1..];
  }

  /** A text a that starts like w but not as w, and in which w's first character
      does not recur, brings no new occurrence of w in front of r. */
  lemma NoOccurrenceAppend(w: string, a: string, r: string)
    requires |w| >= 2 && |a| >= 2 && a[0] == w[0] && a[1] != w[1] && w[0] !in a[1..]
    requires !Occurs(w, r)
    ensures !Occurs(w, a + r)
  {
    var t := a + r;
    forall k | 0 <= k <= |t| ensures !(w <= t[k..]) {
      if k == 0 {
        assert t[0..][1] == a[1];
      } else if k < |a| {
        assert t[k..][0] == a[k] == a[1..][k - 1];
      } else {
        assert t[k..] == r[k - |a|..];
        if w <= t[k..] {
          OccursAt(w, r, k - |a|);
          assert false;
        }
      }
    }
    NoOccurrence(w, t);
  }

  /** A block that shares no character with p and q occurs in p + a + q only if
      it occurs in a. */
  lemma WordBetween(w: string, p: string, a: string, q: string)
    requires w != [] && !Occurs(w, a)
    requires forall c :: c in p ==> c !in w
    requires forall c :: c in q ==> c !in w
    ensures !Occurs(w, p + a + q)
  {
    var s := p + a + q;
    var n := |p| + |a|;
    assert w[0] in w;
    forall k | 0 <= k <= |s| ensures !(w <= s[k..]) {
      if k < |p| {
        assert s[k..][0] == p[k] && p[k] in p;
      } else if k + |w| <= n {
        if w <= s[k..] {
          assert w == s[k..k + |w|] == a[k - |p|..][..|w|];
          OccursAt(w, a, k - |p|);
          assert false;
        }
      } else if k + |w| <= |s| {
        var m := if k < n then n else k;
        assert s[k..][m - k] == q[m - n] && q[m - n] in q && w[m - k] in w;
      }
    }
    NoOccurrence(w, s);
  }

  /** A block that neither starts nor ends with a blank occurs in ` f ` only if it
      occurs in f. */
  lemma WordPadded(w: string, f: string)
    requires w != [] && w[0] != ' ' && w[|w| - 1] != ' ' && !Occurs(w, f)
    ensures !Occurs(w, " " + f + " ")
  {
    var s := " " + f + " ";
    forall k | 0 <= k <= |s| ensures !(w <= s[k..]) {
      if k == 0 {
        assert s[0..][0] == ' ';
      } else if k - 1 + |w| <= |f| {
        if w <= s[k..] {
          assert w == s[k..k + |w|] == f[k - 1..][..|w|];
          OccursAt(w, f, k - 1);
          assert false;
        }
      } else if k + |w| <= |s| {
        assert s[k..][|w| - 1] == s[|s| - 1] == ' ';
      }
    }
    NoOccurrence(w, s);
  }

  /** The block w starts at t[k]. */
  predicate WordAt(w: string, t: string, k: nat) {
    k + |w| <= |t| && t[k..k + |w|] == w
  }

  /** In a text whose part from n on is x, w and y, a w that lies inside x would
      be an occurrence of w in x. */
  lemma WordWithin(t: string, n: nat, x: string, w: string, y: string, i: nat)
    requires n <= |t| && t[n..] == x + w + y
    requires i + |w| <= |x| && !Occurs(w, x)
    ensures !WordAt(w, t, n + i)
  {
    if WordAt(w, t, n + i) {
      assert x[i..][..|w|] == t[n + i..n + i + |w|];
      OccursAt(w, x, i);
    }
  }

  /** A block whose first character does not recur in it cannot overlap itself:
      no w starts inside x and runs into the w after x. */
  lemma WordAcross(t: string, n: nat, x: string, w: string, y: string, i: nat)
    requires n <= |t| && t[n..] == x + w + y
    requires w != [] && w[0] !in w[1..] && i < |x| < i + |w|
    ensures !WordAt(w, t, n + i)
  {
    assert t[n + |x|] == (x + w + y)[|x|] == w[0];
  }

  /** So no w starts inside x at all. */
  lemma WordInside(t: string, n: nat, x: string, w: string, y: string, k: nat)
    requires n <= |t| && t[n..] == x + w + y && w != [] && w[0] !in w[1..]
    requires n <= k < n + |x| && !Occurs(w, x)
    ensures !WordAt(w, t, k)
  {
    if k - n + |w| <= |x| {
      WordWithin(t, n, x, w, y, k - n);
    } else {
      WordAcross(t, n, x, w, y, k - n);
    }
  }

  /** What one successful attempt of a pattern at a position yields: the length of
      the matched text and the groups its replacement uses. */
  datatype Hit =
    | Isolated(len: nat, lead: char, inner: string, trail: char)  // app.py:63
    | LineBlock(len: nat, inner: string)                         // app.py:64
    | Fenced(len: nat, tag: string, body: string)                // app.py:67
    | Token(len: nat)                                            // a literal pattern
    | Spanned(len: nat, content: string)                         // app.py:111
    | Padded(len: nat, at: nat, formula: string)                 // app.py:121
}

/**
 * The string operations that the scraper applies to page text and that the
 * controller applies to form input: stripping, splitting on whitespace or on a
 * separator, joining, collapsing whitespace, substring search and removal.
 * Python and Ruby each have their own idea of whitespace; each is fixed here
 * as an explicit character set.
 */
module Text {

  /** Which notion of whitespace an operation uses. */
  datatype Charset =
    | PySpace     // Python's str.isspace(), behind str.strip() and str.split()
    | RubyStrip   // Ruby's String#strip: NUL, tab, LF, VT, FF, CR and space
    | RubyBlank   // the [[:space:]] class behind ActiveSupport's blank? and present?

  /** The characters with the Unicode White_Space property. */
  predicate UnicodeSpace(c: char) {
    || ('\t' <= c <= '\r')
    || c == ' ' || c == '\U{85}' || c == '\U{A0}' || c == '\U{1680}'
    || ('\U{2000}' <= c <= '\U{200A}')
    || c == '\U{2028}' || c == '\U{2029}' || c == '\U{202F}' || c == '\U{205F}' || c == '\U{3000}'
  }

  predicate IsSpace(cs: Charset, c: char) {
    match cs
    case PySpace => UnicodeSpace(c) || ('\U{1C}' <= c <= '\U{1F}')
    case RubyStrip => c == '\0' || c == ' ' || ('\t' <= c <= '\r')
    case RubyBlank => UnicodeSpace(c)
  }

  predicate AllSpace(cs: Charset, s: string) {
    forall k :: 0 <= k < |s| ==> IsSpace(cs, s[k])
  }

  /** Neither end of `s` is whitespace. */
  predicate IsStripped(cs: Charset, s: string) {
    s == [] || (!IsSpace(cs, s[0]) && !IsSpace(cs, s[|s| - 1]))
  }

  /** `s` without its leading whitespace (Python's lstrip()). */
  function TrimLeft(cs: Charset, s: string): (r: string)
    ensures |r| <= |s|
    ensures r != [] ==> !IsSpace(cs, r[0])
  {
    if s != [] && IsSpace(cs, s[0]) then TrimLeft(cs, s[1..]) else s
  }

  /** lstrip() keeps a suffix of `s` and drops only whitespace before it. */
  lemma {:induction false} TrimLeftSuffix(cs: Charset, s: string)
    ensures var r := TrimLeft(cs, s);
      r == s[|s| - |r|..] && forall k :: 0 <= k < |s| - |r| ==> IsSpace(cs, s[k])
  {
    if s != [] && IsSpace(cs, s[0]) {
      TrimLeftSuffix(cs, s[1..]);
      var r := TrimLeft(cs, s);
      forall k | 0 <= k < |s| - |r| ensures IsSpace(cs, s[k]) {
        if k > 0 {
          assert s[k] == s[1..][k - 1];
        }
      }
      assert s[1..][|s| - 1 - |r|..] == s[|s| - |r|..];
    }
  }

  /** `s` without its trailing whitespace (Python's rstrip()). */
  function TrimRight(cs: Charset, s: string): (r: string)
    ensures |r| <= |s|
    ensures r != [] ==> !IsSpace(cs, r[|r| - 1])
  {
    if s != [] && IsSpace(cs, s[|s| - 1]) then TrimRight(cs, s[..|s| - 1]) else s
  }

  /** rstrip() keeps a prefix of `s` and drops only whitespace after it. */
  lemma {:induction false} TrimRightPrefix(cs: Charset, s: string)
    ensures var r := TrimRight(cs, s);
      r == s[..|r|] && forall k :: |r| <= k < |s| ==> IsSpace(cs, s[k])
  {
    if s != [] && IsSpace(cs, s[|s| - 1]) {
      var init := s[..|s| - 1];
      TrimRightPrefix(cs, init);
      var r := TrimRight(cs, s);
      forall k | |r| <= k < |s| ensures IsSpace(cs, s[k]) {
        if k < |s| - 1 {
          assert s[k] == init[k];
        }
      }
      assert init[..|r|] == s[..|r|];
    }
  }

  /**
   * Python's str.strip() and Ruby's String#strip, each with its own character
   * set: the result has no whitespace at either end, leaves a stripped string
   * alone, is empty exactly when `s` is all whitespace, and only drops characters.
   */
  function Strip(cs: Charset, s: string): (r: string)
    ensures IsStripped(cs, r)
    ensures IsStripped(cs, s) ==> r == s
    ensures r == [] <==> AllSpace(cs, s)
    ensures |r| <= |s|
    ensures forall c :: c in r ==> c in s
  {
    var t := TrimLeft(cs, s);
    var r := TrimRight(cs, t);
    StripEmptyAllSpace(cs, s, t, r);
    r
  }

  /** A single space before stripped text is all that strip() removes. */
  lemma StripLeadingSpace(cs: Charset, y: string)
    requires y != [] && IsStripped(cs, y) && IsSpace(cs, ' ')
    ensures Strip(cs, [' '] + y) == y
  {
    assert ([' '] + y)[1..] == y;
    assert TrimLeft(cs, [' '] + y) == y;
  }

  lemma StripEmptyAllSpace(cs: Charset, s: string, t: string, r: string)
    requires t == TrimLeft(cs, s) && r == TrimRight(cs, t)
    ensures r == [] ==> AllSpace(cs, s)
    ensures r != [] ==> r[0] == t[0]
    ensures forall c :: c in r ==> c in s
    ensures AllSpace(cs, s) ==> r == []
    ensures IsStripped(cs, s) ==> r == s
  {
    TrimLeftSuffix(cs, s);
    TrimRightPrefix(cs, t);
    if r == [] {
      assert t == [];
    } else {
      assert t[0] == s[|s| - |t|];
    }
    forall c | c in r ensures c in s {
      var i :| 0 <= i < |r| && r[i] == c;
      assert r[i] == t[i] == s[|s| - |t| + i];
    }
  }

  /**
   * Stripping removes only whitespace, and only from the two ends: the result
   * is the slice of `s` that starts after its leading whitespace.
   */
  lemma StripRemovesOnlyEnds(cs: Charset, s: string)
    ensures var r, a := Strip(cs, s), |s| - |TrimLeft(cs, s)|;
      && a + |r| <= |s| && s[a..a + |r|] == r
      && (forall k :: 0 <= k < a ==> IsSpace(cs, s[k]))
      && (forall k :: a + |r| <= k < |s| ==> IsSpace(cs, s[k]))
  {
    var t := TrimLeft(cs, s);
    var r := Strip(cs, s);
    assert r == TrimRight(cs, t);
    TrimLeftSuffix(cs, s);
    TrimRightPrefix(cs, t);
    SliceOfSuffix(cs, s, t, r);
  }

  /** A prefix `r` of a suffix `t` of `s` is a slice of `s`; what `t` has after `r` is what `s` has there. */
  lemma SliceOfSuffix(cs: Charset, s: string, t: string, r: string)
    requires |t| <= |s| && t == s[|s| - |t|..]
    requires |r| <= |t| && r == t[..|r|]
    requires forall k :: |r| <= k < |t| ==> IsSpace(cs, t[k])
    ensures var a := |s| - |t|;
      s[a..a + |r|] == r && forall k :: a + |r| <= k < |s| ==> IsSpace(cs, s[k])
  {
    var a := |s| - |t|;
    assert s[a..a + |r|] == t[..|r|];
    forall k | a + |r| <= k < |s| ensures IsSpace(cs, s[k]) {
      assert s[k] == t[k - a];
    }
  }

  /** `s` starts with `p` (Python's str.startswith). */
  predicate StartsWith(s: string, p: string) {
    |p| <= |s| && s[..|p|] == p
  }

  /** `p` occurs somewhere in `s` (Python's `p in s`). */
  predicate Contains(s: string, p: string)
    decreases |s|
  {
    StartsWith(s, p) || (s != [] && Contains(s[1..], p))
  }

  /** `s` starts with `p` exactly when `s` is `p` followed by the rest of `s`. */
  lemma StartsWithSplit(s: string, p: string)
    ensures StartsWith(s, p) <==> |p| <= |s| && s == p + s[|p|..]
    ensures StartsWith(p + s, p)
  {
    assert (p + s)[..|p|] == p;
    if |p| <= |s| && s == p + s[|p|..] {
      assert s[..|p|] == (p + s[|p|..])[..|p|];
    }
  }

  /** `p` occurs in `s` at offset `i`. */
  predicate OccursAt(s: string, p: string, i: nat) {
    i + |p| <= |s| && s[i..i + |p|] == p
  }

  /** `p in s` holds exactly when `p` occurs at some offset of `s`. */
  lemma {:induction false} ContainsIff(s: string, p: string)
    ensures Contains(s, p) <==> exists i: nat :: OccursAt(s, p, i)
  {
    if Contains(s, p) {
      var i := ContainsWitness(s, p);
      assert OccursAt(s, p, i);
    }
    if exists i: nat :: OccursAt(s, p, i) {
      var i: nat :| OccursAt(s, p, i);
      ContainsAt(s, p, i);
    }
  }

  /** An offset at which `p` occurs, when `s` contains it. */
  lemma {:induction false} ContainsWitness(s: string, p: string) returns (i: nat)
    requires Contains(s, p)
    ensures i + |p| <= |s| && s[i..i + |p|] == p
    decreases |s|
  {
    if StartsWith(s, p) {
      i := 0;
    } else {
      var j := ContainsWitness(s[1..], p);
      assert s[j + 1..j + 1 + |p|] == s[1..][j..j + |p|];
      i := j + 1;
    }
  }

  lemma {:induction false} ContainsShorter(s: string, p: string)
    requires Contains(s, p)
    ensures |p| <= |s|
    decreases |s|
  {
    if !StartsWith(s, p) {
      ContainsShorter(s[1..], p);
    }
  }

  /** Whoever contains `a + b` contains `b`. */
  lemma {:induction false} ContainsSuffixOfPattern(s: string, a: string, b: string)
    requires Contains(s, a + b)
    ensures Contains(s, b)
    decreases |s|
  {
    if StartsWith(s, a + b) {
      ContainsAt(s, b, |a|);
    } else {
      ContainsSuffixOfPattern(s[1..], a, b);
    }
  }

  /** An occurrence at offset `i` is an occurrence. */
  lemma {:induction false} ContainsAt(s: string, p: string, i: nat)
    requires i + |p| <= |s| && s[i..i + |p|] == p
    ensures Contains(s, p)
    decreases i
  {
    if i > 0 {
      assert s[1..][i - 1..i - 1 + |p|] == p;
      ContainsAt(s[1..], p, i - 1);
    }
  }

  /**
   * Python's s.replace(pat, ""): every non-overlapping occurrence of `pat`,
   * found left to right, is deleted. It never grows the string, leaves a string
   * without `pat` alone, and deletes at least one occurrence when there is one.
   */
  function RemoveAll(s: string, pat: string): (r: string)
    requires pat != []
    ensures |r| <= |s|
    ensures !Contains(s, pat) ==> r == s
    ensures Contains(s, pat) ==> |r| <= |s| - |pat|
    decreases |s|
  {
    if s == [] then []
    else if StartsWith(s, pat) then RemoveAll(s[|pat|..], pat)
    else [s[0]] + RemoveAll(s[1..], pat)
  }

  /**
   * The scan restarts after each deletion: when `a` holds no occurrence of
   * `pat` that starts inside it, the first occurrence of `a + pat + b` is the
   * one after `a`, and it is deleted.
   */
  lemma {:induction false} RemoveAllAfter(a: string, pat: string, b: string)
    requires pat != []
    requires !Contains(a + pat[..|pat| - 1], pat)
    ensures RemoveAll(a + pat + b, pat) == a + RemoveAll(b, pat)
    decreases |a|
  {
    if a == [] {
      RemoveAllAtStart(pat, b);
    } else {
      RemoveAllSkip(a, pat, b);
      RemoveAllAfter(a[1..], pat, b);
      ConsAppend(a, RemoveAll(b, pat));
    }
  }

  lemma ConsAppend(a: string, x: string)
    requires a != []
    ensures [a[0]] + (a[1..] + x) == a + x
  {
    assert a == [a[0]] + a[1..];
  }

  /** An occurrence at the start is deleted and the scan goes on after it. */
  lemma RemoveAllAtStart(pat: string, b: string)
    requires pat != []
    ensures RemoveAll([] + pat + b, pat) == RemoveAll(b, pat)
  {
    assert [] + pat + b == pat + b && (pat + b)[|pat|..] == b;
  }

  /** Both occurrences go: `a + pat + b + pat` loses each `pat`, when none starts inside `a` or `b`. */
  lemma RemoveAllTwo(a: string, pat: string, b: string)
    requires pat != []
    requires !Contains(a + pat[..|pat| - 1], pat) && !Contains(b + pat[..|pat| - 1], pat)
    ensures RemoveAll(a + pat + b + pat, pat) == a + b
  {
    calc {
      RemoveAll(a + pat + b + pat, pat);
      { assert a + pat + b + pat == a + pat + (b + pat); }
      RemoveAll(a + pat + (b + pat), pat);
      { RemoveAllAfter(a, pat, b + pat); }
      a + RemoveAll(b + pat, pat);
      { RemoveAllTrailing(b, pat); }
      a + b;
    }
  }

  /** A trailing occurrence after text in which none starts is deleted. */
  lemma RemoveAllTrailing(b: string, pat: string)
    requires pat != [] && !Contains(b + pat[..|pat| - 1], pat)
    ensures RemoveAll(b + pat, pat) == b
  {
    RemoveAllAfter(b, pat, []);
    assert b + pat + [] == b + pat;
    assert RemoveAll([], pat) == [];
  }

  /** Before the first occurrence, RemoveAll keeps one character and moves on. */
  lemma RemoveAllSkip(a: string, pat: string, b: string)
    requires a != [] && pat != []
    requires !Contains(a + pat[..|pat| - 1], pat)
    ensures RemoveAll(a + pat + b, pat) == [a[0]] + RemoveAll(a[1..] + pat + b, pat)
    ensures !Contains(a[1..] + pat[..|pat| - 1], pat)
  {
    var s := a + pat + b;
    var a' := a + pat[..|pat| - 1];
    assert !StartsWith(a', pat);
    assert a'[..|pat|] == s[..|pat|];
    assert !StartsWith(s, pat);
    assert a'[1..] == a[1..] + pat[..|pat| - 1];
    assert s[1..] == a[1..] + pat + b;
  }

  /** Python's str.lower(), restricted to the ASCII letters. */
  function Lower(s: string): (r: string)
    ensures |r| == |s|
    ensures forall i :: 0 <= i < |r| ==> !('A' <= r[i] <= 'Z')
    ensures forall i :: 0 <= i < |r| && !('A' <= s[i] <= 'Z') ==> r[i] == s[i]
    ensures forall i :: 0 <= i < |r| && 'A' <= s[i] <= 'Z' ==> r[i] == (s[i] as int + 32) as char
  {
    seq(|s|, i requires 0 <= i < |s| => if 'A' <= s[i] <= 'Z' then (s[i] as int + 32) as char else s[i])
  }

  // ---------------------------------------------------------------------------
  // Splitting on whitespace and collapsing it

  /** A non-empty run of non-whitespace characters. */
  predicate IsWord(cs: Charset, w: string) {
    w != [] && forall k :: 0 <= k < |w| ==> !IsSpace(cs, w[k])
  }

  /** The length of the run of non-whitespace characters that starts `s`. */
  function WordLength(cs: Charset, s: string): (n: nat)
    ensures n <= |s|
    ensures forall k :: 0 <= k < n ==> !IsSpace(cs, s[k])
    ensures n < |s| ==> IsSpace(cs, s[n])
  {
    if s != [] && !IsSpace(cs, s[0]) then 1 + WordLength(cs, s[1..]) else 0
  }

  /** Python's str.split() with no argument: the maximal whitespace-free runs, in order, each a word. */
  function Words(cs: Charset, s: string): (ws: seq<string>)
    ensures forall i :: 0 <= i < |ws| ==> IsWord(cs, ws[i])
    decreases |s|
  {
    var t := TrimLeft(cs, s);
    if t == [] then []
    else
      var n := WordLength(cs, t);
      var w := t[..n];
      assert IsWord(cs, w) by {
        forall k | 0 <= k < n ensures !IsSpace(cs, w[k]) {
          assert w[k] == t[k];
        }
      }
      [w] + Words(cs, t[n..])
  }

  /**
   * The whitespace runs of `s` around its words: before the first word,
   * between each two words and after the last one.
   */
  function Gaps(cs: Charset, s: string): seq<string>
    decreases |s|
  {
    var t := TrimLeft(cs, s);
    var lead := s[..|s| - |t|];
    if t == [] then [lead]
    else [lead] + Gaps(cs, t[WordLength(cs, t)..])
  }

  /** gaps[0] + ws[0] + gaps[1] + ... + ws[n - 1] + gaps[n]. */
  function Weave(gaps: seq<string>, ws: seq<string>): string
    requires |gaps| == |ws| + 1
  {
    if ws == [] then gaps[0] else gaps[0] + ws[0] + Weave(gaps[1..], ws[1..])
  }

  /**
   * split() cuts `s` into words and whitespace: `s` is its words interleaved
   * with whitespace runs, the runs between two words are not empty, and so
   * each word is a maximal run of non-whitespace characters of `s`.
   */
  lemma WordsAndGaps(cs: Charset, s: string)
    ensures var ws, gs := Words(cs, s), Gaps(cs, s);
      && |gs| == |ws| + 1
      && Weave(gs, ws) == s
      && (forall i :: 0 <= i < |gs| ==> AllSpace(cs, gs[i]))
      && (forall i :: 0 < i < |ws| ==> gs[i] != [])
  {
    WeaveOfWords(cs, s);
    GapsAreSpace(cs, s);
    InnerGapsNonEmpty(cs, s);
  }

  /** One step of split(): the leading whitespace, the first word, and the rest. */
  lemma {:induction false} WordsStep(cs: Charset, s: string)
    requires TrimLeft(cs, s) != []
    ensures var t := TrimLeft(cs, s); var n := WordLength(cs, t);
      && 0 < n <= |t| && s == s[..|s| - |t|] + t[..n] + t[n..]
      && Words(cs, s) == [t[..n]] + Words(cs, t[n..])
      && Gaps(cs, s) == [s[..|s| - |t|]] + Gaps(cs, t[n..])
  {
    TrimLeftSuffix(cs, s);
  }

  lemma {:induction false} WeaveOfWords(cs: Charset, s: string)
    ensures |Gaps(cs, s)| == |Words(cs, s)| + 1 && Weave(Gaps(cs, s), Words(cs, s)) == s
    decreases |s|
  {
    var t := TrimLeft(cs, s);
    TrimLeftSuffix(cs, s);
    if t != [] {
      var n := WordLength(cs, t);
      WordsStep(cs, s);
      WeaveOfWords(cs, t[n..]);
      var ws, gs := Words(cs, s), Gaps(cs, s);
      assert ws[1..] == Words(cs, t[n..]) && gs[1..] == Gaps(cs, t[n..]);
    } else {
      assert s[..|s|] == s;
    }
  }

  lemma {:induction false} GapsAreSpace(cs: Charset, s: string)
    ensures forall i :: 0 <= i < |Gaps(cs, s)| ==> AllSpace(cs, Gaps(cs, s)[i])
    decreases |s|
  {
    var t := TrimLeft(cs, s);
    LeadIsSpace(cs, s);
    if t != [] {
      var rest := t[WordLength(cs, t)..];
      var gs := Gaps(cs, s);
      WordsStep(cs, s);
      GapsAreSpace(cs, rest);
      forall i | 0 < i < |gs| ensures AllSpace(cs, gs[i]) {
        assert gs[i] == Gaps(cs, rest)[i - 1];
      }
    }
  }

  /** What lstrip() drops is whitespace. */
  lemma LeadIsSpace(cs: Charset, s: string)
    ensures AllSpace(cs, s[..|s| - |TrimLeft(cs, s)|])
  {
    TrimLeftSuffix(cs, s);
    var lead := s[..|s| - |TrimLeft(cs, s)|];
    forall k | 0 <= k < |lead| ensures IsSpace(cs, lead[k]) {
      assert lead[k] == s[k];
    }
  }

  /** Text that starts with whitespace has a non-empty first gap. */
  lemma FirstGapNonEmpty(cs: Charset, s: string)
    requires s != [] && IsSpace(cs, s[0])
    ensures Gaps(cs, s)[0] != []
  {
    assert TrimLeft(cs, s) == TrimLeft(cs, s[1..]);
  }

  lemma {:induction false} InnerGapsNonEmpty(cs: Charset, s: string)
    ensures forall i :: 0 < i < |Words(cs, s)| && i < |Gaps(cs, s)| ==> Gaps(cs, s)[i] != []
    decreases |s|
  {
    var t := TrimLeft(cs, s);
    if t != [] {
      var n := WordLength(cs, t);
      var rest := t[n..];
      WordsStep(cs, s);
      WeaveOfWords(cs, rest);
      InnerGapsNonEmpty(cs, rest);
      var ws, gs := Words(cs, s), Gaps(cs, s);
      forall i | 0 < i < |ws| ensures gs[i] != [] {
        if i == 1 {
          FirstGapNonEmpty(cs, rest);
        } else {
          assert gs[i] == Gaps(cs, rest)[i - 1] && ws[i] == Words(cs, rest)[i - 1];
        }
      }
    }
  }

  /** Leading whitespace does not change split(). */
  lemma {:induction false} WordsSkipGap(cs: Charset, g: string, x: string)
    requires AllSpace(cs, g)
    ensures Words(cs, g + x) == Words(cs, x)
    decreases |g|
  {
    if g != [] {
      var y := g[1..] + x;
      assert g + x == [g[0]] + y;
      WordsSkipSpace(cs, g[0], y);
      assert AllSpace(cs, g[1..]) by {
        forall k | 0 <= k < |g| - 1 ensures IsSpace(cs, g[1..][k]) {
          assert g[1..][k] == g[k + 1];
        }
      }
      WordsSkipGap(cs, g[1..], x);
    } else {
      assert g + x == x;
    }
  }

  /** A weave is empty or starts with whitespace when its first run is whitespace, non-empty before a word. */
  lemma WeaveStart(cs: Charset, gs: seq<string>, ws: seq<string>)
    requires |gs| == |ws| + 1 && AllSpace(cs, gs[0]) && (ws != [] ==> gs[0] != [])
    ensures Weave(gs, ws) == [] || IsSpace(cs, Weave(gs, ws)[0])
  {
    if gs[0] != [] {
      assert Weave(gs, ws)[0] == gs[0][0];
    }
  }

  /**
   * The converse of WordsAndGaps: words interleaved with whitespace runs, the
   * runs between two words not empty, split back into exactly those words.
   */
  lemma {:induction false} WordsOfWeave(cs: Charset, gs: seq<string>, ws: seq<string>)
    requires |gs| == |ws| + 1
    requires forall i :: 0 <= i < |gs| ==> AllSpace(cs, gs[i])
    requires forall i :: 0 < i < |ws| ==> gs[i] != []
    requires forall i :: 0 <= i < |ws| ==> IsWord(cs, ws[i])
    ensures Words(cs, Weave(gs, ws)) == ws
    decreases |ws|
  {
    if ws == [] {
      WordsSkipGap(cs, gs[0], []);
      assert gs[0] + [] == gs[0];
    } else {
      var gs', ws' := gs[1..], ws[1..];
      var rest := Weave(gs', ws');
      WeaveStart(cs, gs', ws');
      assert Weave(gs, ws) == gs[0] + (ws[0] + rest);
      WordsSkipGap(cs, gs[0], ws[0] + rest);
      WordsCons(cs, ws[0], rest);
      forall i | 0 <= i < |gs'| ensures AllSpace(cs, gs'[i]) {
        assert gs'[i] == gs[i + 1];
      }
      forall i | 0 < i < |ws'| ensures gs'[i] != [] {
        assert gs'[i] == gs[i + 1];
      }
      forall i | 0 <= i < |ws'| ensures IsWord(cs, ws'[i]) {
        assert ws'[i] == ws[i + 1];
      }
      WordsOfWeave(cs, gs', ws');
      assert [ws[0]] + ws' == ws;
    }
  }

  /** Whitespace after a weave joins its last run. */
  lemma {:induction false} WeaveExtendLast(gs: seq<string>, ws: seq<string>, post: string)
    requires |gs| == |ws| + 1
    ensures Weave(gs, ws) + post == Weave(gs[..|ws|] + [gs[|ws|] + post], ws)
    decreases |ws|
  {
    var gs2 := gs[..|ws|] + [gs[|ws|] + post];
    if ws == [] {
      assert gs2 == [gs[0] + post];
    } else {
      var tail := Weave(gs[1..], ws[1..]);
      WeaveExtendLast(gs[1..], ws[1..], post);
      assert gs2[0] == gs[0];
      assert gs2[1..] == gs[1..][..|ws| - 1] + [gs[1..][|ws| - 1] + post];
      assert Weave(gs2, ws) == gs[0] + ws[0] + (tail + post);
      AppendAssoc(gs[0] + ws[0], tail, post);
    }
  }

  lemma AppendAssoc(x: string, y: string, z: string)
    ensures x + y + z == x + (y + z)
  {
  }

  /** Trailing whitespace does not change split(). */
  lemma WordsTrailingSpace(cs: Charset, r: string, post: string)
    requires AllSpace(cs, post)
    ensures Words(cs, r + post) == Words(cs, r)
  {
    WordsAndGaps(cs, r);
    var ws, gs := Words(cs, r), Gaps(cs, r);
    var n := |ws|;
    var gs2 := gs[..n] + [gs[n] + post];
    WeaveExtendLast(gs, ws, post);
    forall i | 0 <= i < |gs2| ensures AllSpace(cs, gs2[i]) {
      if i < n {
        assert gs2[i] == gs[i];
      } else {
        assert gs2[i] == gs[n] + post;
        assert AllSpace(cs, gs[n]);
        forall k | 0 <= k < |gs2[i]| ensures IsSpace(cs, gs2[i][k]) {
          if k < |gs[n]| {
            assert gs2[i][k] == gs[n][k];
          } else {
            assert gs2[i][k] == post[k - |gs[n]|];
          }
        }
      }
    }
    forall i | 0 < i < n ensures gs2[i] != [] {
      assert gs2[i] == gs[i];
    }
    WordsOfWeave(cs, gs2, ws);
  }

  /** split() ignores the whitespace strip() removes. */
  lemma {:induction false} WordsOfStrip(cs: Charset, s: string)
    ensures Words(cs, Strip(cs, s)) == Words(cs, s)
  {
    var pre, post := StripEnds(cs, s);
    WordsSkipGap(cs, pre, Strip(cs, s) + post);
    WordsTrailingSpace(cs, Strip(cs, s), post);
  }

  /** The whitespace strip() removes: what comes before and after the stripped text. */
  lemma {:induction false} StripEnds(cs: Charset, s: string) returns (pre: string, post: string)
    ensures s == pre + (Strip(cs, s) + post)
    ensures AllSpace(cs, pre) && AllSpace(cs, post)
  {
    StripRemovesOnlyEnds(cs, s);
    var r := Strip(cs, s);
    var a := |s| - |TrimLeft(cs, s)|;
    pre, post := s[..a], s[a + |r|..];
    assert s == pre + (r + post);
    forall k | 0 <= k < |pre| ensures IsSpace(cs, pre[k]) {
      assert pre[k] == s[k];
    }
    forall k | 0 <= k < |post| ensures IsSpace(cs, post[k]) {
      assert post[k] == s[a + |r| + k];
    }
  }

  /** Python's " ".join(ws). */
  function JoinWords(ws: seq<string>): string {
    if ws == [] then ""
    else if |ws| == 1 then ws[0]
    else ws[0] + " " + JoinWords(ws[1..])
  }

  /**
   * Every whitespace character is a plain space and no two whitespace
   * characters are adjacent; with IsStripped, each space sits between two
   * non-whitespace characters.
   */
  ghost predicate IsCollapsed(cs: Charset, r: string) {
    && (forall i :: 0 <= i < |r| && IsSpace(cs, r[i]) ==> r[i] == ' ')
    && (forall i, j :: 0 <= i < j < |r| && j == i + 1 ==> !IsSpace(cs, r[i]) || !IsSpace(cs, r[j]))
  }

  /**
   * " ".join(s.split()) in Python: the words of `s` separated by single
   * spaces, with no whitespace at either end.
   */
  function Collapse(cs: Charset, s: string): (r: string)
    ensures IsCollapsed(cs, r) && IsStripped(cs, r)
  {
    JoinWordsCollapsed(cs, Words(cs, s));
    JoinWords(Words(cs, s))
  }

  /** Collapsing keeps the words: splitting the result gives the words of `s`. */
  lemma CollapseKeepsWords(cs: Charset, s: string)
    ensures Words(cs, Collapse(cs, s)) == Words(cs, s)
  {
    WordsOfJoin(cs, Words(cs, s));
  }

  lemma SpaceIsSpace(cs: Charset)
    ensures IsSpace(cs, ' ')
  {
  }

  /** Leading whitespace does not change the words. */
  lemma WordsSkipSpace(cs: Charset, c: char, x: string)
    requires IsSpace(cs, c)
    ensures Words(cs, [c] + x) == Words(cs, x)
  {
    assert ([c] + x)[1..] == x;
    assert TrimLeft(cs, [c] + x) == TrimLeft(cs, x);
  }

  lemma {:induction false} WordLengthOfWord(cs: Charset, w: string, tail: string)
    requires forall k :: 0 <= k < |w| ==> !IsSpace(cs, w[k])
    requires tail == [] || IsSpace(cs, tail[0])
    ensures WordLength(cs, w + tail) == |w|
  {
    if w != [] {
      assert (w + tail)[1..] == w[1..] + tail;
      WordLengthOfWord(cs, w[1..], tail);
    }
  }

  /** A word followed by whitespace (or nothing) is the first word. */
  lemma WordsCons(cs: Charset, w: string, tail: string)
    requires IsWord(cs, w)
    requires tail == [] || IsSpace(cs, tail[0])
    ensures Words(cs, w + tail) == [w] + Words(cs, tail)
  {
    var s := w + tail;
    assert s[0] == w[0];
    assert TrimLeft(cs, s) == s;
    WordLengthOfWord(cs, w, tail);
    assert s[..|w|] == w && s[|w|..] == tail;
  }

  /** Splitting the " "-join of words gives the words back. */
  lemma {:induction false} WordsOfJoin(cs: Charset, ws: seq<string>)
    requires forall i :: 0 <= i < |ws| ==> IsWord(cs, ws[i])
    ensures Words(cs, JoinWords(ws)) == ws
  {
    if ws == [] {
    } else if |ws| == 1 {
      WordsOfWord(cs, ws[0]);
    } else {
      WordsOfJoin(cs, ws[1..]);
      WordsOfJoinStep(cs, ws[0], ws[1..]);
      assert [ws[0]] + ws[1..] == ws;
    }
  }

  lemma WordsOfWord(cs: Charset, w: string)
    requires IsWord(cs, w)
    ensures Words(cs, w) == [w]
  {
    WordsCons(cs, w, []);
    assert w + [] == w;
  }

  lemma WordsOfJoinStep(cs: Charset, w: string, more: seq<string>)
    requires IsWord(cs, w) && more != []
    requires Words(cs, JoinWords(more)) == more
    ensures Words(cs, JoinWords([w] + more)) == [w] + more
  {
    var rest := JoinWords(more);
    var tail := [' '] + rest;
    assert ([w] + more)[1..] == more;
    assert JoinWords([w] + more) == w + tail;
    SpaceIsSpace(cs);
    WordsCons(cs, w, tail);
    WordsSkipSpace(cs, ' ', rest);
  }

  /** The " "-join of words is collapsed and has a word character at each end. */
  lemma {:induction false} JoinWordsCollapsed(cs: Charset, ws: seq<string>)
    requires forall i :: 0 <= i < |ws| ==> IsWord(cs, ws[i])
    ensures IsCollapsed(cs, JoinWords(ws)) && IsStripped(cs, JoinWords(ws))
    ensures ws != [] ==> JoinWords(ws) != []
  {
    if |ws| >= 2 {
      SpaceIsSpace(cs);
      var w, rest := ws[0], JoinWords(ws[1..]);
      JoinWordsCollapsed(cs, ws[1..]);
      var s := w + " " + rest;
      assert JoinWords(ws) == s;
      forall i | 0 <= i < |s| && IsSpace(cs, s[i])
        ensures s[i] == ' '
      {
        if i > |w| {
          assert s[i] == rest[i - |w| - 1];
        }
      }
      forall i, j | 0 <= i < j < |s| && j == i + 1
        ensures !IsSpace(cs, s[i]) || !IsSpace(cs, s[j])
      {
        if i == |w| {
          assert s[j] == rest[0];
        } else if i + 1 == |w| {
          assert s[i] == w[|w| - 1];
        } else if i > |w| {
          assert s[i] == rest[i - |w| - 1] && s[j] == rest[j - |w| - 1];
        }
      }
    }
  }

  /** Collapsing twice is collapsing once. */
  lemma CollapseIdempotent(cs: Charset, s: string)
    ensures Collapse(cs, Collapse(cs, s)) == Collapse(cs, s)
  {
    CollapseKeepsWords(cs, s);
  }

  // ---------------------------------------------------------------------------
  // Splitting on a separator

  /** The number of characters of `s` before its first `sep`. */
  function FieldLength(s: string, sep: char): (n: nat)
    ensures n <= |s| && sep !in s[..n]
    ensures n < |s| ==> s[n] == sep
  {
    if s == [] || s[0] == sep then 0
    else
      var m := FieldLength(s[1..], sep);
      assert s[..m + 1] == [s[0]] + s[1..][..m];
      1 + m
  }

  /** Python's sep.join(parts) for a one-character separator. */
  function JoinWith(parts: seq<string>, sep: char): string {
    if parts == [] then ""
    else if |parts| == 1 then parts[0]
    else parts[0] + [sep] + JoinWith(parts[1..], sep)
  }

  /**
   * Python's s.split(sep) for a one-character separator: at least one field,
   * no field holds `sep`, and joining the fields with `sep` gives `s` back.
   */
  function SplitOn(s: string, sep: char): (parts: seq<string>)
    ensures |parts| >= 1
    ensures forall i :: 0 <= i < |parts| ==> sep !in parts[i]
    ensures JoinWith(parts, sep) == s
    decreases |s|
  {
    var k := FieldLength(s, sep);
    if k == |s| then
      assert s[..k] == s;
      [s]
    else
      var rest := SplitOn(s[k + 1..], sep);
      assert s == s[..k] + [sep] + s[k + 1..];
      [s[..k]] + rest
  }

  /** Splitting the `sep`-join of separator-free fields gives the fields back. */
  lemma {:induction false} SplitOfJoin(parts: seq<string>, sep: char)
    requires parts != []
    requires forall i :: 0 <= i < |parts| ==> sep !in parts[i]
    ensures SplitOn(JoinWith(parts, sep), sep) == parts
  {
    var p := parts[0];
    if |parts| == 1 {
      assert FieldLength(p, sep) == |p| by { FieldLengthOfField(p, [], sep); assert p + [] == p; }
    } else {
      var s := JoinWith(parts, sep);
      var rest := JoinWith(parts[1..], sep);
      assert s == p + ([sep] + rest);
      FieldLengthOfField(p, [sep] + rest, sep);
      assert s[..|p|] == p;
      assert s[|p| + 1..] == rest;
      SplitOfJoin(parts[1..], sep);
    }
  }

  lemma {:induction false} FieldLengthOfField(p: string, tail: string, sep: char)
    requires sep !in p
    requires tail == [] || tail[0] == sep
    ensures FieldLength(p + tail, sep) == |p|
  {
    if p != [] {
      assert (p + tail)[1..] == p[1..] + tail;
      FieldLengthOfField(p[1..], tail, sep);
    }
  }

  /** A string made only of separators splits into empty fields. */
  lemma {:induction false} SplitOfSeparators(s: string, sep: char)
    requires forall i :: 0 <= i < |s| ==> s[i] == sep
    ensures forall i :: 0 <= i < |SplitOn(s, sep)| ==> SplitOn(s, sep)[i] == []
    decreases |s|
  {
    if s != [] {
      assert FieldLength(s, sep) == 0;
      SplitOfSeparators(s[1..], sep);
      assert SplitOn(s, sep) == [[]] + SplitOn(s[1..], sep);
    }
  }

  /** Ruby's String#split with a one-character separator: Python's split, minus trailing empty fields. */
  function DropTrailingEmpty(parts: seq<string>): (r: seq<string>)
    ensures |r| <= |parts| && r == parts[..|r|]
    ensures r != [] ==> r[|r| - 1] != []
    ensures forall i :: |r| <= i < |parts| ==> parts[i] == []
  {
    if parts != [] && parts[|parts| - 1] == [] then DropTrailingEmpty(parts[..|parts| - 1]) else parts
  }

  function RubySplit(s: string, sep: char): seq<string> {
    DropTrailingEmpty(SplitOn(s, sep))
  }

  /** Every field stripped, in order (Python's [u.strip() for u in parts], Ruby's map(&:strip)). */
  function StripAll(cs: Charset, parts: seq<string>): seq<string> {
    seq(|parts|, i requires 0 <= i < |parts| => Strip(cs, parts[i]))
  }

  /** The non-empty fields, in order; each one comes from the input. */
  function NonEmpty(parts: seq<string>): (r: seq<string>)
    ensures |r| <= |parts|
    ensures forall i :: 0 <= i < |r| ==> r[i] != [] && r[i] in parts
  {
    if parts == [] then []
    else (if parts[0] == [] then [] else [parts[0]]) + NonEmpty(parts[1..])
  }

  /**
   * The filter that both programs apply to a split list: strip every field and
   * drop the ones left empty, keeping the order (Python's
   * [u.strip() for u in parts if u.strip()], Ruby's map(&:strip).reject(&:empty?)).
   * No field of the result is empty or has whitespace at either end.
   */
  function Clean(cs: Charset, parts: seq<string>): (r: seq<string>)
    ensures |r| <= |parts|
    ensures forall i :: 0 <= i < |r| ==> r[i] != [] && IsStripped(cs, r[i])
  {
    var stripped := StripAll(cs, parts);
    var r := NonEmpty(stripped);
    assert forall i :: 0 <= i < |r| ==> IsStripped(cs, r[i]) by {
      forall i | 0 <= i < |r| ensures IsStripped(cs, r[i]) {
        var j :| 0 <= j < |stripped| && stripped[j] == r[i];
      }
    }
    r
  }

  lemma {:induction false} NonEmptyAppend(a: seq<string>, b: seq<string>)
    ensures NonEmpty(a + b) == NonEmpty(a) + NonEmpty(b)
  {
    if a == [] {
      assert a + b == b;
    } else {
      var hs: seq<string> := if a[0] == [] then [] else [a[0]];
      assert (a + b)[0] == a[0] && (a + b)[1..] == a[1..] + b;
      NonEmptyAppend(a[1..], b);
      assert (hs + NonEmpty(a[1..])) + NonEmpty(b) == hs + (NonEmpty(a[1..]) + NonEmpty(b));
    }
  }

  /** Cleaning a concatenation is concatenating the cleaned parts. */
  lemma CleanAppend(cs: Charset, a: seq<string>, b: seq<string>)
    ensures Clean(cs, a + b) == Clean(cs, a) + Clean(cs, b)
  {
    assert StripAll(cs, a + b) == StripAll(cs, a) + StripAll(cs, b);
    NonEmptyAppend(StripAll(cs, a), StripAll(cs, b));
  }

  /** One field cleans to its stripped form, or to nothing when it is all whitespace. */
  lemma CleanOne(cs: Charset, u: string)
    ensures Clean(cs, [u]) == if AllSpace(cs, u) then [] else [Strip(cs, u)]
  {
    assert StripAll(cs, [u]) == [Strip(cs, u)];
    assert [Strip(cs, u)][1..] == [];
  }

  /** A field that is all whitespace contributes nothing to the cleaned list. */
  lemma CleanSkipsBlank(cs: Charset, a: seq<string>, x: string, b: seq<string>)
    requires AllSpace(cs, x)
    ensures Clean(cs, a + [x] + b) == Clean(cs, a + b)
  {
    CleanAppend(cs, a + [x], b);
    CleanAppend(cs, a, [x]);
    CleanAppend(cs, a, b);
    CleanOne(cs, x);
    assert Clean(cs, a) + [] == Clean(cs, a);
  }

  lemma {:induction false} NonEmptyOfNonEmpty(parts: seq<string>)
    requires forall i :: 0 <= i < |parts| ==> parts[i] != []
    ensures NonEmpty(parts) == parts
  {
    if parts != [] {
      NonEmptyOfNonEmpty(parts[1..]);
    }
  }

  /** Clean keeps a list whose fields are already stripped and non-empty. */
  lemma CleanOfClean(cs: Charset, parts: seq<string>)
    requires forall i :: 0 <= i < |parts| ==> parts[i] != [] && IsStripped(cs, parts[i])
    ensures Clean(cs, parts) == parts
  {
    assert StripAll(cs, parts) == parts;
    NonEmptyOfNonEmpty(parts);
  }

  /** No field of the cleaned list holds a character that no input field holds. */
  lemma CleanKeepsOut(cs: Charset, parts: seq<string>, c: char)
    requires forall i :: 0 <= i < |parts| ==> c !in parts[i]
    ensures forall i :: 0 <= i < |Clean(cs, parts)| ==> c !in Clean(cs, parts)[i]
  {
    var stripped := StripAll(cs, parts);
    forall i | 0 <= i < |Clean(cs, parts)| ensures c !in Clean(cs, parts)[i] {
      var j :| 0 <= j < |stripped| && stripped[j] == Clean(cs, parts)[i];
      assert c !in parts[j];
    }
  }

  /** Empty fields are dropped by Clean, so dropping trailing ones first changes nothing. */
  lemma {:induction false} CleanDropTrailingEmpty(cs: Charset, parts: seq<string>)
    ensures Clean(cs, DropTrailingEmpty(parts)) == Clean(cs, parts)
  {
    if parts != [] && parts[|parts| - 1] == [] {
      var init := parts[..|parts| - 1];
      assert parts == init + [[]];
      CleanAppend(cs, init, [[]]);
      CleanOne(cs, []);
      CleanDropTrailingEmpty(cs, init);
    }
  }

  lemma {:induction false} NonEmptyOfEmpties(parts: seq<string>)
    requires forall i :: 0 <= i < |parts| ==> parts[i] == []
    ensures NonEmpty(parts) == []
  {
    if parts != [] {
      NonEmptyOfEmpties(parts[1..]);
    }
  }

  /** A list of empty fields cleans to nothing. */
  lemma CleanOfEmpties(cs: Charset, parts: seq<string>)
    requires forall i :: 0 <= i < |parts| ==> parts[i] == []
    ensures Clean(cs, parts) == []
  {
    forall i | 0 <= i < |parts| ensures StripAll(cs, parts)[i] == [] {
      assert AllSpace(cs, parts[i]);
    }
    NonEmptyOfEmpties(StripAll(cs, parts));
  }

  // ---------------------------------------------------------------------------
  // Numbers as text

  /** Ruby's Integer#to_s for a natural number. */
  function Decimal(n: nat): (r: string)
    ensures r != [] && forall k :: 0 <= k < |r| ==> '0' <= r[k] <= '9'
  {
    var d := ['0' + (n % 10) as char];
    if n < 10 then d else Decimal(n / 10) + d
  }

  /** The number a string of decimal digits denotes. */
  function DigitsValue(s: string): nat
    requires forall k :: 0 <= k < |s| ==> '0' <= s[k] <= '9'
  {
    if s == [] then 0 else DigitsValue(s[..|s| - 1]) * 10 + (s[|s| - 1] - '0') as nat
  }

  /** Decimal(n) denotes `n`, and has no leading zero unless it is "0". */
  lemma {:induction false} DecimalValue(n: nat)
    ensures DigitsValue(Decimal(n)) == n
    ensures |Decimal(n)| > 1 ==> Decimal(n)[0] != '0'
  {
    var d := ['0' + (n % 10) as char];
    if n >= 10 {
      DecimalValue(n / 10);
      var r := Decimal(n);
      assert r == Decimal(n / 10) + d;
      assert r[..|r| - 1] == Decimal(n / 10);
      assert r[0] == Decimal(n / 10)[0];
    }
  }
}

/** The whitespace post-pass of processHtml: three global regex replacements
    applied in order to the serialised document, each written as the
    left-to-right, non-overlapping, greedy scan that a global `replace` performs. */
module Whitespace {

  /** The ECMAScript `\s` class: WhiteSpace and LineTerminator code points. */
  predicate IsWs(c: char) {
    c == '\t' || c == '\n' || c == '\U{000B}' || c == '\U{000C}' || c == '\r' || c == ' '
    || c == '\U{00A0}' || c == '\U{1680}' || ('\U{2000}' <= c <= '\U{200A}')
    || c == '\U{2028}' || c == '\U{2029}' || c == '\U{202F}' || c == '\U{205F}'
    || c == '\U{3000}' || c == '\U{FEFF}'
  }

  /** The characters of `s` that are not whitespace, in order. */
  function NonWs(s: string): (r: string)
    ensures |r| <= |s|
    ensures forall i | 0 <= i < |r| :: !IsWs(r[i])
  {
    if s == [] then [] else (if IsWs(s[0]) then [] else [s[0]]) + NonWs(s[1..])
  }

  /** `s` without its longest whitespace prefix. */
  function SkipWs(s: string): (r: string)
    ensures |r| <= |s| && r == s[|s| - |r|..]
    ensures forall i | 0 <= i < |s| - |r| :: IsWs(s[i])
    ensures r == [] || !IsWs(r[0])
  {
    if s != [] && IsWs(s[0]) then SkipWs(s[1..]) else s
  }

  /** No two adjacent characters are both whitespace. */
  predicate NoAdjacentWs(s: string) {
    forall i | 0 <= i < |s| - 1 :: !(IsWs(s[i]) && IsWs(s[i + 1]))
  }

  /** `s` starts with `>`, then one or more whitespace characters, then `<`:
      exactly what the regex `>\s+<` matches at the start of `s`. */
  predicate GapAt(s: string) {
    |s| >= 3 && s[0] == '>' && IsWs(s[1]) && var u := SkipWs(s[1..]); |u| > 0 && u[0] == '<'
  }

  /** No `>` in `s` is followed by one or more whitespace characters and then `<`. */
  predicate NoTagGap(s: string) {
    forall i | 0 <= i < |s| :: !GapAt(s[i..])
  }

  /** `r` is `s` with some of its whitespace characters deleted and some
      replaced by a space; every other character is kept, in order. */
  predicate WsEdit(s: string, r: string)
    decreases |s|
  {
    if s == [] then r == []
    else if !IsWs(s[0]) then r != [] && r[0] == s[0] && WsEdit(s[1..], r[1..])
    else WsEdit(s[1..], r) || (r != [] && (r[0] == s[0] || r[0] == ' ') && WsEdit(s[1..], r[1..]))
  }

  /** `r` is `s` with some of its whitespace characters deleted; every
      character that is kept, whitespace or not, is kept as it is and in order. */
  predicate WsDelete(s: string, r: string)
    decreases |s|
  {
    if s == [] then r == []
    else if !IsWs(s[0]) then r != [] && r[0] == s[0] && WsDelete(s[1..], r[1..])
    else WsDelete(s[1..], r) || (r != [] && r[0] == s[0] && WsDelete(s[1..], r[1..]))
  }

  // ---------------------------------------------------------------------------
  // The three replacements

  /** `replace(/\s{2,}/g, ' ')`: every maximal run of two or more whitespace
      characters becomes a single space; a lone whitespace character is kept. */
  function CollapseRuns(s: string): (r: string)
    ensures |r| <= |s|
    ensures |r| == 0 <==> |s| == 0
    ensures |s| > 0 ==> IsWs(r[0]) == IsWs(s[0])
    decreases |s|
  {
    if |s| >= 2 && IsWs(s[0]) && IsWs(s[1]) then [' '] + CollapseRuns(SkipWs(s))
    else if s == [] then []
    else [s[0]] + CollapseRuns(s[1..])
  }

  /** `replace(/>\s+</g, '><')`: every `>`, whitespace run, `<` becomes `><`;
      the scan resumes after the matched `<`. */
  function StripTagGaps(s: string): (r: string)
    ensures |r| <= |s|
    ensures |r| == 0 <==> |s| == 0
    ensures |s| > 0 ==> r[0] == s[0]
    decreases |s|
  {
    if s == [] then []
    else if GapAt(s) then "><" + StripTagGaps(SkipWs(s[1..])[1..])
    else [s[0]] + StripTagGaps(s[1..])
  }

  /** `replace(/\n/g, '')`: every line feed is deleted. */
  function DropNewlines(s: string): (r: string)
    ensures |r| <= |s|
    ensures '\n' !in r
    ensures |s| > 0 && s[0] != '\n' ==> |r| > 0 && r[0] == s[0]
  {
    if s == [] then []
    else if s[0] == '\n' then DropNewlines(s[1..])
    else [s[0]] + DropNewlines(s[1..])
  }

  /** The post-pass of processHtml: the identity when whitespace is kept,
      otherwise the three replacements in source order. */
  function Normalize(html: string, keepWhitespace: bool): (r: string)
    ensures keepWhitespace ==> r == html
    ensures !keepWhitespace ==> '\n' !in r && NoAdjacentWs(r) && NoTagGap(r)
    ensures !keepWhitespace ==> (r == html <==> '\n' !in html && NoAdjacentWs(html) && NoTagGap(html))
    ensures WsEdit(html, r)
    ensures NonWs(r) == NonWs(html) && |r| <= |html|
  {
    WsEditRefl(html);
    if keepWhitespace then html
    else
      var collapsed := CollapseRuns(html);
      var joined := StripTagGaps(collapsed);
      CollapseRunsWsEdit(html);
      StripTagGapsWsEdit(collapsed);
      DropNewlinesWsEdit(joined);
      WsEditTrans(html, collapsed, joined);
      WsEditTrans(html, joined, DropNewlines(joined));
      ReplacementsFixedPoints(html);
      CollapseRunsNoAdjacentWs(html);
      StripTagGapsNoTagGap(collapsed);
      StripTagGapsKeepsNoAdjacentWs(collapsed);
      DropNewlinesKeepsNoAdjacentWs(joined);
      DropNewlinesKeepsNoTagGap(joined);
      CollapseRunsKeepsText(html);
      StripTagGapsKeepsText(collapsed);
      DropNewlinesKeepsText(joined);
      DropNewlines(joined)
  }

  /** The three replacements leave a string unchanged exactly when it already
      has no line feed, no adjacent whitespace and no tag gap. */
  lemma ReplacementsFixedPoints(html: string)
    ensures DropNewlines(StripTagGaps(CollapseRuns(html))) == html
            <==> '\n' !in html && NoAdjacentWs(html) && NoTagGap(html)
  {
    var collapsed := CollapseRuns(html);
    var joined := StripTagGaps(collapsed);
    if '\n' !in html && NoAdjacentWs(html) && NoTagGap(html) {
      CollapseRunsFixed(html);
      StripTagGapsFixed(html);
      DropNewlinesFixed(html);
    } else {
      CollapseRunsNoAdjacentWs(html);
      StripTagGapsNoTagGap(collapsed);
      StripTagGapsKeepsNoAdjacentWs(collapsed);
      DropNewlinesKeepsNoAdjacentWs(joined);
      DropNewlinesKeepsNoTagGap(joined);
    }
  }

  // ---------------------------------------------------------------------------
  // Small facts about the predicates

  lemma NoAdjacentWsCons(c: char, t: string)
    ensures NoAdjacentWs([c] + t) <==> NoAdjacentWs(t) && !(IsWs(c) && |t| > 0 && IsWs(t[0]))
  {
    var s := [c] + t;
    assert forall i | 1 <= i < |s| :: s[i] == t[i - 1];
    if NoAdjacentWs(s) {
      forall i | 0 <= i < |t| - 1 ensures !(IsWs(t[i]) && IsWs(t[i + 1])) {
        assert s[i + 1] == t[i] && s[i + 2] == t[i + 1];
      }
      if |t| > 0 {
        assert s[0] == c && s[1] == t[0];
      }
    }
    if NoAdjacentWs(t) && !(IsWs(c) && |t| > 0 && IsWs(t[0])) {
      forall i | 0 <= i < |s| - 1 ensures !(IsWs(s[i]) && IsWs(s[i + 1])) {
        if i > 0 {
          assert s[i] == t[i - 1] && s[i + 1] == t[i];
        }
      }
    }
  }

  lemma NoTagGapCons(c: char, t: string)
    ensures NoTagGap([c] + t) <==> NoTagGap(t) && !GapAt([c] + t)
  {
    var s := [c] + t;
    assert s[0..] == s;
    assert forall i | 1 <= i <= |t| :: s[i..] == t[i - 1..];
    if NoTagGap(t) && !GapAt(s) {
      forall i | 0 <= i < |s| ensures !GapAt(s[i..]) {
        if i > 0 {
          assert s[i..] == t[i - 1..];
          assert !GapAt(t[i - 1..]);
        }
      }
    }
    if NoTagGap(s) {
      forall i | 0 <= i < |t| ensures !GapAt(t[i..]) {
        assert t[i..] == s[i + 1..];
      }
    }
  }

  lemma NoAdjacentWsSuffix(s: string, k: nat)
    requires NoAdjacentWs(s) && k <= |s|
    ensures NoAdjacentWs(s[k..])
  {
    var t := s[k..];
    assert forall i | 0 <= i < |t| :: t[i] == s[k + i];
  }

  lemma NonWsCons(c: char, t: string)
    ensures NonWs([c] + t) == (if IsWs(c) then [] else [c]) + NonWs(t)
  {
    assert ([c] + t)[1..] == t;
  }

  lemma {:induction false} SkipWsKeepsText(s: string)
    ensures NonWs(SkipWs(s)) == NonWs(s)
    decreases |s|
  {
    if s != [] && IsWs(s[0]) {
      SkipWsKeepsText(s[1..]);
    }
  }

  /** A non-empty sequence is its head followed by its tail. */
  lemma ConsAppend<T>(a: seq<T>, b: seq<T>)
    requires a != []
    ensures [a[0]] + (a[1..] + b) == a + b
  {
    assert a == [a[0]] + a[1..];
  }

  /** Skipping an all-whitespace prefix `w` stops where a non-whitespace
      character (or the end) begins. */
  lemma {:induction false} SkipWsPrefix(w: string, t: string)
    requires forall i | 0 <= i < |w| :: IsWs(w[i])
    requires t == [] || !IsWs(t[0])
    ensures SkipWs(w + t) == t
    decreases |w|
  {
    if w == [] {
      assert w + t == t;
    } else {
      assert (w + t)[0] == w[0] && (w + t)[1..] == w[1..] + t;
      SkipWsPrefix(w[1..], t);
    }
  }

  // ---------------------------------------------------------------------------
  // Whitespace edits

  /** Keeping every character is an edit. */
  lemma {:induction false} WsEditRefl(s: string)
    ensures WsEdit(s, s)
    decreases |s|
  {
    if s != [] {
      WsEditRefl(s[1..]);
    }
  }

  /** Two edits in a row are one edit. */
  lemma {:induction false} WsEditTrans(a: string, b: string, c: string)
    requires WsEdit(a, b) && WsEdit(b, c)
    ensures WsEdit(a, c)
    decreases |a| + |b|
  {
    if a == [] {
    } else if !IsWs(a[0]) {
      WsEditTrans(a[1..], b[1..], c[1..]);
    } else if WsEdit(a[1..], b) {
      WsEditTrans(a[1..], b, c);
    } else {
      assert IsWs(b[0]);
      if WsEdit(b[1..], c) {
        WsEditTrans(a[1..], b[1..], c);
      } else {
        WsEditTrans(a[1..], b[1..], c[1..]);
      }
    }
  }

  /** Deleting a leading whitespace run is an edit. */
  lemma {:induction false} WsEditSkip(t: string, r: string)
    requires WsEdit(SkipWs(t), r)
    ensures WsEdit(t, r)
    decreases |t|
  {
    if t != [] && IsWs(t[0]) {
      WsEditSkip(t[1..], r);
    }
  }

  /** Deleting whitespace is a whitespace edit. */
  lemma {:induction false} WsDeleteIsWsEdit(s: string, r: string)
    requires WsDelete(s, r)
    ensures WsEdit(s, r)
    decreases |s|
  {
    if s == [] {
    } else if !IsWs(s[0]) || !WsDelete(s[1..], r) {
      WsDeleteIsWsEdit(s[1..], r[1..]);
    } else {
      WsDeleteIsWsEdit(s[1..], r);
    }
  }

  /** Deleting a leading whitespace run is a deletion. */
  lemma {:induction false} WsDeleteSkip(t: string, r: string)
    requires WsDelete(SkipWs(t), r)
    ensures WsDelete(t, r)
    decreases |t|
  {
    if t != [] && IsWs(t[0]) {
      WsDeleteSkip(t[1..], r);
    }
  }

  // ---------------------------------------------------------------------------
  // Replacement 1

  /** After collapsing, no two whitespace characters are adjacent. */
  lemma {:induction false} CollapseRunsNoAdjacentWs(s: string)
    ensures NoAdjacentWs(CollapseRuns(s))
    decreases |s|
  {
    if |s| >= 2 && IsWs(s[0]) && IsWs(s[1]) {
      var u := SkipWs(s);
      CollapseRunsNoAdjacentWs(u);
      NoAdjacentWsCons(' ', CollapseRuns(u));
    } else if s != [] {
      CollapseRunsNoAdjacentWs(s[1..]);
      NoAdjacentWsCons(s[0], CollapseRuns(s[1..]));
    }
  }

  /** Collapsing only rewrites whitespace: the other characters survive in order. */
  lemma {:induction false} CollapseRunsKeepsText(s: string)
    ensures NonWs(CollapseRuns(s)) == NonWs(s)
    decreases |s|
  {
    if |s| >= 2 && IsWs(s[0]) && IsWs(s[1]) {
      var u := SkipWs(s);
      CollapseRunsKeepsText(u);
      SkipWsKeepsText(s);
      var r := [' '] + CollapseRuns(u);
      assert r[1..] == CollapseRuns(u);
    } else if s != [] {
      CollapseRunsKeepsText(s[1..]);
      var r := [s[0]] + CollapseRuns(s[1..]);
      assert r[1..] == CollapseRuns(s[1..]);
    }
  }

  /** Collapsing only deletes whitespace or turns it into a space. */
  lemma {:induction false} CollapseRunsWsEdit(s: string)
    ensures WsEdit(s, CollapseRuns(s))
    decreases |s|
  {
    if |s| >= 2 && IsWs(s[0]) && IsWs(s[1]) {
      var x := CollapseRuns(SkipWs(s));
      CollapseRunsWsEdit(SkipWs(s));
      WsEditSkip(s[1..], x);
      assert ([' '] + x)[1..] == x;
    } else if s != [] {
      CollapseRunsWsEdit(s[1..]);
      assert ([s[0]] + CollapseRuns(s[1..]))[1..] == CollapseRuns(s[1..]);
    }
  }

  /** A maximal whitespace run `w` becomes one space when it has two or more
      characters and is kept when it has one; the scan then carries on with
      what follows. */
  lemma CollapseRunsRun(w: string, t: string)
    requires |w| >= 1 && forall i | 0 <= i < |w| :: IsWs(w[i])
    requires t == [] || !IsWs(t[0])
    ensures CollapseRuns(w + t) == (if |w| >= 2 then " " else w) + CollapseRuns(t)
  {
    if |w| >= 2 {
      CollapseRunsLongRun(w, t);
    } else {
      CollapseRunsSingle(w, t);
    }
  }

  /** A non-whitespace character is copied, and the scan carries on after it. */
  lemma CollapseRunsText(c: char, t: string)
    requires !IsWs(c)
    ensures CollapseRuns([c] + t) == [c] + CollapseRuns(t)
  {
    assert ([c] + t)[0] == c && ([c] + t)[1..] == t;
  }

  /** A prefix without whitespace is copied, and the scan carries on after it. */
  lemma {:induction false} CollapseRunsNoWsPrefix(o: string, t: string)
    requires forall i | 0 <= i < |o| :: !IsWs(o[i])
    ensures CollapseRuns(o + t) == o + CollapseRuns(t)
    decreases |o|
  {
    if o == [] {
      assert o + t == t;
    } else {
      assert o + t == [o[0]] + (o[1..] + t);
      CollapseRunsText(o[0], o[1..] + t);
      CollapseRunsNoWsPrefix(o[1..], t);
      ConsAppend(o, CollapseRuns(t));
    }
  }

  /** Two or more whitespace characters followed by a non-whitespace one become one space. */
  lemma CollapseRunsLongRun(w: string, t: string)
    requires |w| >= 2 && forall i | 0 <= i < |w| :: IsWs(w[i])
    requires t == [] || !IsWs(t[0])
    ensures CollapseRuns(w + t) == " " + CollapseRuns(t)
  {
    var s := w + t;
    SkipWsPrefix(w, t);
    assert s[0] == w[0] && s[1] == w[1];
  }

  /** A single character followed by a non-whitespace one is copied. */
  lemma CollapseRunsSingle(w: string, t: string)
    requires |w| == 1
    requires t == [] || !IsWs(t[0])
    ensures CollapseRuns(w + t) == w + CollapseRuns(t)
  {
    var s := w + t;
    assert s[0] == w[0] && s[1..] == t && w == [w[0]];
  }

  /** A string with no two adjacent whitespace characters is left as it is. */
  lemma {:induction false} CollapseRunsFixed(s: string)
    requires NoAdjacentWs(s)
    ensures CollapseRuns(s) == s
    decreases |s|
  {
    if s != [] {
      NoAdjacentWsSuffix(s, 1);
      CollapseRunsFixed(s[1..]);
      assert [s[0]] + s[1..] == s;
    }
  }

  // ---------------------------------------------------------------------------
  // Replacement 2

  /** Where no gap starts, the first character is copied. */
  lemma StripTagGapsNoGap(s: string)
    requires s != [] && !GapAt(s)
    ensures StripTagGaps(s) == [s[0]] + StripTagGaps(s[1..])
  {
  }

  /** A gap starts with `>`, so whitespace in front of the rest is copied. */
  lemma {:induction false} StripTagGapsWsPrefix(w: string, x: string)
    requires forall i | 0 <= i < |w| :: IsWs(w[i])
    ensures StripTagGaps(w + x) == w + StripTagGaps(x)
    decreases |w|
  {
    if w == [] {
      assert w + x == x;
    } else {
      var s := w + x;
      assert s[1..] == w[1..] + x;
      assert StripTagGaps(s) == [w[0]] + StripTagGaps(w[1..] + x) by {
        assert s[0] == w[0] && w[0] != '>';
      }
      StripTagGapsWsPrefix(w[1..], x);
      ConsAppend(w, StripTagGaps(x));
    }
  }

  /** The leading whitespace run passes through the gap stripper untouched. */
  lemma StripTagGapsLeadingRun(t: string)
    ensures StripTagGaps(t) == t[..|t| - |SkipWs(t)|] + StripTagGaps(SkipWs(t))
  {
    var u := SkipWs(t);
    var w := t[..|t| - |u|];
    SplitAtSuffix(t, u);
    StripTagGapsWsPrefix(w, u);
  }

  /** A string is its prefix followed by a suffix it ends with. */
  lemma SplitAtSuffix<T>(t: seq<T>, u: seq<T>)
    requires |u| <= |t| && u == t[|t| - |u|..]
    ensures t == t[..|t| - |u|] + u
  {
  }

  /** Stripping commutes with skipping the leading whitespace. */
  lemma {:induction false} SkipWsStripTagGaps(t: string)
    ensures SkipWs(StripTagGaps(t)) == StripTagGaps(SkipWs(t))
    decreases |t|
  {
    if t != [] && IsWs(t[0]) {
      SkipWsStripTagGaps(t[1..]);
      var r := [t[0]] + StripTagGaps(t[1..]);
      assert r[1..] == StripTagGaps(t[1..]);
    }
  }

  /** After stripping, no `>` is followed by whitespace and then `<`. */
  lemma {:induction false} StripTagGapsNoTagGap(s: string)
    ensures NoTagGap(StripTagGaps(s))
    decreases |s|
  {
    if s == [] {
    } else if GapAt(s) {
      var rest := SkipWs(s[1..])[1..];
      var x := StripTagGaps(rest);
      StripTagGapsNoTagGap(rest);
      NoTagGapCons('<', x);
      NoTagGapCons('>', ['<'] + x);
      assert "><" + x == ['>'] + (['<'] + x);
    } else {
      var t := StripTagGaps(s[1..]);
      StripTagGapsNoTagGap(s[1..]);
      NoTagGapCons(s[0], t);
      SkipWsStripTagGaps(s[1..]);
    }
  }

  /** Stripping cannot make two whitespace characters adjacent. */
  lemma {:induction false} StripTagGapsKeepsNoAdjacentWs(s: string)
    requires NoAdjacentWs(s)
    ensures NoAdjacentWs(StripTagGaps(s))
    decreases |s|
  {
    if s == [] {
    } else if GapAt(s) {
      var t := s[1..];
      var u := SkipWs(t);
      NoAdjacentWsSuffix(s, 1);
      NoAdjacentWsSuffix(t, |t| - |u|);
      NoAdjacentWsSuffix(u, 1);
      StripTagGapsKeepsNoAdjacentWs(u[1..]);
      GapStepNoAdjacentWs(s);
    } else {
      NoAdjacentWsSuffix(s, 1);
      StripTagGapsKeepsNoAdjacentWs(s[1..]);
      CopyStepNoAdjacentWs(s);
    }
  }

  /** One gap step of the scan keeps whitespace apart. */
  lemma GapStepNoAdjacentWs(s: string)
    requires GapAt(s) && NoAdjacentWs(StripTagGaps(SkipWs(s[1..])[1..]))
    ensures NoAdjacentWs(StripTagGaps(s))
  {
    var x := StripTagGaps(SkipWs(s[1..])[1..]);
    NoAdjacentWsCons('<', x);
    NoAdjacentWsCons('>', ['<'] + x);
    assert "><" + x == ['>'] + (['<'] + x);
  }

  /** One copying step of the scan keeps whitespace apart. */
  lemma CopyStepNoAdjacentWs(s: string)
    requires s != [] && !GapAt(s) && NoAdjacentWs(s) && NoAdjacentWs(StripTagGaps(s[1..]))
    ensures NoAdjacentWs(StripTagGaps(s))
  {
    var t := StripTagGaps(s[1..]);
    StripTagGapsNoGap(s);
    assert |s| >= 2 ==> t[0] == s[1];
    NoAdjacentWsCons(s[0], t);
  }

  /** Stripping deletes whitespace only: the other characters survive in order. */
  lemma {:induction false} StripTagGapsKeepsText(s: string)
    ensures NonWs(StripTagGaps(s)) == NonWs(s)
    decreases |s|
  {
    if s == [] {
    } else if GapAt(s) {
      var u := SkipWs(s[1..]);
      var rest := u[1..];
      var x := StripTagGaps(rest);
      StripTagGapsKeepsText(rest);
      SkipWsKeepsText(s[1..]);
      NonWsCons(u[0], rest);
      assert [u[0]] + rest == u;
      NonWsCons('>', s[1..]);
      assert [s[0]] + s[1..] == s;
      NonWsCons('<', x);
      NonWsCons('>', ['<'] + x);
      assert "><" + x == ['>'] + (['<'] + x);
    } else {
      StripTagGapsKeepsText(s[1..]);
      NonWsCons(s[0], StripTagGaps(s[1..]));
    }
  }

  /** Stripping only deletes whitespace. */
  lemma {:induction false} StripTagGapsWsDelete(s: string)
    ensures WsDelete(s, StripTagGaps(s))
    decreases |s|
  {
    if s == [] {
    } else if GapAt(s) {
      var u := SkipWs(s[1..]);
      var x := StripTagGaps(u[1..]);
      StripTagGapsWsDelete(u[1..]);
      assert (['<'] + x)[1..] == x;
      assert WsDelete(u, ['<'] + x);
      WsDeleteSkip(s[1..], ['<'] + x);
      assert "><" + x == ['>'] + (['<'] + x);
    } else {
      StripTagGapsWsDelete(s[1..]);
      assert ([s[0]] + StripTagGaps(s[1..]))[1..] == StripTagGaps(s[1..]);
    }
  }

  /** Stripping is a whitespace edit. */
  lemma StripTagGapsWsEdit(s: string)
    ensures WsEdit(s, StripTagGaps(s))
  {
    StripTagGapsWsDelete(s);
    WsDeleteIsWsEdit(s, StripTagGaps(s));
  }

  /** A prefix without `>` starts no gap, so it is copied unchanged. */
  lemma {:induction false} StripTagGapsPlainPrefix(o: string, t: string)
    requires '>' !in o
    ensures StripTagGaps(o + t) == o + StripTagGaps(t)
    decreases |o|
  {
    if o == [] {
      assert o + t == t;
    } else {
      var s := o + t;
      assert s[0] == o[0] && s[1..] == o[1..] + t;
      assert '>' !in o[1..];
      StripTagGapsNoGap(s);
      StripTagGapsPlainPrefix(o[1..], t);
      ConsAppend(o, StripTagGaps(t));
    }
  }

  /** A `>`, a whitespace run `w` and a `<` become `><`, and the scan carries
      on after the `<`. */
  lemma StripTagGapsGap(w: string, t: string)
    requires |w| >= 1 && forall i | 0 <= i < |w| :: IsWs(w[i])
    ensures StripTagGaps(">" + w + "<" + t) == "><" + StripTagGaps(t)
  {
    var s := ">" + w + "<" + t;
    assert s[1..] == w + ("<" + t);
    SkipWsPrefix(w, "<" + t);
    assert s[1] == w[0];
    assert GapAt(s);
    assert ("<" + t)[1..] == t;
  }

  /** A string without a `>`, whitespace, `<` gap is left as it is. */
  lemma {:induction false} StripTagGapsFixed(s: string)
    requires NoTagGap(s)
    ensures StripTagGaps(s) == s
    decreases |s|
  {
    if s != [] {
      NoTagGapTail(s);
      StripTagGapsFixed(s[1..]);
      StripTagGapsNoGap(s);
      assert [s[0]] + s[1..] == s;
    }
  }

  /** A gap-free string does not start a gap, and its tail is gap-free. */
  lemma NoTagGapTail(s: string)
    requires s != [] && NoTagGap(s)
    ensures !GapAt(s) && NoTagGap(s[1..])
  {
    assert s[0..] == s;
    forall i | 0 <= i < |s| - 1 ensures !GapAt(s[1..][i..]) {
      assert s[1..][i..] == s[i + 1..];
    }
  }

  // ---------------------------------------------------------------------------
  // Replacement 3

  /** Deleting line feeds works piece by piece: it distributes over concatenation. */
  lemma {:induction false} DropNewlinesAppend(a: string, b: string)
    ensures DropNewlines(a + b) == DropNewlines(a) + DropNewlines(b)
    decreases |a|
  {
    if a == [] {
      assert a + b == b;
    } else {
      assert (a + b)[0] == a[0] && (a + b)[1..] == a[1..] + b;
      DropNewlinesAppend(a[1..], b);
    }
  }

  /** The leading whitespace run loses its line feeds and nothing else. */
  lemma DropNewlinesLeadingRun(t: string)
    ensures DropNewlines(t) == DropNewlines(t[..|t| - |SkipWs(t)|]) + DropNewlines(SkipWs(t))
  {
    var u := SkipWs(t);
    SplitAtSuffix(t, u);
    DropNewlinesAppend(t[..|t| - |u|], u);
  }

  /** The line-feed filter commutes with skipping the leading whitespace. */
  lemma {:induction false} SkipWsDropNewlines(t: string)
    ensures SkipWs(DropNewlines(t)) == DropNewlines(SkipWs(t))
    decreases |t|
  {
    if t != [] && IsWs(t[0]) {
      SkipWsDropNewlines(t[1..]);
      if t[0] != '\n' {
        var r := [t[0]] + DropNewlines(t[1..]);
        assert r[1..] == DropNewlines(t[1..]);
      }
    }
  }

  /** Deleting line feeds cannot make two whitespace characters adjacent. */
  lemma {:induction false} DropNewlinesKeepsNoAdjacentWs(s: string)
    requires NoAdjacentWs(s)
    ensures NoAdjacentWs(DropNewlines(s))
    decreases |s|
  {
    if s != [] {
      NoAdjacentWsSuffix(s, 1);
      DropNewlinesKeepsNoAdjacentWs(s[1..]);
      if s[0] != '\n' {
        NoAdjacentWsCons(s[0], DropNewlines(s[1..]));
      }
    }
  }

  /** Deleting line feeds cannot create a `>`, whitespace, `<` gap. */
  lemma {:induction false} DropNewlinesKeepsNoTagGap(s: string)
    requires NoTagGap(s)
    ensures NoTagGap(DropNewlines(s))
    decreases |s|
  {
    if s != [] {
      NoTagGapCons(s[0], s[1..]);
      assert [s[0]] + s[1..] == s;
      DropNewlinesKeepsNoTagGap(s[1..]);
      if s[0] != '\n' {
        DropStepNoGap(s);
        NoTagGapCons(s[0], DropNewlines(s[1..]));
      }
    }
  }

  /** A character that does not start a gap still does not once the line
      feeds after it are deleted. */
  lemma DropStepNoGap(s: string)
    requires s != [] && s[0] != '\n' && !GapAt(s)
    ensures !GapAt([s[0]] + DropNewlines(s[1..]))
  {
    var t := DropNewlines(s[1..]);
    SkipWsDropNewlines(s[1..]);
    assert ([s[0]] + t)[1..] == t;
  }

  /** Deleting line feeds only deletes whitespace. */
  lemma {:induction false} DropNewlinesWsDelete(s: string)
    ensures WsDelete(s, DropNewlines(s))
    decreases |s|
  {
    if s != [] {
      DropNewlinesWsDelete(s[1..]);
      if s[0] != '\n' {
        assert ([s[0]] + DropNewlines(s[1..]))[1..] == DropNewlines(s[1..]);
      }
    }
  }

  /** Deleting line feeds is a whitespace edit. */
  lemma DropNewlinesWsEdit(s: string)
    ensures WsEdit(s, DropNewlines(s))
  {
    DropNewlinesWsDelete(s);
    WsDeleteIsWsEdit(s, DropNewlines(s));
  }

  /** Exactly the line feeds are deleted: every other character keeps its count. */
  lemma {:induction false} DropNewlinesOnlyLineFeeds(s: string)
    ensures multiset(DropNewlines(s)) == multiset(s)['\n' := 0]
    decreases |s|
  {
    if s != [] {
      DropNewlinesOnlyLineFeeds(s[1..]);
      assert s == [s[0]] + s[1..];
      assert multiset(s) == multiset([s[0]]) + multiset(s[1..]);
    }
  }

  /** A string without line feeds is left as it is. */
  lemma {:induction false} DropNewlinesFixed(s: string)
    requires '\n' !in s
    ensures DropNewlines(s) == s
    decreases |s|
  {
    if s != [] {
      assert s[0] != '\n' && '\n' !in s[1..];
      DropNewlinesFixed(s[1..]);
      assert [s[0]] + s[1..] == s;
    }
  }

  /** Deleting line feeds keeps every non-whitespace character in order. */
  lemma {:induction false} DropNewlinesKeepsText(s: string)
    ensures NonWs(DropNewlines(s)) == NonWs(s)
    decreases |s|
  {
    if s != [] {
      DropNewlinesKeepsText(s[1..]);
      if s[0] != '\n' {
        var r := [s[0]] + DropNewlines(s[1..]);
        assert r[1..] == DropNewlines(s[1..]);
      }
    }
  }
}

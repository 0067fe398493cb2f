/** Worked instances of the cleaner and of the whitespace replacements. */
module Scenarios {
  import opened Dom
  import opened TreeCleaner
  import opened Whitespace

  /** `<div class="a"><script>alert(1)</script><p id="x">Hi</p></div>`
      cleans to `<div><p>Hi</p></div>`. */
  lemma ScriptInsideDiv()
    ensures Clean([Tag("div", map["class" := "a"],
                       [Script("script", map[], [Text("alert(1)")]),
                        Tag("p", map["id" := "x"], [Text("Hi")])])])
         == [Tag("div", map[], [Tag("p", map[], [Text("Hi")])])]
  {
    var hi := [Text("Hi")];
    assert Clean(hi) == hi by {
      assert hi[1..] == [];
    }
    var p := Tag("p", map["id" := "x"], hi);
    var kids := [Script("script", map[], [Text("alert(1)")]), p];
    assert kids[1..] == [p] && [p][1..] == [];
    assert Clean([p]) == [Tag("p", map[], hi)];
    assert Clean(kids) == [Tag("p", map[], hi)];
    var ns := [Tag("div", map["class" := "a"], kids)];
    assert ns[1..] == [];
  }

  /** `<style>body{color:red}</style><span>text</span>` cleans to `<span>text</span>`. */
  lemma LeadingStyle()
    ensures Clean([Style("style", map[], [Text("body{color:red}")]),
                   Tag("span", map[], [Text("text")])])
         == [Tag("span", map[], [Text("text")])]
  {
    var text := [Text("text")];
    assert Clean(text) == text by {
      assert text[1..] == [];
    }
    var span := Tag("span", map[], text);
    var ns := [Style("style", map[], [Text("body{color:red}")]), span];
    assert ns[1..] == [span] && [span][1..] == [];
  }

  /** The shape of `<p>  Hi  </p>` collapsing to `<p> Hi </p>`: an opening
      tag `o`, two spaces, a word `w`, two spaces and a closing tag `c`, none of
      them holding whitespace; each two-space run becomes one space. */
  lemma CollapsePaddedWord(o: string, w: string, c: string)
    requires forall i | 0 <= i < |o| :: !IsWs(o[i])
    requires |w| > 0 && forall i | 0 <= i < |w| :: !IsWs(w[i])
    requires |c| > 0 && forall i | 0 <= i < |c| :: !IsWs(c[i])
    ensures CollapseRuns(o + "  " + w + "  " + c) == o + " " + w + " " + c
  {
    CollapseRunsFixed(c);
    CollapseRunsRun("  ", c);
    var t1 := "  " + c;
    CollapseRunsNoWsPrefix(w, t1);
    var t2 := w + t1;
    assert t2[0] == w[0];
    CollapseRunsRun("  ", t2);
    var t3 := "  " + t2;
    CollapseRunsNoWsPrefix(o, t3);
    Regroup(o, "  ", w, "  ", c);
    Regroup(o, " ", w, " ", c);
  }

  /** The shape of `</p>\n</div>` becoming `</p></div>`: text `o` without `>`
      or line feed, a `>`, a whitespace run `w`, a `<` and a gap-free rest `c`
      without line feeds; the gap is stripped and no line feed is left to drop. */
  lemma JoinedTags(o: string, w: string, c: string)
    requires '>' !in o && '\n' !in o
    requires |w| >= 1 && forall i | 0 <= i < |w| :: IsWs(w[i])
    requires NoTagGap(c) && '\n' !in c
    ensures DropNewlines(StripTagGaps(o + ">" + w + "<" + c)) == o + "><" + c
  {
    StripJoined(o, w, c);
    var r := o + "><" + c;
    assert '\n' !in "><";
    NotInAppend('\n', o, "><");
    NotInAppend('\n', o + "><", c);
    DropNewlinesFixed(r);
  }

  /** The gap after the `>` is stripped and the rest is already gap-free. */
  lemma StripJoined(o: string, w: string, c: string)
    requires '>' !in o
    requires |w| >= 1 && forall i | 0 <= i < |w| :: IsWs(w[i])
    requires NoTagGap(c)
    ensures StripTagGaps(o + ">" + w + "<" + c) == o + "><" + c
  {
    var g := ">" + w + "<" + c;
    StripTagGapsGap(w, c);
    StripTagGapsFixed(c);
    StripTagGapsPlainPrefix(o, g);
    RegroupHead(o, ">", w, "<", c);
    Regroup3(o, "><", c);
  }

  lemma NotInAppend<T>(x: T, a: seq<T>, b: seq<T>)
    requires x !in a && x !in b
    ensures x !in a + b
  {
    assert forall i | 0 <= i < |a + b| :: (a + b)[i] == if i < |a| then a[i] else b[i - |a|];
  }

  lemma RegroupHead<T>(a: seq<T>, b: seq<T>, c: seq<T>, d: seq<T>, e: seq<T>)
    ensures a + b + c + d + e == a + (b + c + d + e)
  {
  }

  lemma Regroup3<T>(a: seq<T>, b: seq<T>, c: seq<T>)
    ensures a + b + c == a + (b + c)
  {
  }

  lemma Regroup<T>(a: seq<T>, b: seq<T>, c: seq<T>, d: seq<T>, e: seq<T>)
    ensures a + b + c + d + e == a + (b + (c + (d + e)))
  {
  }
}

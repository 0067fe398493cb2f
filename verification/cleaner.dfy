/** stripAndClean: the tree-cleaning pass over a list of sibling nodes. */
module TreeCleaner {
  import opened Dom

  /** The siblings `ns` with every script and style node dropped (subtree and
      all), in their input order, each survivor cleaned by CleanNode. */
  function Clean(ns: seq<Node>): (r: seq<Node>)
    ensures |r| <= |ns|
  {
    if ns == [] then []
    else if IsScriptOrStyle(ns[0]) then Clean(ns[1..])
    else [CleanNode(ns[0])] + Clean(ns[1..])
  }

  /** One surviving node: a tag loses its attributes, a node with children
      has them cleaned, anything else is returned as it is. */
  function CleanNode(n: Node): (r: Node)
    requires !IsScriptOrStyle(n)
    ensures LabelOf(r) == LabelOf(n)
    ensures HasChildren(r) == HasChildren(n)
    ensures r.Tag? ==> r.attribs == map[]
    ensures !HasChildren(n) ==> r == n
    ensures HasChildren(n) ==> r.children == Clean(n.children)
  {
    match n
    case Tag(name, _, cs) => Tag(name, map[], Clean(cs))
    case Document(cs) => Document(Clean(cs))
    case CData(cs) => CData(Clean(cs))
    case _ => n
  }

  /** No script or style node and no tag with attributes, at any depth. */
  predicate IsStripped(ns: seq<Node>) {
    forall i | 0 <= i < |ns| :: IsStrippedNode(ns[i])
  }

  predicate IsStrippedNode(n: Node) {
    && !IsScriptOrStyle(n)
    && (n.Tag? ==> n.attribs == map[])
    && (HasChildren(n) ==> IsStripped(n.children))
  }

  // ---------------------------------------------------------------------------
  // What survives

  /** Cleaning leaves no script, no style and no attribute anywhere. */
  lemma {:induction false} CleanIsStripped(ns: seq<Node>)
    ensures IsStripped(Clean(ns))
  {
    if ns != [] {
      CleanIsStripped(ns[1..]);
      if !IsScriptOrStyle(ns[0]) {
        CleanNodeIsStripped(ns[0]);
        var r := [CleanNode(ns[0])] + Clean(ns[1..]);
        assert forall i | 1 <= i < |r| :: r[i] == Clean(ns[1..])[i - 1];
      }
    }
  }

  lemma {:induction false} CleanNodeIsStripped(n: Node)
    requires !IsScriptOrStyle(n)
    ensures IsStrippedNode(CleanNode(n))
  {
    if HasChildren(n) {
      CleanIsStripped(n.children);
    }
  }

  /** A stripped forest is exactly a fixed point of the cleaner. */
  lemma {:induction false} CleanFixedPoints(ns: seq<Node>)
    ensures Clean(ns) == ns <==> IsStripped(ns)
  {
    CleanIsStripped(ns);
    if IsStripped(ns) {
      StrippedIsUnchanged(ns);
    }
  }

  lemma {:induction false} StrippedIsUnchanged(ns: seq<Node>)
    requires IsStripped(ns)
    ensures Clean(ns) == ns
  {
    if ns != [] {
      assert IsStrippedNode(ns[0]);
      assert IsStripped(ns[1..]) by {
        assert forall i | 0 <= i < |ns| - 1 :: ns[1..][i] == ns[i + 1];
      }
      StrippedIsUnchanged(ns[1..]);
      StrippedNodeIsUnchanged(ns[0]);
      assert [ns[0]] + ns[1..] == ns;
    }
  }

  lemma {:induction false} StrippedNodeIsUnchanged(n: Node)
    requires IsStrippedNode(n)
    ensures CleanNode(n) == n
  {
    if HasChildren(n) {
      StrippedIsUnchanged(n.children);
    }
  }

  /** Cleaning twice is cleaning once. */
  lemma CleanIdempotent(ns: seq<Node>)
    ensures Clean(Clean(ns)) == Clean(ns)
  {
    CleanIsStripped(ns);
    CleanFixedPoints(Clean(ns));
  }

  // ---------------------------------------------------------------------------
  // Sibling order

  /** Cleaning a concatenation cleans each part (the pass is a filter). */
  lemma {:induction false} CleanAppend(a: seq<Node>, b: seq<Node>)
    ensures Clean(a + b) == Clean(a) + Clean(b)
  {
    if a == [] {
      assert a + b == b;
    } else {
      assert (a + b)[0] == a[0];
      assert (a + b)[1..] == a[1..] + b;
      CleanAppend(a[1..], b);
    }
  }

  /** The positions of the siblings that are neither script nor style, in
      increasing order. */
  function Survivors(ns: seq<Node>): (idx: seq<nat>)
    ensures forall j | 0 <= j < |idx| :: idx[j] < |ns| && !IsScriptOrStyle(ns[idx[j]])
    ensures forall j, k | 0 <= j < k < |idx| :: idx[j] < idx[k]
    ensures forall i | 0 <= i < |ns| && !IsScriptOrStyle(ns[i]) :: i in idx
  {
    if ns == [] then []
    else
      var front := ns[..|ns| - 1];
      var last := |ns| - 1;
      var before := Survivors(front);
      var idx := before + (if IsScriptOrStyle(ns[last]) then [] else [last]);
      assert forall i | 0 <= i < last :: ns[i] == front[i];
      assert forall i | 0 <= i < last && !IsScriptOrStyle(ns[i]) :: i in before;
      assert forall j | 0 <= j < |before| :: idx[j] == before[j];
      idx
  }

  /** The cleaned siblings are the surviving input siblings, each cleaned, in
      input order. */
  lemma {:induction false} CleanKeepsSurvivorsInOrder(ns: seq<Node>)
    ensures |Clean(ns)| == |Survivors(ns)|
    ensures forall j | 0 <= j < |Clean(ns)| :: Clean(ns)[j] == CleanNode(ns[Survivors(ns)[j]])
    decreases |ns|
  {
    if ns != [] {
      var last := |ns| - 1;
      var front := ns[..last];
      CleanKeepsSurvivorsInOrder(front);
      CleanLast(ns);
      var before, cleaned := Survivors(front), Clean(front);
      var idx, r := Survivors(ns), Clean(ns);
      assert idx == before + (if IsScriptOrStyle(ns[last]) then [] else [last]);
      assert r == cleaned + (if IsScriptOrStyle(ns[last]) then [] else [CleanNode(ns[last])]);
      assert |r| == |idx|;
      forall j | 0 <= j < |r|
        ensures r[j] == CleanNode(ns[idx[j]])
      {
        if j < |cleaned| {
          assert r[j] == cleaned[j] && idx[j] == before[j];
          assert ns[before[j]] == front[before[j]];
        } else {
          assert r[j] == CleanNode(ns[last]) && idx[j] == last;
        }
      }
    }
  }

  /** Cleaning a non-empty forest cleans all but the last node, then the last. */
  lemma CleanLast(ns: seq<Node>)
    requires ns != []
    ensures var last := |ns| - 1;
      Clean(ns) == Clean(ns[..last]) + (if IsScriptOrStyle(ns[last]) then [] else [CleanNode(ns[last])])
  {
    var last := |ns| - 1;
    var front, x := ns[..last], ns[last];
    CleanAppend(front, [x]);
    CleanSingleton(x);
    assert Clean(ns) == Clean(front + [x]) by {
      assert ns == front + [x];
    }
  }

  /** A one-node list cleans to nothing or to that node, cleaned. */
  lemma CleanSingleton(n: Node)
    ensures Clean([n]) == if IsScriptOrStyle(n) then [] else [CleanNode(n)]
  {
    assert [n][1..] == [];
  }

  /** There are as many cleaned siblings as siblings that are neither script
      nor style. */
  lemma {:induction false} CleanCount(ns: seq<Node>)
    ensures |Clean(ns)| == |set i | 0 <= i < |ns| && !IsScriptOrStyle(ns[i])|
    decreases |ns|
  {
    if ns != [] {
      var last := |ns| - 1;
      CleanCount(ns[..last]);
      CleanLast(ns);
      SurvivingPositionsLast(ns);
    }
  }

  /** The surviving positions of a list are those of all but its last node,
      plus the last position when that node survives. */
  lemma SurvivingPositionsLast(ns: seq<Node>)
    requires ns != []
    ensures var last := |ns| - 1;
      var before := set i | 0 <= i < last && !IsScriptOrStyle(ns[..last][i]);
      && (set i | 0 <= i < |ns| && !IsScriptOrStyle(ns[i]))
         == before + (if IsScriptOrStyle(ns[last]) then {} else {last})
      && last !in before
  {
    var last := |ns| - 1;
    assert forall i | 0 <= i < last :: ns[..last][i] == ns[i];
  }

  // ---------------------------------------------------------------------------
  // Document order at every depth

  /** `a` is `b` with some elements left out. */
  predicate IsSubsequence<T(==)>(a: seq<T>, b: seq<T>)
    decreases |b|
  {
    if a == [] then true
    else if b == [] then false
    else (a[0] == b[0] && IsSubsequence(a[1..], b[1..])) || IsSubsequence(a, b[1..])
  }

  lemma {:induction false} SubsequencePrepend<T>(a: seq<T>, p: seq<T>, b: seq<T>)
    requires IsSubsequence(a, b)
    ensures IsSubsequence(a, p + b)
    decreases |p|
  {
    if p == [] {
      assert p + b == b;
    } else if a != [] {
      SubsequencePrepend(a, p[1..], b);
      assert (p + b)[1..] == p[1..] + b;
    }
  }

  lemma {:induction false} SubsequenceAppend<T>(a: seq<T>, b: seq<T>, c: seq<T>, d: seq<T>)
    requires IsSubsequence(a, b) && IsSubsequence(c, d)
    ensures IsSubsequence(a + c, b + d)
    decreases |b|
  {
    if a == [] {
      SubsequencePrepend(c, b, d);
      assert a + c == c;
    } else {
      assert (a + c)[0] == a[0] && (a + c)[1..] == a[1..] + c;
      assert (b + d)[0] == b[0] && (b + d)[1..] == b[1..] + d;
      if a[0] == b[0] && IsSubsequence(a[1..], b[1..]) {
        SubsequenceAppend(a[1..], b[1..], c, d);
      } else {
        SubsequenceAppend(a, b[1..], c, d);
      }
    }
  }

  /** In document order, the cleaned forest is the input with every script and
      style subtree cut out: same tags (by name), texts and comments, same order. */
  lemma {:induction false} CleanOutline(ns: seq<Node>)
    ensures Outline(Clean(ns)) == VisibleOutline(ns)
  {
    if ns != [] {
      CleanOutline(ns[1..]);
      var n := ns[0];
      if !IsScriptOrStyle(n) {
        var m := CleanNode(n);
        var r := [m] + Clean(ns[1..]);
        assert r[0] == m && r[1..] == Clean(ns[1..]);
        if HasChildren(n) {
          CleanOutline(n.children);
          assert m.children == Clean(n.children);
        }
      }
    }
  }

  /** What survives cleaning is a subsequence of the input in document order. */
  lemma {:induction false} VisibleOutlineIsSubsequence(ns: seq<Node>)
    ensures IsSubsequence(VisibleOutline(ns), Outline(ns))
  {
    if ns != [] {
      var n := ns[0];
      var kids := if HasChildren(n) then n.children else [];
      assert HasChildren(n) ==> kids == n.children;
      VisibleOutlineIsSubsequence(ns[1..]);
      if IsScriptOrStyle(n) {
        SubsequencePrepend(VisibleOutline(ns[1..]), [LabelOf(n)] + Outline(kids), Outline(ns[1..]));
        assert Outline(ns) == ([LabelOf(n)] + Outline(kids)) + Outline(ns[1..]);
      } else {
        if HasChildren(n) {
          VisibleOutlineIsSubsequence(n.children);
        }
        assert IsSubsequence([LabelOf(n)], [LabelOf(n)]) by {
          assert [LabelOf(n)][1..] == [];
        }
        SubsequenceAppend([LabelOf(n)], [LabelOf(n)], VisibleOutline(kids), Outline(kids));
        SubsequenceAppend([LabelOf(n)] + VisibleOutline(kids), [LabelOf(n)] + Outline(kids),
                          VisibleOutline(ns[1..]), Outline(ns[1..]));
      }
    }
  }

  /** Cleaning keeps document order: the cleaned forest, at every depth, is a
      subsequence of the input. */
  lemma CleanKeepsDocumentOrder(ns: seq<Node>)
    ensures IsSubsequence(Outline(Clean(ns)), Outline(ns))
  {
    CleanOutline(ns);
    VisibleOutlineIsSubsequence(ns);
  }
}

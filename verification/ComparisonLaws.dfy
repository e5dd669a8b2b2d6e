/**
 What the comparison report says about the windows: when two trees count as the same, when a
 matched pair counts as changed, what a score counts, and which windows are listed.
 */
module ComparisonLaws {
  import opened Domain
  import opened Comparison
  import Sorting
  import Text

  // ----------------------------------------------------------- balanced brackets

  function Depth(s: string): int {
    if s == [] then 0
    else Depth(s[..|s| - 1]) + match s[|s| - 1] case '[' => 1 case ']' => -1 case _ => 0
  }

  lemma {:induction false} DepthConcat(a: string, b: string)
    ensures Depth(a + b) == Depth(a) + Depth(b)
    decreases |b|
  {
    if b == [] { assert a + b == a; }
    else {
      DepthConcat(a, b[..|b| - 1]);
      assert (a + b)[..|a + b| - 1] == a + b[..|b| - 1];
    }
  }

  predicate BracketFree(s: string) {
    '[' !in s && ']' !in s
  }

  lemma {:induction false} FreeIsFlat(s: string)
    requires BracketFree(s)
    ensures Depth(s) == 0
  {
    if s != [] { FreeIsFlat(s[..|s| - 1]); }
  }

  /** No prefix closes more than it opens. */
  predicate NeverBelow(s: string) {
    forall k | 0 <= k <= |s| :: Depth(s[..k]) >= 0
  }

  predicate Balanced(s: string) {
    Depth(s) == 0 && NeverBelow(s)
  }

  /** Balanced, and closed by its very last character only. */
  predicate Group(s: string) {
    && Balanced(s)
    && s != "" && s[|s| - 1] == ']'
    && forall k | 0 < k < |s| && s[k - 1] == ']' :: Depth(s[..k]) >= 1
  }

  lemma BalancedConcat(a: string, b: string)
    requires Balanced(a) && Balanced(b)
    ensures Balanced(a + b)
  {
    DepthConcat(a, b);
    forall k | 0 <= k <= |a + b| ensures Depth((a + b)[..k]) >= 0 {
      if k <= |a| {
        assert (a + b)[..k] == a[..k];
      } else {
        assert (a + b)[..k] == a + b[..k - |a|];
        DepthConcat(a, b[..k - |a|]);
      }
    }
  }

  lemma {:induction false} JoinIsBalanced(groups: seq<string>)
    requires forall g | g in groups :: Group(g)
    ensures Balanced(Text.Join(groups, ","))
  {
    if |groups| > 1 {
      assert groups[0] in groups && forall g | g in groups[1..] :: g in groups;
      JoinIsBalanced(groups[1..]);
      CommaIsBalanced();
      BalancedConcat(groups[0], ",");
      BalancedConcat(groups[0] + ",", Text.Join(groups[1..], ","));
    } else if |groups| == 1 {
      assert groups[0] in groups;
    }
  }

  lemma CommaIsBalanced()
    ensures Balanced(",")
  {
    assert ","[..0] == "" && ","[..1] == ",";
  }

  /** Of two groups neither is a proper beginning of the other. */
  lemma GroupsArePrefixFree(x: string, y: string, u: string, v: string)
    requires Group(x) && Group(y) && x + u == y + v
    ensures x == y && u == v
  {
    assert x == (x + u)[..|x|] && y == (y + v)[..|y|];
    assert |x| <= |y| ==> (y + v)[..|x|] == y[..|x|];
    assert |y| <= |x| ==> (x + u)[..|y|] == x[..|y|];
    assert |x| == |y|;
    assert u == (x + u)[|x|..] && v == (y + v)[|y|..];
  }

  lemma {:induction false} JoinTellsGroups(xs: seq<string>, ys: seq<string>)
    requires (forall x | x in xs :: Group(x)) && (forall y | y in ys :: Group(y))
    requires Text.Join(xs, ",") == Text.Join(ys, ",")
    ensures xs == ys
    decreases |xs|
  {
    if xs == [] || ys == [] {
      JoinOfSome(xs);
      JoinOfSome(ys);
    } else {
      var u, v := Behind(xs), Behind(ys);
      BehindFirst(xs);
      BehindFirst(ys);
      assert xs[0] in xs && ys[0] in ys;
      GroupsArePrefixFree(xs[0], ys[0], u, v);
      if |xs| > 1 && |ys| > 1 {
        assert u[1..] == Text.Join(xs[1..], ",") && v[1..] == Text.Join(ys[1..], ",");
        JoinTellsGroups(xs[1..], ys[1..]);
        assert xs == [xs[0]] + xs[1..] && ys == [ys[0]] + ys[1..];
      }
    }
  }

  lemma JoinOfSome(xs: seq<string>)
    requires forall x | x in xs :: Group(x)
    ensures xs != [] ==> Text.Join(xs, ",") != ""
  {
    assert xs != [] ==> xs[0] in xs;
  }

  /** What follows the first part. */
  function Behind(xs: seq<string>): string
    requires xs != []
  {
    if |xs| == 1 then "" else "," + Text.Join(xs[1..], ",")
  }

  lemma BehindFirst(xs: seq<string>)
    requires xs != []
    ensures Text.Join(xs, ",") == xs[0] + Behind(xs)
  {
    if |xs| > 1 { assert xs[0] + "," + Text.Join(xs[1..], ",") == xs[0] + ("," + Text.Join(xs[1..], ",")); }
  }

  // ----------------------------------------------------------------- signatures

  const OPENING := ";children=["

  function SignatureText(own: string, inner: string): string {
    own + OPENING + inner + "]"
  }

  lemma HeadDepth(own: string, k: nat)
    requires BracketFree(own) && k <= |own| + |OPENING|
    ensures Depth((own + OPENING)[..k]) == if k == |own| + |OPENING| then 1 else 0
  {
    var head := own + OPENING;
    var flat := own + ";children=";
    assert head == flat + ['['] && BracketFree(flat);
    if k < |head| {
      assert head[..k] == flat[..k];
      FreeIsFlat(flat[..k]);
    } else {
      assert head[..k] == head && head[..|head| - 1] == flat;
      FreeIsFlat(flat);
    }
  }

  lemma SignatureIsGroup(own: string, inner: string)
    requires BracketFree(own) && Balanced(inner)
    ensures Group(SignatureText(own, inner))
  {
    var head, all := own + OPENING, SignatureText(own, inner);
    forall k | 0 <= k <= |all|
      ensures Depth(all[..k]) == if k < |head| then 0 else if k < |all| then 1 + Depth(inner[..k - |head|]) else 0
      ensures 0 < k < |head| ==> all[k - 1] != ']'
    {
      PrefixDepth(own, inner, k);
    }
    assert all[..|all|] == all;
  }

  lemma PrefixDepth(own: string, inner: string, k: nat)
    requires BracketFree(own) && Balanced(inner) && k <= |SignatureText(own, inner)|
    ensures var head, all := own + OPENING, SignatureText(own, inner);
      && Depth(all[..k]) == (if k < |head| then 0 else if k < |all| then 1 + Depth(inner[..k - |head|]) else 0)
      && (0 < k < |head| ==> all[k - 1] != ']')
  {
    var head, all := own + OPENING, SignatureText(own, inner);
    if k <= |head| {
      assert all[..k] == head[..k];
      HeadDepth(own, k);
      assert inner[..0] == [];
      if 0 < k < |head| {
        assert all[k - 1] == head[k - 1];
        assert k - 1 < |own| ==> head[k - 1] in own;
      }
    } else if k < |all| {
      assert all[..k] == head + inner[..k - |head|];
      HeadDepth(own, |head|);
      assert head[..|head|] == head;
      DepthConcat(head, inner[..k - |head|]);
    } else {
      assert all[..k] == head + inner + "]";
      HeadDepth(own, |head|);
      assert head[..|head|] == head;
      DepthConcat(head, inner);
      DepthConcat(head + inner, "]");
      assert "]"[..0] == "";
    }
  }

  lemma FirstBracket(own: string, inner: string)
    requires BracketFree(own)
    ensures var all := SignatureText(own, inner);
      all[|own| + 10] == '[' && forall k | 0 <= k < |own| + 10 :: all[k] != '['
  {
    var all, flat := SignatureText(own, inner), own + ";children=";
    assert BracketFree(flat);
    forall k | 0 <= k < |own| + 10 ensures all[k] != '[' {
      assert all[k] == flat[k];
    }
  }

  /** Own text and children can be read off a signature. */
  lemma SignatureSplits(own: string, inner: string, other: string, theirs: string)
    requires BracketFree(own) && BracketFree(other)
    requires SignatureText(own, inner) == SignatureText(other, theirs)
    ensures own == other && inner == theirs
  {
    var all := SignatureText(own, inner);
    FirstBracket(own, inner);
    FirstBracket(other, theirs);
    assert |own| == |other|;
    assert all[..|own|] == own && all[..|other|] == other;
    assert all[|own| + 11..|all| - 1] == inner && all[|other| + 11..|all| - 1] == theirs;
  }

  /** What the renderer shows of a node contains no brackets. */
  ghost predicate ShowsNoBrackets(render: Renderer) {
    forall s :: BracketFree(render(s))
  }

  lemma {:induction false} SummaryIsGroup(render: Renderer, node: ElementNode)
    requires ShowsNoBrackets(render)
    ensures var children := Signatures(Sorting.SortBy(SignatureAtMost, ChildSummaries(render, node)));
      && SummarizeNode(render, node).signature == SignatureText(render(Semantics(node)), Text.Join(children, ","))
      && (forall g | g in children :: Group(g))
      && Group(SummarizeNode(render, node).signature)
    decreases node
  {
    var states := ChildSummaries(render, node);
    var sorted := Sorting.SortBy(SignatureAtMost, states);
    forall s | s in sorted ensures Group(s.signature) {
      Sorting.SortMembers(SignatureAtMost, states, s);
      var i :| 0 <= i < |states| && states[i] == s;
      SummaryIsGroup(render, node.children[i]);
    }
    var children := Signatures(sorted);
    forall g | g in children ensures Group(g) {
      var i :| 0 <= i < |children| && children[i] == g;
      assert sorted[i] in sorted;
    }
    JoinIsBalanced(children);
    SignatureIsGroup(render(Semantics(node)), Text.Join(children, ","));
  }

  /** The same trees up to the order of children, as far as the renderer shows nodes. */
  ghost predicate SameShown(render: Renderer, a: ElementNode, b: ElementNode)
    decreases a
  {
    && render(Semantics(a)) == render(Semantics(b))
    && |a.children| == |b.children|
    && exists order: seq<nat> | IsPermutation(order, |a.children|) ::
      forall i | 0 <= i < |a.children| :: SameShown(render, a.children[i], b.children[order[i]])
  }

  lemma PeelLast(a: seq<string>, b: seq<string>) returns (k: nat)
    requires multiset(a) == multiset(b) && a != []
    ensures k < |b| && b[k] == a[|a| - 1]
    ensures multiset(a[..|a| - 1]) == multiset(b[..k] + b[k + 1..])
  {
    var n := |a| - 1;
    assert a[n] in multiset(b);
    k :| 0 <= k < |b| && b[k] == a[n];
    Sorting.CountsWithout(b, k);
    assert a == a[..n] + [a[n]];
  }

  lemma SameCountSameLength(a: seq<string>, b: seq<string>)
    requires multiset(a) == multiset(b)
    ensures |a| == |b|
  {
    assert |multiset(a)| == |a| && |multiset(b)| == |b|;
  }

  /** One text matches its partner. */
  predicate MatchesUp(a: seq<string>, b: seq<string>, order: seq<nat>) {
    |order| == |a| && forall i | 0 <= i < |a| :: order[i] < |b| && a[i] == b[order[i]]
  }

  /** Equally counted texts can be matched up one to one. */
  lemma {:induction false} MatchUp(a: seq<string>, b: seq<string>) returns (order: seq<nat>)
    requires multiset(a) == multiset(b)
    ensures |a| == |b| && IsPermutation(order, |a|) && MatchesUp(a, b, order)
    decreases |a|
  {
    SameCountSameLength(a, b);
    order := [];
    if a != [] {
      var n := |a| - 1;
      var k := PeelLast(a, b);
      var rest := MatchUp(a[..n], b[..k] + b[k + 1..]);
      order := PutLast(rest, k);
      PutLastPermutes(rest, n, k);
      PutLastMatches(a, b, rest, k);
    }
  }

  lemma PutLastMatches(a: seq<string>, b: seq<string>, rest: seq<nat>, k: nat)
    requires a != [] && |a| == |b| && k < |b| && b[k] == a[|a| - 1]
    requires MatchesUp(a[..|a| - 1], b[..k] + b[k + 1..], rest)
    ensures MatchesUp(a, b, PutLast(rest, k))
  {
    forall i | 0 <= i < |a| - 1 ensures PutLast(rest, k)[i] < |b| && a[i] == b[PutLast(rest, k)[i]] {
      assert a[..|a| - 1][i] == (b[..k] + b[k + 1..])[rest[i]];
      PastGap(b, rest[i], k);
    }
  }

  /** The entries renumbered to leave a gap at `k`, which comes last. */
  function PutLast(order: seq<nat>, k: nat): seq<nat> {
    seq(|order|, i requires 0 <= i < |order| => if order[i] < k then order[i] else order[i] + 1) + [k]
  }

  lemma PastGap(b: seq<string>, m: nat, k: nat)
    requires k < |b| && m < |b| - 1
    ensures (b[..k] + b[k + 1..])[m] == b[if m < k then m else m + 1]
  {
  }

  lemma PutLastPermutes(order: seq<nat>, n: nat, k: nat)
    requires IsPermutation(order, n) && k <= n
    ensures IsPermutation(PutLast(order, k), n + 1)
  {
  }

  lemma ChildSignatures(render: Renderer, node: ElementNode)
    ensures multiset(Signatures(Sorting.SortBy(SignatureAtMost, ChildSummaries(render, node))))
      == multiset(Signatures(ChildSummaries(render, node)))
    ensures Sorting.Sorted(Text.AtMost, Signatures(Sorting.SortBy(SignatureAtMost, ChildSummaries(render, node))))
  {
    var states := ChildSummaries(render, node);
    var sorted := Sorting.SortBy(SignatureAtMost, states);
    SignatureOrderIsPreorder();
    Sorting.SortPermutes(SignatureAtMost, states);
    Sorting.SortSorts(SignatureAtMost, states);
    SignatureMultiset(sorted, states);
  }

  /** Equal signatures, same trees. */
  lemma {:induction false} SignatureTells(render: Renderer, a: ElementNode, b: ElementNode)
    requires ShowsNoBrackets(render)
    requires SummarizeNode(render, a).signature == SummarizeNode(render, b).signature
    ensures SameShown(render, a, b)
    decreases a
  {
    var x, y := Signatures(ChildSummaries(render, a)), Signatures(ChildSummaries(render, b));
    var order := SameSignatureMatchUp(render, a, b);
    forall i | 0 <= i < |a.children| ensures SameShown(render, a.children[i], b.children[order[i]]) {
      assert x[i] == y[order[i]];
      SignatureTells(render, a.children[i], b.children[order[i]]);
    }
  }

  lemma SameSignatureMatchUp(render: Renderer, a: ElementNode, b: ElementNode) returns (order: seq<nat>)
    requires ShowsNoBrackets(render)
    requires SummarizeNode(render, a).signature == SummarizeNode(render, b).signature
    ensures render(Semantics(a)) == render(Semantics(b))
    ensures |a.children| == |b.children| && IsPermutation(order, |a.children|)
    ensures forall i | 0 <= i < |a.children| ::
      Signatures(ChildSummaries(render, a))[i] == Signatures(ChildSummaries(render, b))[order[i]]
  {
    var p := Signatures(Sorting.SortBy(SignatureAtMost, ChildSummaries(render, a)));
    var q := Signatures(Sorting.SortBy(SignatureAtMost, ChildSummaries(render, b)));
    SummaryIsGroup(render, a);
    SummaryIsGroup(render, b);
    SignatureSplits(render(Semantics(a)), Text.Join(p, ","), render(Semantics(b)), Text.Join(q, ","));
    JoinTellsGroups(p, q);
    ChildSignatures(render, a);
    ChildSignatures(render, b);
    order := MatchUp(Signatures(ChildSummaries(render, a)), Signatures(ChildSummaries(render, b)));
  }

  /** Same trees, equal signatures. */
  lemma {:induction false} SameShownSameSignature(render: Renderer, a: ElementNode, b: ElementNode)
    requires SameShown(render, a, b)
    ensures SummarizeNode(render, a).signature == SummarizeNode(render, b).signature
    decreases a
  {
    var n := |a.children|;
    var order: seq<nat> :| IsPermutation(order, n)
      && forall i | 0 <= i < n :: SameShown(render, a.children[i], b.children[order[i]]);
    var x, y := Signatures(ChildSummaries(render, a)), Signatures(ChildSummaries(render, b));
    forall i | 0 <= i < n ensures x[i] == y[order[i]] {
      SameShownSameSignature(render, a.children[i], b.children[order[i]]);
    }
    PermutedMultiset(x, y, order);
    ChildSignatures(render, a);
    ChildSignatures(render, b);
    Sorting.SortedTextUnique(Signatures(Sorting.SortBy(SignatureAtMost, ChildSummaries(render, a))),
                     Signatures(Sorting.SortBy(SignatureAtMost, ChildSummaries(render, b))));
  }

  /**
   A complete invariant: where no text shown contains a bracket, two trees have the same
   signature if and only if they are the same up to the order of children at every depth.
   */
  lemma SignatureEqualIff(render: Renderer, a: ElementNode, b: ElementNode)
    requires ShowsNoBrackets(render)
    ensures SummarizeNode(render, a).signature == SummarizeNode(render, b).signature <==> SameShown(render, a, b)
  {
    if SummarizeNode(render, a).signature == SummarizeNode(render, b).signature { SignatureTells(render, a, b); }
    if SameShown(render, a, b) { SameShownSameSignature(render, a, b); }
  }

  /** The eight fields that a signature is made of. */
  predicate SameFields(a: ElementNode, b: ElementNode) {
    && a.backend == b.backend
    && a.controlType == b.controlType
    && a.className == b.className
    && a.name == b.name
    && a.automationId == b.automationId
    && a.confidence == b.confidence
    && a.states == b.states
    && a.properties == b.properties
  }

  ghost predicate SameTrees(a: ElementNode, b: ElementNode)
    decreases a
  {
    && SameFields(a, b)
    && |a.children| == |b.children|
    && exists order: seq<nat> | IsPermutation(order, |a.children|) ::
      forall i | 0 <= i < |a.children| :: SameTrees(a.children[i], b.children[order[i]])
  }

  ghost predicate TellsApart(render: Renderer) {
    forall s, t | render(s) == render(t) :: s == t
  }

  lemma {:induction false} ShownIsSame(render: Renderer, a: ElementNode, b: ElementNode)
    requires TellsApart(render)
    ensures SameShown(render, a, b) <==> SameTrees(a, b)
    decreases a
  {
    assert render(Semantics(a)) == render(Semantics(b)) <==> SameFields(a, b);
    if |a.children| == |b.children| {
      forall i, j | 0 <= i < |a.children| && 0 <= j < |a.children|
        ensures SameShown(render, a.children[i], b.children[j]) <==> SameTrees(a.children[i], b.children[j])
      {
        ShownIsSame(render, a.children[i], b.children[j]);
      }
    }
  }

  /** With a renderer that also tells nodes apart, trees that differ get different signatures. */
  lemma DifferentTreesDiffer(render: Renderer, a: ElementNode, b: ElementNode)
    requires ShowsNoBrackets(render) && TellsApart(render)
    ensures SummarizeNode(render, a).signature != SummarizeNode(render, b).signature <==> !SameTrees(a, b)
  {
    SignatureEqualIff(render, a, b);
    ShownIsSame(render, a, b);
  }

  /** With brackets it may fail: a leaf whose text spells two leaves counts as the two. */
  lemma {:induction false} SpelledSiblingsCollide(render: Renderer, parent: ElementNode, x: ElementNode, y: ElementNode,
                                                  spelled: ElementNode)
    requires x.children == [] && y.children == [] && spelled.children == []
    requires render(Semantics(spelled)) == render(Semantics(x)) + ";children=[]," + render(Semantics(y))
    requires SignatureAtMost(SummarizeNode(render, x), SummarizeNode(render, y))
    ensures SummarizeNode(render, parent.(children := [x, y])).signature
      == SummarizeNode(render, parent.(children := [spelled])).signature
  {
    LeafSignature(render, x);
    LeafSignature(render, y);
    LeafSignature(render, spelled);
    TwoChildren(render, parent, x, y);
    OneChild(render, parent, spelled);
    Spelled(render(Semantics(x)), render(Semantics(y)));
  }

  lemma Spelled(x: string, y: string)
    ensures (x + ";children=[]") + "," + (y + ";children=[]") == (x + ";children=[]," + y) + ";children=[]"
  {
  }

  lemma {:induction false} TwoChildren(render: Renderer, parent: ElementNode, x: ElementNode, y: ElementNode)
    requires SignatureAtMost(SummarizeNode(render, x), SummarizeNode(render, y))
    ensures SummarizeNode(render, parent.(children := [x, y])).signature
      == SignatureText(render(Semantics(parent)),
                       SummarizeNode(render, x).signature + "," + SummarizeNode(render, y).signature)
  {
    var two := parent.(children := [x, y]);
    var a, b := SummarizeNode(render, x), SummarizeNode(render, y);
    assert ChildSummaries(render, two) == [a, b];
    JoinOfTwo(a, b);
    assert Semantics(two) == Semantics(parent);
  }

  lemma {:induction false} OneChild(render: Renderer, parent: ElementNode, x: ElementNode)
    ensures SummarizeNode(render, parent.(children := [x])).signature
      == SignatureText(render(Semantics(parent)), SummarizeNode(render, x).signature)
  {
    var one := parent.(children := [x]);
    assert ChildSummaries(render, one) == [SummarizeNode(render, x)];
    JoinOfOne(SummarizeNode(render, x));
    assert Semantics(one) == Semantics(parent);
  }

  lemma JoinOfTwo(a: NodeState, b: NodeState)
    requires SignatureAtMost(a, b)
    ensures Text.Join(Signatures(Sorting.SortBy(SignatureAtMost, [a, b])), ",") == a.signature + "," + b.signature
  {
    assert [a, b][1..] == [b] && [b][1..] == [];
    assert Sorting.SortBy(SignatureAtMost, [b]) == [b];
    assert Sorting.SortBy(SignatureAtMost, [a, b]) == [a, b];
    assert Signatures([a, b]) == [a.signature, b.signature];
    assert [a.signature, b.signature][1..] == [b.signature];
  }

  lemma JoinOfOne(c: NodeState)
    ensures Text.Join(Signatures(Sorting.SortBy(SignatureAtMost, [c])), ",") == c.signature
  {
    assert [c][1..] == [];
    assert Sorting.SortBy(SignatureAtMost, [c]) == [c];
    assert Signatures([c]) == [c.signature];
  }

  lemma LeafSignature(render: Renderer, node: ElementNode)
    requires node.children == []
    ensures SummarizeNode(render, node).signature == render(Semantics(node)) + ";children=[]"
  {
    assert ChildSummaries(render, node) == [];
  }

  // --------------------------------------------------------------- changed pairs

  /** What the report compares of two windows, their trees aside. */
  predicate SameReported(e: WindowState, a: WindowState) {
    && e.title == a.title
    && e.processName == a.processName
    && e.backend == a.backend
    && e.confidence == a.confidence
    && e.bounds.width == a.bounds.width && e.bounds.height == a.bounds.height
    && PropertyText(e.root.properties, "onec_window_profile") == PropertyText(a.root.properties, "onec_window_profile")
    && PropertyText(e.root.properties, "onec_fallback_reason") == PropertyText(a.root.properties, "onec_fallback_reason")
    && e.root.controlType == a.root.controlType
    && e.root.className == a.root.className
    && e.root.name == a.root.name
    && e.root.automationId == a.root.automationId
  }

  /**
   A matched pair is reported as changed if and only if a reported field differs or the trees
   are not the same up to the order of children. Ids, position, handles and locators never count.
   */
  lemma ChangedWindowIff(render: Renderer, digest: Digest, e: WindowState, a: WindowState)
    requires ShowsNoBrackets(render)
    ensures Changed(Summarize(render, digest, e), Summarize(render, digest, a))
      <==> !SameReported(e, a) || !SameShown(render, e.root, a.root)
  {
    SignatureEqualIff(render, e.root, a.root);
  }

  lemma {:induction false} ChangedPairsAre(expected: seq<WindowSummary>, actual: seq<WindowSummary>, pairs: seq<MatchedPair>,
                                           p: MatchedPair)
    requires forall q | q in pairs :: q.expectedIdx < |expected| && q.actualIdx < |actual|
    ensures p in ChangedPairs(expected, actual, pairs)
      <==> p in pairs && Changed(expected[p.expectedIdx], actual[p.actualIdx])
  {
    if pairs != [] {
      assert forall q :: q in pairs <==> q == pairs[0] || q in pairs[1..];
      ChangedPairsAre(expected, actual, pairs[1..], p);
    }
  }

  lemma {:induction false} UnmatchedAre(n: nat, matched: set<nat>, i: nat)
    ensures i in Unmatched(n, matched) <==> i < n && i !in matched
  {
    if n > 0 { UnmatchedAre(n - 1, matched, i); }
  }

  /** Which windows and pairs the report lists: told from the matching. */
  lemma ReportListsIff(c: Comparison, expected: seq<WindowSummary>, actual: seq<WindowSummary>, sameProfile: bool, i: nat,
                       p: MatchedPair)
    requires Reports(c, expected, actual, sameProfile)
    ensures i in c.added <==> i < |actual| && forall k | 0 <= k < |c.matched| :: c.matched[k].actualIdx != i
    ensures i in c.removed <==> i < |expected| && forall k | 0 <= k < |c.matched| :: c.matched[k].expectedIdx != i
    ensures p in c.changed <==> p in c.matched && Changed(expected[p.expectedIdx], actual[p.actualIdx])
  {
    IndexMembers(c.matched, i);
    UnmatchedAre(|actual|, ActualIndices(c.matched), i);
    UnmatchedAre(|expected|, ExpectedIndices(c.matched), i);
    ChangedPairsAre(expected, actual, c.matched, p);
  }

  // ---------------------------------------------------------------------- scores

  function One(agrees: bool): nat {
    if agrees then 1 else 0
  }

  /** How many of process, profile and root class two windows have in common, profile counting a quarter more. */
  function Identity(normalize: Normalizer, e: WindowSummary, a: WindowSummary): nat {
    4 * One(EqualNormalized(normalize, e.processName, a.processName))
    + 5 * One(EqualNormalized(normalize, e.onecProfile, a.onecProfile))
    + 4 * One(EqualNormalized(normalize, e.rootClassName, a.rootClassName))
  }

  /** What else agrees: type and name of the root count double title, size, backend and tree. */
  function Appearance(normalize: Normalizer, e: WindowSummary, a: WindowSummary): nat {
    2 * One(normalize(e.rootControlType) == normalize(a.rootControlType))
    + 2 * One(EqualNormalized(normalize, e.rootName, a.rootName))
    + One(normalize(e.title) == normalize(a.title))
    + One(e.width == a.width && e.height == a.height)
    + One(e.backend == a.backend)
    + One(e.treeDigest == a.treeDigest)
  }

  /**
   The reported score adds up what agrees, and nothing without a common identity. Two common
   identities suffice to match; one needs some likeness: two points beside a profile, three
   beside a process or a class.
   */
  lemma ScoreAddsUp(normalize: Normalizer, e: WindowSummary, a: WindowSummary)
    ensures var identity, appearance := Identity(normalize, e, a), Appearance(normalize, e, a);
      && MatchScore(normalize, e, a) == (if identity == 0 then 0 else identity + appearance)
      && (MatchScore(normalize, e, a) >= MIN_SCORE <==>
            identity >= 8 || (identity == 5 && appearance >= 2) || (identity == 4 && appearance >= 3))
  {
  }
}

/**
 Comparing a snapshot with a baseline: windows are summarized by their semantics, matched
 greedily by score and reported as added, removed or changed. Text normalization, the
 rendering of a node's own fields and the digest are parameters.
 */
module Comparison {
  import opened Wrappers
  import opened Sorting
  import opened Domain
  import Text

  type Normalizer = string -> string
  type Digest = string -> string

  /** The fields of a node that its signature shows. */
  datatype NodeSemantics = NodeSemantics(
    backend: BackendKind,
    controlType: string,
    className: Option<string>,
    name: Option<string>,
    automationId: Option<string>,
    confidence: real,
    states: ElementStates,
    properties: map<string, PropertyValue>)

  type Renderer = NodeSemantics -> string

  function Semantics(node: ElementNode): NodeSemantics {
    NodeSemantics(node.backend, node.controlType, node.className, node.name, node.automationId, node.confidence,
                  node.states, node.properties)
  }

  // ----------------------------------------------------------- tree signatures

  datatype NodeState = NodeState(signature: string, nodeCount: nat, fallbackCount: nat)

  const FALLBACK_PROPERTY := "onec_fallback_reason"

  function PropertyText(properties: map<string, PropertyValue>, key: string): Option<string> {
    if key in properties && properties[key].TextValue? then Some(properties[key].text) else None
  }

  predicate SignatureAtMost(a: NodeState, b: NodeState) {
    Text.AtMost(a.signature, b.signature)
  }

  function Signatures(states: seq<NodeState>): seq<string> {
    seq(|states|, i requires 0 <= i < |states| => states[i].signature)
  }

  function SumNodes(states: seq<NodeState>): nat {
    if states == [] then 0 else states[0].nodeCount + SumNodes(states[1..])
  }

  function SumFallbacks(states: seq<NodeState>): nat {
    if states == [] then 0 else states[0].fallbackCount + SumFallbacks(states[1..])
  }

  function ChildSummaries(render: Renderer, node: ElementNode): seq<NodeState>
    decreases node, 0
  {
    seq(|node.children|, i requires 0 <= i < |node.children| => SummarizeNode(render, node.children[i]))
  }

  function SummarizeNode(render: Renderer, node: ElementNode): NodeState
    decreases node, 1
  {
    var children := SortBy(SignatureAtMost, ChildSummaries(render, node));
    Assemble(render(Semantics(node)), node.properties, Text.Join(Signatures(children), ","), SumNodes(children),
             SumFallbacks(children))
  }

  function Assemble(own: string, properties: map<string, PropertyValue>, children: string, nodes: nat, fallbacks: nat)
    : NodeState
  {
    NodeState(own + ";children=[" + children + "]", 1 + nodes,
              (if PropertyText(properties, FALLBACK_PROPERTY).Some? then 1 else 0) + fallbacks)
  }

  /** `order` lists every index below `n` exactly once. */
  ghost predicate IsPermutation(order: seq<nat>, n: nat) {
    && |order| == n
    && (forall i | 0 <= i < n :: order[i] < n)
    && forall i, j | 0 <= i < j < n :: order[i] != order[j]
  }

  /** Equal semantics, children permuted at any depth; ids, bounds, handles and locators are free. */
  ghost predicate SameUpToOrder(a: ElementNode, b: ElementNode)
    decreases a
  {
    && Semantics(a) == Semantics(b)
    && |a.children| == |b.children|
    && exists order: seq<nat> | IsPermutation(order, |a.children|) ::
      forall i | 0 <= i < |a.children| :: SameUpToOrder(a.children[i], b.children[order[i]])
  }

  /** A permutation without its last entry, renumbered past the gap. */
  function WithoutLast(order: seq<nat>): seq<nat>
    requires order != []
    requires forall i, j | 0 <= i < j < |order| :: order[i] != order[j]
  {
    var n := |order| - 1;
    seq(n, i requires 0 <= i < n => if order[i] < order[n] then order[i] else order[i] - 1)
  }

  lemma WithoutLastPermutes(order: seq<nat>, n: nat)
    requires n > 0 && IsPermutation(order, n)
    ensures IsPermutation(WithoutLast(order), n - 1)
  {
    assert forall i | 0 <= i < n - 1 :: order[i] != order[n - 1];
  }

  lemma ReadsPastGap<T>(b: seq<T>, order: seq<nat>, i: nat)
    requires order != [] && IsPermutation(order, |b|) && i < |order| - 1
    ensures var k := order[|order| - 1];
      WithoutLast(order)[i] < |b| - 1 && (b[..k] + b[k + 1..])[WithoutLast(order)[i]] == b[order[i]]
  {
    assert order[i] != order[|order| - 1];
  }

  /** A permuted sequence has the same elements, counted. */
  lemma {:induction false} PermutedMultiset<T>(a: seq<T>, b: seq<T>, order: seq<nat>)
    requires |a| == |b| && IsPermutation(order, |a|)
    requires forall i | 0 <= i < |a| :: a[i] == b[order[i]]
    ensures multiset(a) == multiset(b)
    decreases |a|
  {
    if a != [] {
      var n := |a| - 1;
      var k := order[n];
      WithoutLastPermutes(order, |a|);
      forall i | 0 <= i < n ensures a[..n][i] == (b[..k] + b[k + 1..])[WithoutLast(order)[i]] {
        ReadsPastGap(b, order, i);
      }
      PermutedMultiset(a[..n], b[..k] + b[k + 1..], WithoutLast(order));
      PutBack(a, b, k);
    }
  }

  lemma PutBack<T>(a: seq<T>, b: seq<T>, k: nat)
    requires a != [] && k < |b| && a[|a| - 1] == b[k]
    requires multiset(a[..|a| - 1]) == multiset(b[..k] + b[k + 1..])
    ensures multiset(a) == multiset(b)
  {
    CountsWithout(b, k);
    assert a == a[..|a| - 1] + [a[|a| - 1]];
    assert b[k] in multiset(b);
  }

  /** Equal counts: the head of one sequence occurs in the other, and the remainders count the same. */
  lemma PeelHead(a: seq<NodeState>, b: seq<NodeState>) returns (k: nat)
    requires multiset(a) == multiset(b) && a != []
    ensures k < |b| && b[k] == a[0]
    ensures multiset(a[1..]) == multiset(b[..k] + b[k + 1..])
  {
    assert a[0] in multiset(b);
    k :| 0 <= k < |b| && b[k] == a[0];
    TailCounts(a);
    CountsWithout(b, k);
  }

  lemma NothingCounted(b: seq<NodeState>)
    requires multiset(b) == multiset{}
    ensures b == []
  {
    assert |multiset(b)| == |b|;
  }

  lemma {:induction false} SumsFromMultiset(a: seq<NodeState>, b: seq<NodeState>)
    requires multiset(a) == multiset(b)
    ensures SumNodes(a) == SumNodes(b) && SumFallbacks(a) == SumFallbacks(b)
    decreases |a|
  {
    if a == [] {
      NothingCounted(b);
    } else {
      var k := PeelHead(a, b);
      var rest := b[..k] + b[k + 1..];
      SumsFromMultiset(a[1..], rest);
      SumsWithout(b, k);
    }
  }

  lemma {:induction false} SumsWithout(b: seq<NodeState>, k: nat)
    requires k < |b|
    ensures SumNodes(b) == b[k].nodeCount + SumNodes(b[..k] + b[k + 1..])
    ensures SumFallbacks(b) == b[k].fallbackCount + SumFallbacks(b[..k] + b[k + 1..])
  {
    var rest := b[..k] + b[k + 1..];
    if k == 0 {
      assert rest == b[1..];
    } else {
      SumsWithout(b[1..], k - 1);
      assert b[1..][..k - 1] == b[1..k] && b[1..][k..] == b[k + 1..];
      assert rest == [b[0]] + (b[1..k] + b[k + 1..]);
      assert rest[1..] == b[1..k] + b[k + 1..];
    }
  }

  lemma SignatureOrderIsPreorder()
    ensures TotalPreorder(SignatureAtMost)
  {
    forall a: NodeState, b: NodeState ensures SignatureAtMost(a, b) || SignatureAtMost(b, a) {
      Text.AtMostIsTotalOrder(a.signature, b.signature, b.signature);
    }
    forall a: NodeState, b: NodeState, c: NodeState | SignatureAtMost(a, b) && SignatureAtMost(b, c)
      ensures SignatureAtMost(a, c)
    {
      Text.AtMostIsTotalOrder(a.signature, b.signature, c.signature);
    }
  }

  lemma {:induction false} SignatureMultiset(a: seq<NodeState>, b: seq<NodeState>)
    requires multiset(a) == multiset(b)
    ensures multiset(Signatures(a)) == multiset(Signatures(b))
    decreases |a|
  {
    if a == [] {
      NothingCounted(b);
    } else {
      var k := PeelHead(a, b);
      var rest := b[..k] + b[k + 1..];
      SignatureMultiset(a[1..], rest);
      assert Signatures(a) == [a[0].signature] + Signatures(a[1..]);
      SignaturesWithout(b, k);
    }
  }

  lemma SignaturesWithout(b: seq<NodeState>, k: nat)
    requires k < |b|
    ensures multiset(Signatures(b)) == multiset(Signatures(b[..k] + b[k + 1..])) + multiset{b[k].signature}
  {
    var s := Signatures(b);
    assert Signatures(b[..k] + b[k + 1..]) == s[..k] + s[k + 1..];
    assert s == s[..k] + [s[k]] + s[k + 1..];
  }

  /** Sorting by signature forgets the order the summaries came in. */
  lemma SortForgetsOrder(a: seq<NodeState>, b: seq<NodeState>)
    requires multiset(a) == multiset(b)
    ensures var x, y := SortBy(SignatureAtMost, a), SortBy(SignatureAtMost, b);
      Signatures(x) == Signatures(y) && SumNodes(x) == SumNodes(y) && SumFallbacks(x) == SumFallbacks(y)
  {
    var x, y := SortBy(SignatureAtMost, a), SortBy(SignatureAtMost, b);
    SignatureOrderIsPreorder();
    SortPermutes(SignatureAtMost, a);
    SortPermutes(SignatureAtMost, b);
    SortSorts(SignatureAtMost, a);
    SortSorts(SignatureAtMost, b);
    SumsFromMultiset(x, y);
    SignatureMultiset(x, y);
    SortedTextUnique(Signatures(x), Signatures(y));
  }

  /**
   The signature of a tree, its node count and its fallback count ignore the order of
   children at every depth, and ids, bounds, handles and locators altogether.
   */
  lemma {:induction false} SummaryIgnoresChildOrder(render: Renderer, a: ElementNode, b: ElementNode)
    requires SameUpToOrder(a, b)
    ensures SummarizeNode(render, a) == SummarizeNode(render, b)
    decreases a
  {
    var n := |a.children|;
    var order: seq<nat> :| IsPermutation(order, n)
      && forall i | 0 <= i < n :: SameUpToOrder(a.children[i], b.children[order[i]]);
    forall i | 0 <= i < n ensures ChildSummaries(render, a)[i] == ChildSummaries(render, b)[order[i]] {
      SummaryIgnoresChildOrder(render, a.children[i], b.children[order[i]]);
    }
    PermutedMultiset(ChildSummaries(render, a), ChildSummaries(render, b), order);
    SummaryFromChildren(render, a, b);
  }

  lemma SummaryFromChildren(render: Renderer, a: ElementNode, b: ElementNode)
    requires Semantics(a) == Semantics(b)
    requires multiset(ChildSummaries(render, a)) == multiset(ChildSummaries(render, b))
    ensures SummarizeNode(render, a) == SummarizeNode(render, b)
  {
    SortForgetsOrder(ChildSummaries(render, a), ChildSummaries(render, b));
  }

  // ------------------------------------------------------------ window summaries

  datatype WindowSummary = WindowSummary(
    title: string,
    processName: Option<string>,
    backend: BackendKind,
    confidence: real,
    width: int,
    height: int,
    onecProfile: Option<string>,
    fallbackReason: Option<string>,
    rootControlType: string,
    rootClassName: Option<string>,
    rootName: Option<string>,
    rootAutomationId: Option<string>,
    treeSignature: string,
    treeDigest: string)

  function Summarize(render: Renderer, digest: Digest, window: WindowState): WindowSummary {
    var tree := SummarizeNode(render, window.root);
    WindowSummary(window.title, window.processName, window.backend, window.confidence, window.bounds.width,
      window.bounds.height, PropertyText(window.root.properties, "onec_window_profile"),
      PropertyText(window.root.properties, FALLBACK_PROPERTY), window.root.controlType, window.root.className,
      window.root.name, window.root.automationId, tree.signature, digest(tree.signature))
  }

  function SummarizeAll(render: Renderer, digest: Digest, windows: seq<WindowState>): seq<WindowSummary> {
    seq(|windows|, i requires 0 <= i < |windows| => Summarize(render, digest, windows[i]))
  }

  predicate EqualNormalized(normalize: Normalizer, left: Option<string>, right: Option<string>) {
    && left.Some? && right.Some?
    && normalize(left.value) != ""
    && normalize(left.value) == normalize(right.value)
  }

  const MIN_SCORE: nat := 7
  const MAX_SCORE: nat := 21

  function MatchScore(normalize: Normalizer, expected: WindowSummary, actual: WindowSummary): (score: nat)
    ensures score <= MAX_SCORE
  {
    var sameProcess := EqualNormalized(normalize, expected.processName, actual.processName);
    var sameProfile := EqualNormalized(normalize, expected.onecProfile, actual.onecProfile);
    var sameClass := EqualNormalized(normalize, expected.rootClassName, actual.rootClassName);
    if !sameProcess && !sameProfile && !sameClass then 0
    else
      (if sameProcess then 4 else 0)
      + (if sameProfile then 5 else 0)
      + (if sameClass then 4 else 0)
      + (if normalize(expected.rootControlType) == normalize(actual.rootControlType) then 2 else 0)
      + (if EqualNormalized(normalize, expected.rootName, actual.rootName) then 2 else 0)
      + (if normalize(expected.title) == normalize(actual.title) then 1 else 0)
      + (if expected.width == actual.width && expected.height == actual.height then 1 else 0)
      + (if expected.backend == actual.backend then 1 else 0)
      + (if expected.treeDigest == actual.treeDigest then 1 else 0)
  }

  // ------------------------------------------------------------- greedy matching

  datatype MatchedPair = MatchedPair(expectedIdx: nat, actualIdx: nat, score: nat)

  /** Higher scores first, then lower indices. */
  predicate CandidateBefore(a: MatchedPair, b: MatchedPair) {
    || a.score > b.score
    || (a.score == b.score && a.expectedIdx < b.expectedIdx)
    || (a.score == b.score && a.expectedIdx == b.expectedIdx && a.actualIdx < b.actualIdx)
  }

  predicate CandidateAtMost(a: MatchedPair, b: MatchedPair) {
    !CandidateBefore(b, a)
  }

  predicate ExpectedAtMost(a: MatchedPair, b: MatchedPair) {
    a.expectedIdx <= b.expectedIdx
  }

  predicate ExpectedBefore(a: MatchedPair, b: MatchedPair) {
    a.expectedIdx < b.expectedIdx
  }

  predicate SharesWindow(a: MatchedPair, b: MatchedPair) {
    a.expectedIdx == b.expectedIdx || a.actualIdx == b.actualIdx
  }

  /** A table of scores, one row per expected window. */
  datatype Scores = Scores(expected: nat, actual: nat, at: (nat, nat) -> nat)

  predicate IsCandidate(scores: Scores, pair: MatchedPair) {
    pair.expectedIdx < scores.expected && pair.actualIdx < scores.actual
    && pair.score == scores.at(pair.expectedIdx, pair.actualIdx)
  }

  /** Each window is matched at most once. */
  ghost predicate IsMatching(pairs: seq<MatchedPair>) {
    forall i, j | 0 <= i < j < |pairs| :: !SharesWindow(pairs[i], pairs[j])
  }

  /** A good enough pair left out gave way to a chosen pair that comes before it. */
  ghost predicate NoBlockingPair(scores: Scores, pairs: seq<MatchedPair>) {
    forall pair | IsCandidate(scores, pair) && pair.score >= MIN_SCORE && pair !in pairs ::
      exists chosen | chosen in pairs :: SharesWindow(chosen, pair) && CandidateBefore(chosen, pair)
  }

  ghost predicate GreedyMatching(scores: Scores, pairs: seq<MatchedPair>) {
    && (forall pair | pair in pairs :: IsCandidate(scores, pair) && pair.score >= MIN_SCORE)
    && IsMatching(pairs)
    && NoBlockingPair(scores, pairs)
  }

  lemma CandidateOrder()
    ensures TotalPreorder(CandidateAtMost)
    ensures TotalPreorder(ExpectedAtMost)
  {
  }

  function ExpectedIndices(pairs: seq<MatchedPair>): set<nat> {
    if pairs == [] then {}
    else ExpectedIndices(pairs[..|pairs| - 1]) + {pairs[|pairs| - 1].expectedIdx}
  }

  function ActualIndices(pairs: seq<MatchedPair>): set<nat> {
    if pairs == [] then {}
    else ActualIndices(pairs[..|pairs| - 1]) + {pairs[|pairs| - 1].actualIdx}
  }

  lemma IndicesExtend(pairs: seq<MatchedPair>, pair: MatchedPair)
    ensures ExpectedIndices(pairs + [pair]) == ExpectedIndices(pairs) + {pair.expectedIdx}
    ensures ActualIndices(pairs + [pair]) == ActualIndices(pairs) + {pair.actualIdx}
  {
    assert (pairs + [pair])[..|pairs|] == pairs;
  }

  lemma {:induction false} IndexMembers(pairs: seq<MatchedPair>, index: nat)
    ensures index in ExpectedIndices(pairs) <==> exists i | 0 <= i < |pairs| :: pairs[i].expectedIdx == index
    ensures index in ActualIndices(pairs) <==> exists i | 0 <= i < |pairs| :: pairs[i].actualIdx == index
    decreases |pairs|
  {
    if pairs != [] {
      var n := |pairs| - 1;
      IndexMembers(pairs[..n], index);
      assert forall i | 0 <= i < n :: pairs[..n][i] == pairs[i];
    }
  }

  /** The pair was chosen, is not good enough, or gave way to one that comes before it. */
  predicate Settled(matched: seq<MatchedPair>, pair: MatchedPair) {
    pair.score >= MIN_SCORE && pair !in matched ==>
      exists chosen | chosen in matched :: SharesWindow(chosen, pair) && CandidateBefore(chosen, pair)
  }

  /** The walk over the candidates, best first, has dealt with the first `k`. */
  ghost predicate Walked(candidates: seq<MatchedPair>, k: nat, matched: seq<MatchedPair>)
    requires k <= |candidates|
  {
    && (forall p | p in matched :: p in candidates[..k] && p.score >= MIN_SCORE)
    && IsMatching(matched)
    && forall i | 0 <= i < k :: Settled(matched, candidates[i])
  }

  /** Chosen so far, in processing order, while walking the candidates best first. */
  method ChooseGreedily(scores: Scores, candidates: seq<MatchedPair>) returns (matched: seq<MatchedPair>)
    requires Sorted(CandidateAtMost, candidates)
    requires forall pair :: pair in candidates <==> IsCandidate(scores, pair) && pair.score > 0
    ensures GreedyMatching(scores, matched)
  {
    matched := [];
    var matchedExpected: set<nat> := {};
    var matchedActual: set<nat> := {};
    var k := 0;
    while k < |candidates|
      invariant 0 <= k <= |candidates| && Walked(candidates, k, matched)
      invariant matchedExpected == ExpectedIndices(matched) && matchedActual == ActualIndices(matched)
    {
      var candidate := candidates[k];
      if candidate.score < MIN_SCORE || candidate.expectedIdx in matchedExpected || candidate.actualIdx in matchedActual {
        SkipCandidate(scores, candidates, k, matched);
      } else {
        TakeCandidate(candidates, k, matched);
        IndicesExtend(matched, candidate);
        matchedExpected := matchedExpected + {candidate.expectedIdx};
        matchedActual := matchedActual + {candidate.actualIdx};
        matched := matched + [candidate];
      }
      k := k + 1;
    }
    WalkedAll(scores, candidates, matched);
  }

  lemma SkipCandidate(scores: Scores, candidates: seq<MatchedPair>, k: nat, matched: seq<MatchedPair>)
    requires Sorted(CandidateAtMost, candidates) && k < |candidates| && Walked(candidates, k, matched)
    requires forall pair | pair in candidates :: IsCandidate(scores, pair)
    requires candidates[k].score < MIN_SCORE || candidates[k].expectedIdx in ExpectedIndices(matched)
      || candidates[k].actualIdx in ActualIndices(matched)
    ensures Walked(candidates, k + 1, matched)
  {
    assert candidates[..k + 1] == candidates[..k] + [candidates[k]];
    if candidates[k].score >= MIN_SCORE && candidates[k] !in matched {
      var i := SharingIndex(matched, candidates[k]);
      assert matched[i] in matched;
      EarlierComesBefore(scores, candidates, k, matched[i]);
      assert Settled(matched, candidates[k]);
    }
  }

  lemma SharingIndex(matched: seq<MatchedPair>, pair: MatchedPair) returns (i: nat)
    requires pair.expectedIdx in ExpectedIndices(matched) || pair.actualIdx in ActualIndices(matched)
    ensures i < |matched| && SharesWindow(matched[i], pair)
  {
    IndexMembers(matched, pair.expectedIdx);
    IndexMembers(matched, pair.actualIdx);
    if pair.expectedIdx in ExpectedIndices(matched) {
      i :| 0 <= i < |matched| && matched[i].expectedIdx == pair.expectedIdx;
    } else {
      i :| 0 <= i < |matched| && matched[i].actualIdx == pair.actualIdx;
    }
  }

  lemma TakeCandidate(candidates: seq<MatchedPair>, k: nat, matched: seq<MatchedPair>)
    requires k < |candidates| && Walked(candidates, k, matched)
    requires candidates[k].score >= MIN_SCORE && candidates[k].expectedIdx !in ExpectedIndices(matched)
      && candidates[k].actualIdx !in ActualIndices(matched)
    ensures Walked(candidates, k + 1, matched + [candidates[k]])
  {
    var candidate := candidates[k];
    var all := matched + [candidate];
    assert candidates[..k + 1] == candidates[..k] + [candidate];
    IndexMembers(matched, candidate.expectedIdx);
    IndexMembers(matched, candidate.actualIdx);
    forall i | 0 <= i < k + 1 ensures Settled(all, candidates[i]) {
      if i < k {
        assert Settled(matched, candidates[i]);
        assert forall p | p in matched :: p in all;
      } else {
        assert candidate in all;
      }
    }
  }

  lemma WalkedAll(scores: Scores, candidates: seq<MatchedPair>, matched: seq<MatchedPair>)
    requires Walked(candidates, |candidates|, matched)
    requires forall pair :: pair in candidates <==> IsCandidate(scores, pair) && pair.score > 0
    ensures GreedyMatching(scores, matched)
  {
    assert candidates[..|candidates|] == candidates;
    forall pair | IsCandidate(scores, pair) && pair.score >= MIN_SCORE && pair !in matched
      ensures exists chosen | chosen in matched :: SharesWindow(chosen, pair) && CandidateBefore(chosen, pair)
    {
      var i :| 0 <= i < |candidates| && candidates[i] == pair;
      assert Settled(matched, candidates[i]);
    }
  }

  lemma EarlierComesBefore(scores: Scores, candidates: seq<MatchedPair>, k: nat, chosen: MatchedPair)
    requires Sorted(CandidateAtMost, candidates) && k < |candidates| && chosen in candidates[..k]
    requires forall pair | pair in candidates :: IsCandidate(scores, pair)
    requires chosen != candidates[k]
    ensures CandidateBefore(chosen, candidates[k])
  {
    var i :| 0 <= i < k && candidates[i] == chosen;
    assert CandidateAtMost(chosen, candidates[k]);
    assert candidates[k] in candidates && chosen in candidates;
  }

  /** Every pair of windows with a positive score, row by row. */
  method CollectCandidates(scores: Scores) returns (candidates: seq<MatchedPair>)
    ensures forall pair :: pair in candidates <==> IsCandidate(scores, pair) && pair.score > 0
  {
    candidates := [];
    for e := 0 to scores.expected
      invariant forall pair :: pair in candidates <==>
        IsCandidate(scores, pair) && pair.score > 0 && pair.expectedIdx < e
    {
      for a := 0 to scores.actual
        invariant forall pair :: pair in candidates <==>
          IsCandidate(scores, pair) && pair.score > 0
          && (pair.expectedIdx < e || (pair.expectedIdx == e && pair.actualIdx < a))
      {
        var score := scores.at(e, a);
        if score > 0 {
          candidates := candidates + [MatchedPair(e, a, score)];
        }
      }
    }
  }

  function ScoreTable(normalize: Normalizer, expected: seq<WindowSummary>, actual: seq<WindowSummary>): Scores {
    Scores(|expected|, |actual|, (e: nat, a: nat) =>
      if e < |expected| && a < |actual| then MatchScore(normalize, expected[e], actual[a]) else 0)
  }

  /** Greedy one-to-one matching, reported in the order of the expected windows. */
  method MatchWindows(normalize: Normalizer, expected: seq<WindowSummary>, actual: seq<WindowSummary>)
    returns (pairs: seq<MatchedPair>)
    ensures GreedyMatching(ScoreTable(normalize, expected, actual), pairs)
    ensures Sorted(ExpectedBefore, pairs)
  {
    var scores := ScoreTable(normalize, expected, actual);
    CandidateOrder();
    var candidates := CollectCandidates(scores);
    var sorted := SortBy(CandidateAtMost, candidates);
    SortSorts(CandidateAtMost, candidates);
    forall pair ensures pair in sorted <==> pair in candidates { SortMembers(CandidateAtMost, candidates, pair); }
    var matched := ChooseGreedily(scores, sorted);
    pairs := SortBy(ExpectedAtMost, matched);
    SortedMatching(scores, matched);
  }

  /** Reordering a greedy matching by expected index keeps it one. */
  lemma SortedMatching(scores: Scores, matched: seq<MatchedPair>)
    requires GreedyMatching(scores, matched)
    ensures GreedyMatching(scores, SortBy(ExpectedAtMost, matched))
    ensures Sorted(ExpectedBefore, SortBy(ExpectedAtMost, matched))
  {
    var pairs := SortBy(ExpectedAtMost, matched);
    CandidateOrder();
    SortSorts(ExpectedAtMost, matched);
    SortPermutes(ExpectedAtMost, matched);
    forall p ensures p in pairs <==> p in matched { SortMembers(ExpectedAtMost, matched, p); }
    MatchingOnce(matched);
    forall i, j | 0 <= i < j < |pairs| ensures !SharesWindow(pairs[i], pairs[j]) {
      assert pairs[i] in matched && pairs[j] in matched;
      if pairs[i] == pairs[j] {
        CountTwice(pairs, i, j);
      }
    }
  }

  lemma {:induction false} MatchingOnce(pairs: seq<MatchedPair>)
    requires IsMatching(pairs)
    ensures forall p | p in pairs :: multiset(pairs)[p] == 1
  {
    if pairs != [] {
      assert pairs == [pairs[0]] + pairs[1..];
      MatchingOnce(pairs[1..]);
      assert pairs[0] !in pairs[1..];
      assert pairs[0] !in multiset(pairs[1..]);
    }
  }

  lemma CountTwice(pairs: seq<MatchedPair>, i: nat, j: nat)
    requires i < j < |pairs| && pairs[i] == pairs[j]
    ensures multiset(pairs)[pairs[i]] >= 2
  {
    assert pairs == pairs[..j] + [pairs[j]] + pairs[j + 1..];
    assert pairs[i] in pairs[..j];
    assert pairs[i] in multiset(pairs[..j]);
  }

  // ------------------------------------------------- the matching is determined

  /** Two greedy matchings choose the same pairs, best candidates first. */
  lemma {:induction false} SameChoice(scores: Scores, a: seq<MatchedPair>, b: seq<MatchedPair>, pair: MatchedPair)
    requires GreedyMatching(scores, a) && GreedyMatching(scores, b)
    requires forall e: nat, c: nat :: scores.at(e, c) <= MAX_SCORE
    requires IsCandidate(scores, pair) && pair in a
    ensures pair in b
    decreases MAX_SCORE - pair.score, pair.expectedIdx, pair.actualIdx
  {
    if pair !in b {
      var chosen :| chosen in b && SharesWindow(chosen, pair) && CandidateBefore(chosen, pair);
      SameChoice(scores, b, a, chosen);
      SharingMeansSame(a, pair, chosen);
    }
  }

  lemma SharingMeansSame(pairs: seq<MatchedPair>, a: MatchedPair, b: MatchedPair)
    requires IsMatching(pairs) && a in pairs && b in pairs && SharesWindow(a, b)
    ensures a == b
  {
  }

  /** No blocking pair, each window once, sorted: there is exactly one such list. */
  lemma GreedyMatchingIsUnique(scores: Scores, a: seq<MatchedPair>, b: seq<MatchedPair>)
    requires GreedyMatching(scores, a) && GreedyMatching(scores, b)
    requires forall e: nat, c: nat :: scores.at(e, c) <= MAX_SCORE
    requires Sorted(ExpectedBefore, a) && Sorted(ExpectedBefore, b)
    ensures a == b
  {
    forall pair ensures pair in a <==> pair in b {
      if pair in a { SameChoice(scores, a, b, pair); }
      if pair in b { SameChoice(scores, b, a, pair); }
    }
    StrictlySortedUnique(ExpectedBefore, a, b);
  }

  // ------------------------------------------------------------------ comparison

  /** Indices below `n` outside the set, in order. */
  function Unmatched(n: nat, matched: set<nat>): seq<nat> {
    if n == 0 then []
    else Unmatched(n - 1, matched) + if n - 1 in matched then [] else [n - 1]
  }

  datatype Comparison = Comparison(
    matched: seq<MatchedPair>,
    added: seq<nat>,
    removed: seq<nat>,
    changed: seq<MatchedPair>,
    matches: bool)

  /** Some reported field differs; the node and fallback counts and the digest are not reported. */
  predicate Changed(expected: WindowSummary, actual: WindowSummary) {
    expected.(treeDigest := actual.treeDigest) != actual
  }

  function ChangedPairs(expected: seq<WindowSummary>, actual: seq<WindowSummary>, pairs: seq<MatchedPair>): seq<MatchedPair>
    requires forall p | p in pairs :: p.expectedIdx < |expected| && p.actualIdx < |actual|
  {
    if pairs == [] then []
    else
      assert pairs[0] in pairs;
      (if Changed(expected[pairs[0].expectedIdx], actual[pairs[0].actualIdx]) then [pairs[0]] else [])
      + ChangedPairs(expected, actual, pairs[1..])
  }

  /** What the comparison reports, given the matching. */
  ghost predicate Reports(c: Comparison, expected: seq<WindowSummary>, actual: seq<WindowSummary>, sameProfile: bool) {
    && (forall p | p in c.matched :: p.expectedIdx < |expected| && p.actualIdx < |actual|)
    && c.added == Unmatched(|actual|, ActualIndices(c.matched))
    && c.removed == Unmatched(|expected|, ExpectedIndices(c.matched))
    && c.changed == ChangedPairs(expected, actual, c.matched)
    && c.matches == (sameProfile && c.added == [] && c.removed == [] && c.changed == [])
  }

  method CompareSnapshots(normalize: Normalizer, render: Renderer, digest: Digest, expected: seq<WindowState>,
                          actual: seq<WindowState>, sameProfile: bool) returns (c: Comparison)
    ensures var e, a := SummarizeAll(render, digest, expected), SummarizeAll(render, digest, actual);
      && GreedyMatching(ScoreTable(normalize, e, a), c.matched)
      && Sorted(ExpectedBefore, c.matched)
      && Reports(c, e, a, sameProfile)
  {
    var e, a := SummarizeAll(render, digest, expected), SummarizeAll(render, digest, actual);
    var matched := MatchWindows(normalize, e, a);
    var added := Unmatched(|a|, ActualIndices(matched));
    var removed := Unmatched(|e|, ExpectedIndices(matched));
    var changed := ChangedPairs(e, a, matched);
    c := Comparison(matched, added, removed, changed, sameProfile && added == [] && removed == [] && changed == []);
  }

  lemma {:induction false} UnmatchedCount(n: nat, matched: set<nat>)
    ensures |Unmatched(n, matched)| + |set i | i in matched && i < n| == n
    ensures Unmatched(n, matched) == [] <==> forall i: nat | i < n :: i in matched
  {
    if n > 0 {
      UnmatchedCount(n - 1, matched);
      var below := set i | i in matched && i < n - 1;
      if n - 1 in matched {
        assert (set i | i in matched && i < n) == below + {n - 1};
      } else {
        assert (set i | i in matched && i < n) == below;
      }
    }
  }

  lemma {:induction false} IndicesAreDistinct(pairs: seq<MatchedPair>)
    requires IsMatching(pairs)
    ensures |ExpectedIndices(pairs)| == |pairs| && |ActualIndices(pairs)| == |pairs|
  {
    if pairs != [] {
      var n := |pairs| - 1;
      IndicesAreDistinct(pairs[..n]);
      LastIsNew(pairs);
    }
  }

  lemma LastIsNew(pairs: seq<MatchedPair>)
    requires IsMatching(pairs) && pairs != []
    ensures var n := |pairs| - 1;
      pairs[n].expectedIdx !in ExpectedIndices(pairs[..n]) && pairs[n].actualIdx !in ActualIndices(pairs[..n])
  {
    var n := |pairs| - 1;
    IndexMembers(pairs[..n], pairs[n].expectedIdx);
    IndexMembers(pairs[..n], pairs[n].actualIdx);
    forall i | 0 <= i < n ensures pairs[..n][i].expectedIdx != pairs[n].expectedIdx
      && pairs[..n][i].actualIdx != pairs[n].actualIdx
    {
      assert !SharesWindow(pairs[i], pairs[n]);
    }
  }

  /** Every window is accounted for once: matched or removed, matched or added. */
  lemma ComparisonCountsAddUp(scores: Scores, c: Comparison, expected: seq<WindowSummary>, actual: seq<WindowSummary>,
                              sameProfile: bool)
    requires scores.expected == |expected| && scores.actual == |actual|
    requires GreedyMatching(scores, c.matched) && Reports(c, expected, actual, sameProfile)
    ensures |c.matched| + |c.removed| == |expected|
    ensures |c.matched| + |c.added| == |actual|
  {
    IndicesAreDistinct(c.matched);
    var e, a := ExpectedIndices(c.matched), ActualIndices(c.matched);
    forall i: nat ensures (i in e ==> i < |expected|) && (i in a ==> i < |actual|) {
      IndexMembers(c.matched, i);
      assert forall p | p in c.matched :: IsCandidate(scores, p);
    }
    UnmatchedCount(|expected|, e);
    UnmatchedCount(|actual|, a);
    assert (set i | i in e && i < |expected|) == e;
    assert (set i | i in a && i < |actual|) == a;
  }

  // ------------------------------------------------------- comparing with itself

  /** A window the score can recognize at all. */
  predicate Recognizable(normalize: Normalizer, s: WindowSummary) {
    || EqualNormalized(normalize, s.processName, s.processName)
    || EqualNormalized(normalize, s.onecProfile, s.onecProfile)
    || EqualNormalized(normalize, s.rootClassName, s.rootClassName)
  }

  /** No pair of windows scores higher than either window does with itself. */
  lemma SelfScoreDominates(normalize: Normalizer, a: WindowSummary, b: WindowSummary)
    ensures MatchScore(normalize, a, b) <= MatchScore(normalize, a, a)
    ensures MatchScore(normalize, a, b) <= MatchScore(normalize, b, b)
    ensures Recognizable(normalize, a) ==> MatchScore(normalize, a, a) >= MIN_SCORE
    ensures !Recognizable(normalize, a) ==> MatchScore(normalize, a, b) == 0
  {
  }

  /** Each window with itself. */
  function Diagonal(scores: Scores): seq<MatchedPair> {
    seq(scores.expected, i requires 0 <= i < scores.expected => MatchedPair(i, i, scores.at(i, i)))
  }

  lemma DiagonalIsGreedy(normalize: Normalizer, x: seq<WindowSummary>)
    requires forall s | s in x :: Recognizable(normalize, s)
    ensures GreedyMatching(ScoreTable(normalize, x, x), Diagonal(ScoreTable(normalize, x, x)))
    ensures Sorted(ExpectedBefore, Diagonal(ScoreTable(normalize, x, x)))
  {
    var scores := ScoreTable(normalize, x, x);
    var diagonal := Diagonal(scores);
    forall p | p in diagonal ensures IsCandidate(scores, p) && p.score >= MIN_SCORE {
      SelfScoreDominates(normalize, x[p.expectedIdx], x[p.expectedIdx]);
    }
    forall pair | IsCandidate(scores, pair) && pair.score >= MIN_SCORE && pair !in diagonal
      ensures exists chosen | chosen in diagonal :: SharesWindow(chosen, pair) && CandidateBefore(chosen, pair)
    {
      var e, a := pair.expectedIdx, pair.actualIdx;
      SelfScoreDominates(normalize, x[e], x[a]);
      assert diagonal[e] in diagonal;
      var chosen := diagonal[if e < a then e else a];
      assert chosen in diagonal && SharesWindow(chosen, pair) && CandidateBefore(chosen, pair);
    }
  }

  lemma {:induction false} NothingChanged(x: seq<WindowSummary>, pairs: seq<MatchedPair>)
    requires forall p | p in pairs :: p.expectedIdx == p.actualIdx < |x|
    ensures ChangedPairs(x, x, pairs) == []
  {
    if pairs != [] {
      assert pairs[0] in pairs;
      NothingChanged(x, pairs[1..]);
    }
  }

  /** Ties notwithstanding, recognizable windows are matched with themselves. */
  lemma SelfMatchIsDiagonal(normalize: Normalizer, x: seq<WindowSummary>, c: Comparison)
    requires GreedyMatching(ScoreTable(normalize, x, x), c.matched) && Sorted(ExpectedBefore, c.matched)
    requires Reports(c, x, x, true)
    requires forall s | s in x :: Recognizable(normalize, s)
    ensures c.matched == Diagonal(ScoreTable(normalize, x, x)) && c.matches
  {
    var scores := ScoreTable(normalize, x, x);
    DiagonalIsGreedy(normalize, x);
    GreedyMatchingIsUnique(scores, c.matched, Diagonal(scores));
    forall i: nat | i < |x| ensures i in ExpectedIndices(c.matched) && i in ActualIndices(c.matched) {
      IndexMembers(c.matched, i);
      assert c.matched[i].expectedIdx == i == c.matched[i].actualIdx;
    }
    UnmatchedCount(|x|, ExpectedIndices(c.matched));
    UnmatchedCount(|x|, ActualIndices(c.matched));
    NothingChanged(x, c.matched);
  }

  /** A window the score cannot recognize is reported on both sides. */
  lemma UnrecognizableIsUnmatched(normalize: Normalizer, x: seq<WindowSummary>, c: Comparison, i: nat)
    requires GreedyMatching(ScoreTable(normalize, x, x), c.matched)
    requires Reports(c, x, x, true)
    requires i < |x| && !Recognizable(normalize, x[i])
    ensures i in c.added && i in c.removed
  {
    forall k | 0 <= k < |c.matched| ensures c.matched[k].expectedIdx != i && c.matched[k].actualIdx != i {
      var p := c.matched[k];
      assert p in c.matched;
      RecognizedPair(normalize, x[p.expectedIdx], x[p.actualIdx]);
    }
    IndexMembers(c.matched, i);
    UnmatchedMember(|x|, ExpectedIndices(c.matched), i);
    UnmatchedMember(|x|, ActualIndices(c.matched), i);
  }

  /**
   Comparing a snapshot with itself reports a match if and only if every window has a
   non-blank process name, profile or root class; then the matching is the diagonal, ties
   notwithstanding, and nothing is added, removed or changed. Any other window is reported
   as both added and removed.
   */
  lemma SelfComparison(normalize: Normalizer, x: seq<WindowSummary>, c: Comparison)
    requires GreedyMatching(ScoreTable(normalize, x, x), c.matched) && Sorted(ExpectedBefore, c.matched)
    requires Reports(c, x, x, true)
    ensures c.matches <==> forall s | s in x :: Recognizable(normalize, s)
    ensures c.matches ==> c.matched == Diagonal(ScoreTable(normalize, x, x))
    ensures forall i: nat | i < |x| && !Recognizable(normalize, x[i]) :: i in c.added && i in c.removed
  {
    forall i: nat | i < |x| && !Recognizable(normalize, x[i]) ensures i in c.added && i in c.removed {
      UnrecognizableIsUnmatched(normalize, x, c, i);
    }
    if forall s | s in x :: Recognizable(normalize, s) {
      SelfMatchIsDiagonal(normalize, x, c);
    }
  }

  lemma RecognizedPair(normalize: Normalizer, a: WindowSummary, b: WindowSummary)
    ensures MatchScore(normalize, a, b) > 0 ==> Recognizable(normalize, a) && Recognizable(normalize, b)
  {
  }

  lemma {:induction false} UnmatchedMember(n: nat, matched: set<nat>, i: nat)
    requires i < n && i !in matched
    ensures i in Unmatched(n, matched)
  {
    if i < n - 1 { UnmatchedMember(n - 1, matched, i); }
  }
}

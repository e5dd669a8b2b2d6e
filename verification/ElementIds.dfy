/**
 Ids of captured windows and elements: hashes of the window fingerprint and of the locator
 path, flattened to text. The hash, with its hexadecimal rendering, is a parameter; string
 normalization is too.
 */
module ElementIds {
  import opened Wrappers
  import opened Domain
  import opened Trees
  import opened Materialize
  import Sorting
  import Text

  type Hash = string -> string

  /** The hash has no collision among the given texts; no hash of fixed width has none at all. */
  ghost predicate InjectiveOn(hash: Hash, texts: set<string>) {
    forall a, b | a in texts && b in texts && hash(a) == hash(b) :: a == b
  }

  function Digit(d: nat): char
    requires d < 10
  {
    "0123456789"[d]
  }

  function Decimal(n: nat): string {
    if n < 10 then [Digit(n)] else Decimal(n / 10) + [Digit(n % 10)]
  }

  function OrdinalText(ordinal: Option<nat>): string {
    if ordinal.Some? then Decimal(ordinal.value) else "-"
  }

  /** A segment's semantic fields, as `LocatorSignature` renders them for the observed node. */
  function SegmentText(normalize: Normalizer, s: LocatorSegment): string {
    "type=" + normalize(s.controlType)
    + "|class=" + NormalizeOptional(normalize, s.className)
    + "|auto=" + NormalizeOptional(normalize, s.automationId)
    + "|name=" + NormalizeOptional(normalize, s.name)
  }

  function SegmentKey(normalize: Normalizer, s: LocatorSegment): string {
    SegmentText(normalize, s) + "|ord=" + OrdinalText(s.siblingOrdinal)
  }

  function Keys(normalize: Normalizer, path: seq<LocatorSegment>): seq<string> {
    seq(|path|, i requires 0 <= i < |path| => SegmentKey(normalize, path[i]))
  }

  function IdOfText(hash: Hash, fingerprint: string, text: string): ElementId {
    "elt-" + hash(fingerprint + "::" + text)
  }

  function ElementIdFrom(normalize: Normalizer, hash: Hash): IdSource {
    (fingerprint: string, path: seq<LocatorSegment>) => IdOfText(hash, fingerprint, Text.Join(Keys(normalize, path), "/"))
  }

  function WindowIdFrom(hash: Hash, fingerprint: string): WindowId {
    "wnd-" + hash(fingerprint)
  }

  // -------------------------------------------------------------- readable keys

  lemma {:induction false} DecimalDigits(n: nat)
    ensures Decimal(n) != [] && forall c | c in Decimal(n) :: '0' <= c <= '9'
  {
    if n >= 10 { DecimalDigits(n / 10); }
  }

  lemma {:induction false} DecimalInjective(a: nat, b: nat)
    requires Decimal(a) == Decimal(b)
    ensures a == b
  {
    if a >= 10 { DecimalDigits(a / 10); }
    if b >= 10 { DecimalDigits(b / 10); }
    var last := Decimal(a)[|Decimal(a)| - 1];
    assert last == Digit(a % 10) && last == Digit(b % 10);
    if a >= 10 {
      assert Decimal(a)[..|Decimal(a)| - 1] == Decimal(a / 10);
      assert Decimal(b)[..|Decimal(b)| - 1] == Decimal(b / 10);
      DecimalInjective(a / 10, b / 10);
    }
  }

  lemma OrdinalTextInjective(a: Option<nat>, b: Option<nat>)
    ensures forall c | c in OrdinalText(a) :: c == '-' || '0' <= c <= '9'
    ensures OrdinalText(a) != []
    ensures OrdinalText(a) == OrdinalText(b) ==> a == b
  {
    if a.Some? { DecimalDigits(a.value); }
    if b.Some? { DecimalDigits(b.value); }
    if a.Some? && b.Some? && OrdinalText(a) == OrdinalText(b) { DecimalInjective(a.value, b.value); }
    if a.Some? && b.None? { assert OrdinalText(a)[0] in OrdinalText(a); }
    if b.Some? && a.None? { assert OrdinalText(b)[0] in OrdinalText(b); }
  }

  /** The ordinal can be read off the end of a key. */
  lemma KeySplits(s: string, o: string, t: string, p: string)
    requires s + "|ord=" + o == t + "|ord=" + p
    requires '|' !in o && '|' !in p
    ensures s == t && o == p
  {
    var all := s + "|ord=" + o;
    assert all[|s|] == '|' && all[|t|] == '|';
    if |s| < |t| { AfterBar(s, o, |t|); }
    if |t| < |s| { AfterBar(t, p, |s|); }
    assert all[..|s|] == s && all[..|t|] == t;
    assert all[|s| + 5..] == o && all[|t| + 5..] == p;
  }

  lemma AfterBar(s: string, o: string, k: nat)
    requires '|' !in o && |s| < k < |s| + 5 + |o|
    ensures (s + "|ord=" + o)[k] != '|'
  {
    if k >= |s| + 5 { assert (s + "|ord=" + o)[k] == o[k - |s| - 5]; }
    else { assert (s + "|ord=" + o)[k] == "|ord="[k - |s|]; }
  }

  /** Siblings' keys differ, whatever their texts contain. */
  lemma SiblingKeysDiffer(normalize: Normalizer, children: seq<RawNode>, i: nat, j: nat)
    requires i < j < |children| <= 0x1_0000_0000
    ensures var sign := LocatorSignature(normalize);
      SegmentKey(normalize, SegmentAt(sign, children, i)) != SegmentKey(normalize, SegmentAt(sign, children, j))
  {
    var sign := LocatorSignature(normalize);
    var a, b := SegmentAt(sign, children, i), SegmentAt(sign, children, j);
    if SegmentKey(normalize, a) == SegmentKey(normalize, b) {
      OrdinalTextInjective(a.siblingOrdinal, b.siblingOrdinal);
      OrdinalTextInjective(b.siblingOrdinal, a.siblingOrdinal);
      KeySplits(SegmentText(normalize, a), OrdinalText(a.siblingOrdinal),
                SegmentText(normalize, b), OrdinalText(b.siblingOrdinal));
      assert sign(children[i]) == SegmentText(normalize, a) && sign(children[j]) == SegmentText(normalize, b);
      SameSignatureOtherOrdinal(sign, children, i, j);
    }
  }

  /** Only the last of the texts shown may contain a bar. */
  predicate BarFree(normalize: Normalizer, s: LocatorSegment) {
    && '|' !in normalize(s.controlType)
    && '|' !in NormalizeOptional(normalize, s.className)
    && '|' !in NormalizeOptional(normalize, s.automationId)
  }

  predicate ShownAlike(normalize: Normalizer, s: LocatorSegment, t: LocatorSegment) {
    && normalize(s.controlType) == normalize(t.controlType)
    && NormalizeOptional(normalize, s.className) == NormalizeOptional(normalize, t.className)
    && NormalizeOptional(normalize, s.automationId) == NormalizeOptional(normalize, t.automationId)
    && NormalizeOptional(normalize, s.name) == NormalizeOptional(normalize, t.name)
  }

  lemma FirstBar(a: string, x: string)
    requires '|' !in a
    ensures (a + ['|'] + x)[|a|] == '|' && forall k | 0 <= k < |a| :: (a + ['|'] + x)[k] != '|'
  {
    assert forall k | 0 <= k < |a| :: (a + ['|'] + x)[k] == a[k];
  }

  lemma BarSplits(a: string, x: string, b: string, y: string)
    requires '|' !in a && '|' !in b && a + ['|'] + x == b + ['|'] + y
    ensures a == b && x == y
  {
    FirstBar(a, x);
    FirstBar(b, y);
    var all := a + ['|'] + x;
    assert |a| == |b|;
    assert all[..|a|] == a && all[..|b|] == b;
    assert all[|a| + 1..] == x && all[|b| + 1..] == y;
  }

  lemma SameBehind(caption: string, x: string, y: string)
    requires caption + x == caption + y
    ensures x == y
  {
    assert x == (caption + x)[|caption|..] && y == (caption + y)[|caption|..];
  }

  lemma LabelledSplits(caption: string, a: string, x: string, b: string, y: string)
    requires '|' !in caption && '|' !in a && '|' !in b
    requires caption + a + (['|'] + x) == caption + b + (['|'] + y)
    ensures a == b && x == y
  {
    assert caption + a + (['|'] + x) == (caption + a) + ['|'] + x && caption + b + (['|'] + y) == (caption + b) + ['|'] + y;
    BarSplits(caption + a, x, caption + b, y);
    SameBehind(caption, a, b);
  }

  function FourFields(a: string, b: string, c: string, d: string): string {
    "type=" + a + (['|'] + ("class=" + b + (['|'] + ("auto=" + c + (['|'] + ("name=" + d))))))
  }

  lemma FieldsSplit(a: string, b: string, c: string, d: string, p: string, q: string, r: string, t: string)
    requires '|' !in a && '|' !in b && '|' !in c && '|' !in p && '|' !in q && '|' !in r
    requires FourFields(a, b, c, d) == FourFields(p, q, r, t)
    ensures a == p && b == q && c == r && d == t
  {
    LabelledSplits("type=", a, "class=" + b + (['|'] + ("auto=" + c + (['|'] + ("name=" + d)))),
                   p, "class=" + q + (['|'] + ("auto=" + r + (['|'] + ("name=" + t)))));
    LabelledSplits("class=", b, "auto=" + c + (['|'] + ("name=" + d)), q, "auto=" + r + (['|'] + ("name=" + t)));
    LabelledSplits("auto=", c, "name=" + d, r, "name=" + t);
    SameBehind("name=", d, t);
  }

  lemma Nested(x: string, bar: string, caption: string, y: string)
    requires bar == ['|'] + caption
    ensures x + bar + y == x + (['|'] + (caption + y))
  {
  }

  lemma FieldsNest(a: string, b: string, c: string, d: string)
    ensures "type=" + a + "|class=" + b + "|auto=" + c + "|name=" + d == FourFields(a, b, c, d)
  {
    var x := "type=" + a;
    var y := x + "|class=" + b;
    Nested(y + "|auto=" + c, "|name=", "name=", d);
    Sorting.Associates(y + "|auto=", c, ['|'] + ("name=" + d));
    Nested(y, "|auto=", "auto=", c + (['|'] + ("name=" + d)));
    Sorting.Associates(x + "|class=", b, ['|'] + ("auto=" + (c + (['|'] + ("name=" + d)))));
    Nested(x, "|class=", "class=", b + (['|'] + ("auto=" + (c + (['|'] + ("name=" + d))))));
    Sorting.Associates("auto=", c, ['|'] + ("name=" + d));
    Sorting.Associates("class=", b, ['|'] + ("auto=" + c + (['|'] + ("name=" + d))));
  }

  lemma TextIsFields(normalize: Normalizer, s: LocatorSegment)
    ensures SegmentText(normalize, s) ==
      FourFields(normalize(s.controlType), NormalizeOptional(normalize, s.className),
                 NormalizeOptional(normalize, s.automationId), NormalizeOptional(normalize, s.name))
  {
    FieldsNest(normalize(s.controlType), NormalizeOptional(normalize, s.className),
               NormalizeOptional(normalize, s.automationId), NormalizeOptional(normalize, s.name));
  }

  /** Segment texts are equal if and only if each field shows the same. */
  lemma TextsTellFields(normalize: Normalizer, s: LocatorSegment, t: LocatorSegment)
    requires BarFree(normalize, s) && BarFree(normalize, t)
    ensures SegmentText(normalize, s) == SegmentText(normalize, t) <==> ShownAlike(normalize, s, t)
  {
    TextIsFields(normalize, s);
    TextIsFields(normalize, t);
    if SegmentText(normalize, s) == SegmentText(normalize, t) {
      FieldsSplit(normalize(s.controlType), NormalizeOptional(normalize, s.className),
                  NormalizeOptional(normalize, s.automationId), NormalizeOptional(normalize, s.name),
                  normalize(t.controlType), NormalizeOptional(normalize, t.className),
                  NormalizeOptional(normalize, t.automationId), NormalizeOptional(normalize, t.name));
    }
  }

  /** Keys are equal if and only if each field shows the same and the ordinals are the same. */
  lemma KeysTellFields(normalize: Normalizer, s: LocatorSegment, t: LocatorSegment)
    requires BarFree(normalize, s) && BarFree(normalize, t)
    ensures SegmentKey(normalize, s) == SegmentKey(normalize, t) <==>
      ShownAlike(normalize, s, t) && s.siblingOrdinal == t.siblingOrdinal
  {
    TextsTellFields(normalize, s, t);
    if SegmentKey(normalize, s) == SegmentKey(normalize, t) {
      OrdinalTextInjective(s.siblingOrdinal, t.siblingOrdinal);
      OrdinalTextInjective(t.siblingOrdinal, s.siblingOrdinal);
      KeySplits(SegmentText(normalize, s), OrdinalText(s.siblingOrdinal),
                SegmentText(normalize, t), OrdinalText(t.siblingOrdinal));
    }
  }

  function Unnumbered(raw: RawNode): LocatorSegment {
    LocatorSegment(raw.controlType, raw.className, raw.automationId, raw.name, None)
  }

  /** Siblings are grouped by what their fields show. */
  lemma SignaturesTellFields(normalize: Normalizer, a: RawNode, b: RawNode)
    requires BarFree(normalize, Unnumbered(a)) && BarFree(normalize, Unnumbered(b))
    ensures LocatorSignature(normalize)(a) == LocatorSignature(normalize)(b) <==>
      ShownAlike(normalize, Unnumbered(a), Unnumbered(b))
  {
    assert LocatorSignature(normalize)(a) == SegmentText(normalize, Unnumbered(a));
    assert LocatorSignature(normalize)(b) == SegmentText(normalize, Unnumbered(b));
    TextsTellFields(normalize, Unnumbered(a), Unnumbered(b));
  }

  // -------------------------------------------------------------- spelled texts

  function ChildKey(normalize: Normalizer, raw: RawNode, i: nat): string
    requires i < |raw.children|
  {
    SegmentKey(normalize, SegmentAt(LocatorSignature(normalize), raw.children, i))
  }

  /** What the ids below a node are hashed from: the keys on the way down, joined by the separator. */
  function Spelled(normalize: Normalizer, raw: RawNode): set<string>
    decreases raw, 1
  {
    set i, text | 0 <= i < |raw.children| && text in SpelledAt(normalize, raw, i) :: text
  }

  /** The texts spelled by child `i` and the nodes below it. */
  function SpelledAt(normalize: Normalizer, raw: RawNode, i: nat): set<string>
    requires i < |raw.children|
    decreases raw, 0
  {
    Under(ChildKey(normalize, raw, i), Spelled(normalize, raw.children[i]))
  }

  /** A key, alone and in front of each of the texts. */
  function Under(key: string, texts: set<string>): set<string> {
    {key} + set text | text in texts :: key + "/" + text
  }

  /** No text is spelled at two different siblings, at any depth. */
  predicate ClashFree(normalize: Normalizer, raw: RawNode) {
    && SiblingsApart(normalize, raw)
    && forall i | 0 <= i < |raw.children| :: ClashFree(normalize, raw.children[i])
  }

  predicate SiblingsApart(normalize: Normalizer, raw: RawNode) {
    forall i, j | 0 <= i < j < |raw.children| :: SpelledAt(normalize, raw, i) !! SpelledAt(normalize, raw, j)
  }

  /** No sibling's key, followed by the separator, begins another sibling's key, at any depth. */
  predicate PrefixFree(normalize: Normalizer, raw: RawNode) {
    && (forall i, j | 0 <= i < |raw.children| && 0 <= j < |raw.children| && i != j ::
      !(ChildKey(normalize, raw, i) + "/" <= ChildKey(normalize, raw, j)))
    && forall i | 0 <= i < |raw.children| :: PrefixFree(normalize, raw.children[i])
  }

  lemma SpelledStartsWithKey(normalize: Normalizer, raw: RawNode, i: nat, text: string)
    requires i < |raw.children| && text in SpelledAt(normalize, raw, i)
    ensures text == ChildKey(normalize, raw, i) || ChildKey(normalize, raw, i) + "/" <= text
    ensures text != ""
  {
    KeyIsNotEmpty(normalize, raw, i);
  }

  lemma KeyIsNotEmpty(normalize: Normalizer, raw: RawNode, i: nat)
    requires i < |raw.children|
    ensures ChildKey(normalize, raw, i) != ""
  {
    assert ChildKey(normalize, raw, i)[0] == 't';
  }

  /** Prefixes are easy to look at; they are what a clash takes. */
  lemma {:induction false} PrefixFreeIsClashFree(normalize: Normalizer, raw: RawNode)
    requires Countable(raw) && PrefixFree(normalize, raw)
    ensures ClashFree(normalize, raw)
  {
    forall i | 0 <= i < |raw.children| ensures ClashFree(normalize, raw.children[i]) {
      PrefixFreeIsClashFree(normalize, raw.children[i]);
    }
    forall i, j, text | 0 <= i < j < |raw.children| && text in SpelledAt(normalize, raw, i)
      ensures text !in SpelledAt(normalize, raw, j)
    {
      if text in SpelledAt(normalize, raw, j) {
        SpelledStartsWithKey(normalize, raw, i, text);
        SpelledStartsWithKey(normalize, raw, j, text);
        SiblingKeysDiffer(normalize, raw.children, i, j);
        TwoBeginnings(ChildKey(normalize, raw, i), ChildKey(normalize, raw, j), text);
      }
    }
  }

  lemma TwoBeginnings(a: string, b: string, text: string)
    requires a != b
    requires text == a || a + "/" <= text
    requires text == b || b + "/" <= text
    ensures a + "/" <= b || b + "/" <= a
  {
    assert a == text[..|a|] && b == text[..|b|];
    if |a| < |b| { assert a + "/" == text[..|a| + 1] == b[..|a| + 1]; }
    if |b| < |a| { assert b + "/" == text[..|b| + 1] == a[..|b| + 1]; }
  }

  // -------------------------------------------------------------- unique element ids

  function Tree(normalize: Normalizer, hash: Hash, fingerprint: string, raw: RawNode, parentId: Option<ElementId>,
                path: seq<LocatorSegment>): ElementNode {
    MaterializeNode(LocatorSignature(normalize), ElementIdFrom(normalize, hash), fingerprint, raw, parentId, path)
  }

  function ChildPath(normalize: Normalizer, raw: RawNode, path: seq<LocatorSegment>, i: nat): seq<LocatorSegment>
    requires i < |raw.children|
  {
    path + [SegmentAt(LocatorSignature(normalize), raw.children, i)]
  }

  lemma ChildTree(normalize: Normalizer, hash: Hash, fingerprint: string, raw: RawNode, parentId: Option<ElementId>,
                  path: seq<LocatorSegment>, i: nat)
    requires i < |raw.children|
    ensures var node := Tree(normalize, hash, fingerprint, raw, parentId, path);
      && |node.children| == |raw.children|
      && node.elementId == ElementIdFrom(normalize, hash)(fingerprint, path)
      && node.children[i] == Tree(normalize, hash, fingerprint, raw.children[i], Some(node.elementId),
                                  ChildPath(normalize, raw, path, i))
  {
  }

  /** The part of a key that every id below a path shares. */
  function Above(normalize: Normalizer, path: seq<LocatorSegment>): string {
    if path == [] then "" else Text.Join(Keys(normalize, path), "/") + "/"
  }

  /** Ids of one hash each; behind one fingerprint different texts make different keys. */
  lemma SameIdSameHash(hash: Hash, fingerprint: string, a: string, b: string)
    ensures IdOfText(hash, fingerprint, a) == IdOfText(hash, fingerprint, b)
      <==> hash(fingerprint + "::" + a) == hash(fingerprint + "::" + b)
    ensures fingerprint + "::" + a == fingerprint + "::" + b ==> a == b
  {
    var x, y := fingerprint + "::" + a, fingerprint + "::" + b;
    assert ("elt-" + hash(x))[4..] == hash(x) && ("elt-" + hash(y))[4..] == hash(y);
    assert x[|fingerprint| + 2..] == a && y[|fingerprint| + 2..] == b;
  }

  /** What a tree's own id is hashed from. */
  function OwnText(normalize: Normalizer, fingerprint: string, path: seq<LocatorSegment>): string {
    fingerprint + "::" + Text.Join(Keys(normalize, path), "/")
  }

  /** What the ids of a tree are hashed from. */
  function HashedTexts(normalize: Normalizer, fingerprint: string, raw: RawNode, path: seq<LocatorSegment>): set<string> {
    {OwnText(normalize, fingerprint, path)}
    + set text | text in Spelled(normalize, raw) :: fingerprint + "::" + (Above(normalize, path) + text)
  }

  lemma SpelledIsHashed(normalize: Normalizer, fingerprint: string, raw: RawNode, path: seq<LocatorSegment>, i: nat,
                        text: string)
    requires i < |raw.children| && text in SpelledAt(normalize, raw, i)
    ensures fingerprint + "::" + (Above(normalize, path) + text) in HashedTexts(normalize, fingerprint, raw, path)
  {
    assert text in Spelled(normalize, raw);
  }

  /** A child's ids are hashed from what the child spells, above its own path or its parent's. */
  lemma ChildHashedTexts(normalize: Normalizer, fingerprint: string, raw: RawNode, path: seq<LocatorSegment>, i: nat,
                         x: string)
    requires i < |raw.children|
    ensures x in HashedTexts(normalize, fingerprint, raw.children[i], ChildPath(normalize, raw, path, i))
      <==> exists text | text in SpelledAt(normalize, raw, i) :: x == fingerprint + "::" + (Above(normalize, path) + text)
  {
    var key, above := ChildKey(normalize, raw, i), Above(normalize, path);
    var below := ChildPath(normalize, raw, path, i);
    ChildTexts(normalize, raw, path, i);
    KeyIsSpelled(normalize, raw, i);
    if x in HashedTexts(normalize, fingerprint, raw.children[i], below) {
      if x != fingerprint + "::" + (above + key) {
        var rest :|
          rest in Spelled(normalize, raw.children[i]) && x == fingerprint + "::" + (Above(normalize, below) + rest);
        Regrouped(above, key, rest);
        assert key + "/" + rest in SpelledAt(normalize, raw, i);
      }
    }
    if text :| text in SpelledAt(normalize, raw, i) && x == fingerprint + "::" + (above + text) {
      if text != key {
        var k, rest := SpelledRest(normalize, raw, i, text);
        Regrouped(above, key, rest);
        assert rest in Spelled(normalize, raw.children[i]);
      }
    }
  }

  lemma ChildHashedBelow(normalize: Normalizer, fingerprint: string, raw: RawNode, path: seq<LocatorSegment>, i: nat)
    requires i < |raw.children|
    ensures HashedTexts(normalize, fingerprint, raw.children[i], ChildPath(normalize, raw, path, i))
      <= HashedTexts(normalize, fingerprint, raw, path)
  {
    forall x | x in HashedTexts(normalize, fingerprint, raw.children[i], ChildPath(normalize, raw, path, i))
      ensures x in HashedTexts(normalize, fingerprint, raw, path)
    {
      ChildHashedTexts(normalize, fingerprint, raw, path, i, x);
      var text :| text in SpelledAt(normalize, raw, i) && x == fingerprint + "::" + (Above(normalize, path) + text);
      SpelledIsHashed(normalize, fingerprint, raw, path, i, text);
    }
  }

  lemma {:induction false} JoinSnoc(parts: seq<string>, last: string)
    ensures Text.Join(parts + [last], "/") == (if parts == [] then "" else Text.Join(parts, "/") + "/") + last
    decreases |parts|
  {
    if parts != [] {
      JoinSnoc(parts[1..], last);
      assert (parts + [last])[1..] == parts[1..] + [last];
    }
  }

  /** One step down: the child's own text, and what it puts above the texts below it. */
  lemma ChildTexts(normalize: Normalizer, raw: RawNode, path: seq<LocatorSegment>, i: nat)
    requires i < |raw.children|
    ensures var below := ChildPath(normalize, raw, path, i);
      && Text.Join(Keys(normalize, below), "/") == Above(normalize, path) + ChildKey(normalize, raw, i)
      && Above(normalize, below) == Above(normalize, path) + ChildKey(normalize, raw, i) + "/"
  {
    var below := ChildPath(normalize, raw, path, i);
    assert Keys(normalize, below) == Keys(normalize, path) + [ChildKey(normalize, raw, i)];
    JoinSnoc(Keys(normalize, path), ChildKey(normalize, raw, i));
  }

  /** A child's own id. */
  lemma ChildId(normalize: Normalizer, hash: Hash, fingerprint: string, raw: RawNode, parentId: Option<ElementId>,
                path: seq<LocatorSegment>, i: nat)
    requires i < |raw.children|
    ensures Tree(normalize, hash, fingerprint, raw, parentId, path).children[i].elementId
      == IdOfText(hash, fingerprint, Above(normalize, path) + ChildKey(normalize, raw, i))
  {
    ChildTree(normalize, hash, fingerprint, raw, parentId, path, i);
    ChildTexts(normalize, raw, path, i);
  }

  lemma ChildSpells(normalize: Normalizer, raw: RawNode, i: nat, k: nat, rest: string)
    requires i < |raw.children| && k < |raw.children[i].children|
    requires rest in SpelledAt(normalize, raw.children[i], k)
    ensures ChildKey(normalize, raw, i) + "/" + rest in SpelledAt(normalize, raw, i)
  {
    assert rest in Spelled(normalize, raw.children[i]);
  }

  lemma KeyIsSpelled(normalize: Normalizer, raw: RawNode, i: nat)
    requires i < |raw.children|
    ensures ChildKey(normalize, raw, i) in SpelledAt(normalize, raw, i)
  {
  }

  lemma SpelledRest(normalize: Normalizer, raw: RawNode, i: nat, text: string) returns (k: nat, rest: string)
    requires i < |raw.children| && text in SpelledAt(normalize, raw, i) && text != ChildKey(normalize, raw, i)
    ensures k < |raw.children[i].children| && rest in SpelledAt(normalize, raw.children[i], k)
    ensures text == ChildKey(normalize, raw, i) + "/" + rest
  {
    rest :| rest in Spelled(normalize, raw.children[i]) && text == ChildKey(normalize, raw, i) + "/" + rest;
    k := Speller(normalize, raw.children[i], rest);
  }

  lemma Speller(normalize: Normalizer, raw: RawNode, text: string) returns (k: nat)
    requires text in Spelled(normalize, raw)
    ensures k < |raw.children| && text in SpelledAt(normalize, raw, k)
  {
    k :| 0 <= k < |raw.children| && text in SpelledAt(normalize, raw, k);
  }

  /** Every id at or below a child is hashed from a text it spells. */
  lemma {:induction false} IdIsSpelled(normalize: Normalizer, hash: Hash, fingerprint: string, raw: RawNode,
                                       parentId: Option<ElementId>, path: seq<LocatorSegment>, i: nat, id: ElementId)
    returns (text: string)
    requires i < |raw.children|
    requires Contains(Tree(normalize, hash, fingerprint, raw, parentId, path).children[i], id)
    ensures text in SpelledAt(normalize, raw, i) && id == IdOfText(hash, fingerprint, Above(normalize, path) + text)
    decreases raw
  {
    var node := Tree(normalize, hash, fingerprint, raw, parentId, path);
    var key := ChildKey(normalize, raw, i);
    ChildTree(normalize, hash, fingerprint, raw, parentId, path, i);
    ChildId(normalize, hash, fingerprint, raw, parentId, path, i);
    KeyIsSpelled(normalize, raw, i);
    text := key;
    if node.children[i].elementId != id {
      var k :| 0 <= k < |node.children[i].children| && Contains(node.children[i].children[k], id);
      var rest := IdIsSpelled(normalize, hash, fingerprint, raw.children[i], Some(node.elementId),
                              ChildPath(normalize, raw, path, i), k, id);
      ChildSpells(normalize, raw, i, k, rest);
      ChildTexts(normalize, raw, path, i);
      Regrouped(Above(normalize, path), key, rest);
      text := key + "/" + rest;
    }
  }

  lemma Regrouped(above: string, key: string, rest: string)
    ensures above + (key + "/" + rest) == above + key + "/" + rest
  {
  }

  /** Every text a child spells is hashed to an id at or below it. */
  lemma {:induction false} SpelledIsId(normalize: Normalizer, hash: Hash, fingerprint: string, raw: RawNode,
                                       parentId: Option<ElementId>, path: seq<LocatorSegment>, i: nat, text: string)
    requires i < |raw.children| && text in SpelledAt(normalize, raw, i)
    ensures Contains(Tree(normalize, hash, fingerprint, raw, parentId, path).children[i],
                     IdOfText(hash, fingerprint, Above(normalize, path) + text))
    decreases raw
  {
    var node := Tree(normalize, hash, fingerprint, raw, parentId, path);
    var key := ChildKey(normalize, raw, i);
    ChildTree(normalize, hash, fingerprint, raw, parentId, path, i);
    ChildId(normalize, hash, fingerprint, raw, parentId, path, i);
    if text != key {
      var k, rest := SpelledRest(normalize, raw, i, text);
      ChildTexts(normalize, raw, path, i);
      Regrouped(Above(normalize, path), key, rest);
      SpelledIsId(normalize, hash, fingerprint, raw.children[i], Some(node.elementId),
                  ChildPath(normalize, raw, path, i), k, rest);
    }
  }

  /** Siblings that spell a common text share an id, whatever the hash. */
  lemma DisjointSpellApart(normalize: Normalizer, hash: Hash, fingerprint: string, raw: RawNode,
                           parentId: Option<ElementId>, path: seq<LocatorSegment>, i: nat, j: nat)
    requires i < |raw.children| && j < |raw.children|
    requires var nodes := Tree(normalize, hash, fingerprint, raw, parentId, path).children;
      Disjoint(nodes[i], nodes[j])
    ensures SpelledAt(normalize, raw, i) !! SpelledAt(normalize, raw, j)
  {
    if text :| text in SpelledAt(normalize, raw, i) && text in SpelledAt(normalize, raw, j) {
      SpelledIsId(normalize, hash, fingerprint, raw, parentId, path, i, text);
      SpelledIsId(normalize, hash, fingerprint, raw, parentId, path, j, text);
    }
  }

  /** Siblings that spell no common text share no id, unless two of the texts collide. */
  lemma SpelledApartDisjoint(normalize: Normalizer, hash: Hash, fingerprint: string, raw: RawNode,
                             parentId: Option<ElementId>, path: seq<LocatorSegment>, i: nat, j: nat)
    requires InjectiveOn(hash, HashedTexts(normalize, fingerprint, raw, path))
    requires i < |raw.children| && j < |raw.children| && SpelledAt(normalize, raw, i) !! SpelledAt(normalize, raw, j)
    ensures var nodes := Tree(normalize, hash, fingerprint, raw, parentId, path).children;
      Disjoint(nodes[i], nodes[j])
  {
    var node := Tree(normalize, hash, fingerprint, raw, parentId, path);
    var above := Above(normalize, path);
    if id :| Contains(node.children[i], id) && Contains(node.children[j], id) {
      var a := IdIsSpelled(normalize, hash, fingerprint, raw, parentId, path, i, id);
      var b := IdIsSpelled(normalize, hash, fingerprint, raw, parentId, path, j, id);
      SamePrefix(above, a, b);
      SpelledIsHashed(normalize, fingerprint, raw, path, i, a);
      SpelledIsHashed(normalize, fingerprint, raw, path, j, b);
      SameIdSameHash(hash, fingerprint, above + a, above + b);
    }
  }

  lemma SamePrefix(prefix: string, a: string, b: string)
    ensures prefix + a == prefix + b ==> a == b
  {
    assert (prefix + a)[|prefix|..] == a && (prefix + b)[|prefix|..] == b;
  }

  /** A node's own id is hashed from a shorter text than any below it. */
  lemma OwnIdNotBelow(normalize: Normalizer, hash: Hash, fingerprint: string, raw: RawNode, parentId: Option<ElementId>,
                      path: seq<LocatorSegment>, i: nat)
    requires InjectiveOn(hash, HashedTexts(normalize, fingerprint, raw, path)) && i < |raw.children|
    ensures var node := Tree(normalize, hash, fingerprint, raw, parentId, path);
      !Contains(node.children[i], node.elementId)
  {
    var own, above := Text.Join(Keys(normalize, path), "/"), Above(normalize, path);
    var id := IdOfText(hash, fingerprint, own);
    if Contains(Tree(normalize, hash, fingerprint, raw, parentId, path).children[i], id) {
      var text := IdIsSpelled(normalize, hash, fingerprint, raw, parentId, path, i, id);
      SpelledStartsWithKey(normalize, raw, i, text);
      assert |own| < |above + text|;
      SpelledIsHashed(normalize, fingerprint, raw, path, i, text);
      SameIdSameHash(hash, fingerprint, own, above + text);
    }
  }

  ghost predicate PairwiseDisjoint(nodes: seq<ElementNode>) {
    forall i, j | 0 <= i < j < |nodes| :: Disjoint(nodes[i], nodes[j])
  }

  /** Where no two texts collide, a tree that spells no text twice repeats no id. */
  lemma {:induction false} ClashFreeIdsAreUnique(normalize: Normalizer, hash: Hash, fingerprint: string, raw: RawNode,
                                                 parentId: Option<ElementId>, path: seq<LocatorSegment>)
    requires ClashFree(normalize, raw) && InjectiveOn(hash, HashedTexts(normalize, fingerprint, raw, path))
    ensures UniqueElementIds(Tree(normalize, hash, fingerprint, raw, parentId, path))
    decreases raw
  {
    var node := Tree(normalize, hash, fingerprint, raw, parentId, path);
    forall i | 0 <= i < |raw.children|
      ensures UniqueElementIds(node.children[i]) && !Contains(node.children[i], node.elementId)
    {
      ChildTree(normalize, hash, fingerprint, raw, parentId, path, i);
      ChildHashedBelow(normalize, fingerprint, raw, path, i);
      ClashFreeIdsAreUnique(normalize, hash, fingerprint, raw.children[i], Some(node.elementId),
                            ChildPath(normalize, raw, path, i));
      OwnIdNotBelow(normalize, hash, fingerprint, raw, parentId, path, i);
    }
    ApartChildrenAreDisjoint(normalize, hash, fingerprint, raw, parentId, path);
    UniqueFromParts(node);
  }

  lemma ApartChildrenAreDisjoint(normalize: Normalizer, hash: Hash, fingerprint: string, raw: RawNode,
                                 parentId: Option<ElementId>, path: seq<LocatorSegment>)
    requires SiblingsApart(normalize, raw) && InjectiveOn(hash, HashedTexts(normalize, fingerprint, raw, path))
    ensures PairwiseDisjoint(Tree(normalize, hash, fingerprint, raw, parentId, path).children)
  {
    var nodes := Tree(normalize, hash, fingerprint, raw, parentId, path).children;
    forall i, j | 0 <= i < j < |nodes| ensures Disjoint(nodes[i], nodes[j]) {
      SpelledApartDisjoint(normalize, hash, fingerprint, raw, parentId, path, i, j);
    }
  }

  lemma UniqueFromParts(node: ElementNode)
    requires forall i | 0 <= i < |node.children| ::
      UniqueElementIds(node.children[i]) && !Contains(node.children[i], node.elementId)
    requires PairwiseDisjoint(node.children)
    ensures UniqueElementIds(node)
  {
  }

  /** A tree without a repeated id spells no text twice. */
  lemma {:induction false} UniqueIdsAreClashFree(normalize: Normalizer, hash: Hash, fingerprint: string, raw: RawNode,
                                                 parentId: Option<ElementId>, path: seq<LocatorSegment>)
    requires UniqueElementIds(Tree(normalize, hash, fingerprint, raw, parentId, path))
    ensures ClashFree(normalize, raw)
    decreases raw
  {
    var node := Tree(normalize, hash, fingerprint, raw, parentId, path);
    forall i | 0 <= i < |raw.children| ensures ClashFree(normalize, raw.children[i]) {
      ChildTree(normalize, hash, fingerprint, raw, parentId, path, i);
      UniqueIdsAreClashFree(normalize, hash, fingerprint, raw.children[i], Some(node.elementId),
                            ChildPath(normalize, raw, path, i));
    }
    forall i, j | 0 <= i < j < |raw.children| ensures SpelledAt(normalize, raw, i) !! SpelledAt(normalize, raw, j) {
      DisjointSpellApart(normalize, hash, fingerprint, raw, parentId, path, i, j);
    }
  }

  /** The child a text hashed below the root belongs to. */
  lemma HashedAt(normalize: Normalizer, hash: Hash, fingerprint: string, raw: RawNode, parentId: Option<ElementId>,
                 path: seq<LocatorSegment>, x: string) returns (i: nat)
    requires x in HashedTexts(normalize, fingerprint, raw, path) && x != OwnText(normalize, fingerprint, path)
    ensures i < |raw.children|
    ensures x in HashedTexts(normalize, fingerprint, raw.children[i], ChildPath(normalize, raw, path, i))
    ensures Contains(Tree(normalize, hash, fingerprint, raw, parentId, path).children[i], "elt-" + hash(x))
  {
    var text :| text in Spelled(normalize, raw) && x == fingerprint + "::" + (Above(normalize, path) + text);
    i := Speller(normalize, raw, text);
    ChildHashedTexts(normalize, fingerprint, raw, path, i, x);
    SpelledIsId(normalize, hash, fingerprint, raw, parentId, path, i, text);
  }

  lemma ChildrenShareNothing(node: ElementNode, i: nat, j: nat, id: ElementId)
    requires UniqueElementIds(node) && i < |node.children| && j < |node.children|
    requires Contains(node.children[i], id) && Contains(node.children[j], id)
    ensures i == j && id != node.elementId
  {
    assert i < j ==> Disjoint(node.children[i], node.children[j]);
    assert j < i ==> Disjoint(node.children[j], node.children[i]);
  }

  /** A text that shares its hash with the tree's own one is that one. */
  lemma OwnTextDoesNotCollide(normalize: Normalizer, hash: Hash, fingerprint: string, raw: RawNode,
                              parentId: Option<ElementId>, path: seq<LocatorSegment>, x: string)
    requires UniqueElementIds(Tree(normalize, hash, fingerprint, raw, parentId, path))
    requires x in HashedTexts(normalize, fingerprint, raw, path)
    requires hash(x) == hash(OwnText(normalize, fingerprint, path))
    ensures x == OwnText(normalize, fingerprint, path)
  {
    if x != OwnText(normalize, fingerprint, path) {
      var i := HashedAt(normalize, hash, fingerprint, raw, parentId, path, x);
      ChildrenShareNothing(Tree(normalize, hash, fingerprint, raw, parentId, path), i, i, "elt-" + hash(x));
    }
  }

  /** Nor do two of its texts collide. */
  lemma {:induction false} UniqueIdsDoNotCollide(normalize: Normalizer, hash: Hash, fingerprint: string, raw: RawNode,
                                                 parentId: Option<ElementId>, path: seq<LocatorSegment>, x: string,
                                                 y: string)
    requires UniqueElementIds(Tree(normalize, hash, fingerprint, raw, parentId, path))
    requires x in HashedTexts(normalize, fingerprint, raw, path) && y in HashedTexts(normalize, fingerprint, raw, path)
    requires hash(x) == hash(y)
    ensures x == y
    decreases raw
  {
    var own := OwnText(normalize, fingerprint, path);
    if x == own {
      OwnTextDoesNotCollide(normalize, hash, fingerprint, raw, parentId, path, y);
    } else if y == own {
      OwnTextDoesNotCollide(normalize, hash, fingerprint, raw, parentId, path, x);
    } else {
      var node := Tree(normalize, hash, fingerprint, raw, parentId, path);
      var i := HashedAt(normalize, hash, fingerprint, raw, parentId, path, x);
      var j := HashedAt(normalize, hash, fingerprint, raw, parentId, path, y);
      ChildrenShareNothing(node, i, j, "elt-" + hash(x));
      ChildTree(normalize, hash, fingerprint, raw, parentId, path, i);
      UniqueIdsDoNotCollide(normalize, hash, fingerprint, raw.children[i], Some(node.elementId),
                            ChildPath(normalize, raw, path, i), x, y);
    }
  }

  /**
   Exact condition: a captured tree repeats no id if and only if no text is spelled at two
   different siblings and the hash has no collision among the texts of that very tree. Names
   may contain anything, the path separator included.
   */
  lemma CapturedIdsUniqueIff(normalize: Normalizer, hash: Hash, fingerprint: string, raw: RawNode,
                             parentId: Option<ElementId>, path: seq<LocatorSegment>)
    ensures UniqueElementIds(Tree(normalize, hash, fingerprint, raw, parentId, path))
      <==> ClashFree(normalize, raw) && InjectiveOn(hash, HashedTexts(normalize, fingerprint, raw, path))
  {
    if UniqueElementIds(Tree(normalize, hash, fingerprint, raw, parentId, path)) {
      UniqueIdsAreClashFree(normalize, hash, fingerprint, raw, parentId, path);
      var texts := HashedTexts(normalize, fingerprint, raw, path);
      forall x, y | x in texts && y in texts && hash(x) == hash(y) ensures x == y {
        UniqueIdsDoNotCollide(normalize, hash, fingerprint, raw, parentId, path, x, y);
      }
    } else if ClashFree(normalize, raw) && InjectiveOn(hash, HashedTexts(normalize, fingerprint, raw, path)) {
      ClashFreeIdsAreUnique(normalize, hash, fingerprint, raw, parentId, path);
    }
  }

  // ------------------------------------------------------------- a repeated id

  const STEM := "type=t|class=-|auto=-|name="
  const NO_ORDINAL := "|ord=-"
  const PLAIN_STATES := ElementStates(true, true, false, false, false, false)

  function Plain(name: string, children: seq<RawNode>): RawNode {
    RawNode(Uia, "t", None, Some(name), None, None, Rect(0, 0, 0, 0), map[], PLAIN_STATES, children, 1.0)
  }

  /** The name that spells the way to a child named `b` of a sibling named `a`. */
  function SpellingName(a: string, b: string): string {
    a + NO_ORDINAL + "/" + STEM + b
  }

  lemma SignatureOfPlain(normalize: Normalizer, name: string, children: seq<RawNode>)
    requires normalize("t") == "t" && normalize(name) == name && name != ""
    ensures LocatorSignature(normalize)(Plain(name, children)) == STEM + name
  {
  }

  /** A node whose signature no sibling shares gets no ordinal. */
  lemma KeyOfPlain(normalize: Normalizer, children: seq<RawNode>, i: nat, name: string, below: seq<RawNode>)
    requires i < |children| && children[i] == Plain(name, below)
    requires normalize("t") == "t" && normalize(name) == name && name != ""
    requires forall j | 0 <= j < |children| && j != i :: LocatorSignature(normalize)(children[j]) != STEM + name
    ensures SegmentKey(normalize, SegmentAt(LocatorSignature(normalize), children, i)) == STEM + name + NO_ORDINAL
  {
    var sign := LocatorSignature(normalize);
    SignatureOfPlain(normalize, name, below);
    OneOccurrence(sign, children, i, |children|);
    assert SegmentText(normalize, SegmentAt(sign, children, i)) == STEM + name;
  }

  /** Among the first `n` nodes a signature that only node `i` has occurs once, if node `i` is among them. */
  lemma {:induction false} OneOccurrence(sign: Signer, children: seq<RawNode>, i: nat, n: nat)
    requires i < |children| && n <= |children|
    requires forall j | 0 <= j < n && j != i :: sign(children[j]) != sign(children[i])
    ensures Occurrences(sign, children, n, sign(children[i])) == if i < n then 1 else 0
    decreases n
  {
    if n > 0 { OneOccurrence(sign, children, i, n - 1); }
  }

  /**
   The input that repeats an id, whatever the hash: a name may spell the way to a sibling's
   child. The normalizer only has to leave the four texts in question alone, as trimming and
   lower-casing do for lower-case names.
   */
  lemma SpellingNameRepeatsId(normalize: Normalizer, hash: Hash, fingerprint: string, a: string, b: string)
    requires a != "" && b != ""
    requires forall s | s in {"t", a, b, SpellingName(a, b)} :: normalize(s) == s
    ensures var raw := Plain("t", [Plain(SpellingName(a, b), []), Plain(a, [Plain(b, [])])]);
      !UniqueElementIds(Tree(normalize, hash, fingerprint, raw, None, []))
  {
    var inner, name := [Plain(b, [])], SpellingName(a, b);
    var children := [Plain(name, []), Plain(a, inner)];
    var raw := Plain("t", children);
    SignatureOfPlain(normalize, name, []);
    SignatureOfPlain(normalize, a, inner);
    assert |STEM + a| < |STEM + name|;
    KeyOfPlain(normalize, children, 0, name, []);
    KeyOfPlain(normalize, children, 1, a, inner);
    KeyOfPlain(normalize, inner, 0, b, []);
    Reassociated(STEM, a, NO_ORDINAL, "/", b);
    var text := STEM + name + NO_ORDINAL;
    assert STEM + b + NO_ORDINAL in SpelledAt(normalize, children[1], 0);
    assert STEM + b + NO_ORDINAL in Spelled(normalize, children[1]);
    assert text in SpelledAt(normalize, raw, 0) && text in SpelledAt(normalize, raw, 1);
    SpelledIsId(normalize, hash, fingerprint, raw, None, [], 0, text);
    SpelledIsId(normalize, hash, fingerprint, raw, None, [], 1, text);
  }

  lemma Reassociated(stem: string, a: string, ordinal: string, separator: string, b: string)
    ensures stem + (a + ordinal + separator + stem + b) + ordinal
      == (stem + a + ordinal) + separator + (stem + b + ordinal)
  {
  }

  // --------------------------------------------------------- whole desktops

  /**
   How captured windows are named: the normalizer, the hash, and all texts ever hashed, a
   finite set.
   */
  datatype Naming = Naming(normalize: Normalizer, hash: Hash, texts: set<string>)

  /** None of the texts hashed collide. */
  ghost predicate Collisionless(naming: Naming) {
    InjectiveOn(naming.hash, naming.texts)
  }

  /** A window as captured: its id hashes its fingerprint, its tree is materialized. */
  ghost predicate Captured(naming: Naming, window: WindowState) {
    exists fingerprint, raw :: CapturedFrom(naming, window, fingerprint, raw)
  }

  ghost predicate CapturedFrom(naming: Naming, window: WindowState, fingerprint: string, raw: RawNode) {
    && Countable(raw)
    && window.windowId == WindowIdFrom(naming.hash, fingerprint)
    && window.root == Tree(naming.normalize, naming.hash, fingerprint, raw, None, [])
    && fingerprint in naming.texts
    && HashedTexts(naming.normalize, fingerprint, raw, []) <= naming.texts
  }

  /** A root's key ends in the separator after the fingerprint, any other key in an ordinal. */
  lemma {:induction false} SpelledEndInOrdinals(normalize: Normalizer, raw: RawNode, i: nat, text: string)
    requires i < |raw.children| && text in SpelledAt(normalize, raw, i)
    ensures text != "" && text[|text| - 1] != ':'
    decreases raw
  {
    var key := ChildKey(normalize, raw, i);
    KeyEndsInOrdinal(normalize, SegmentAt(LocatorSignature(normalize), raw.children, i));
    if text != key {
      var k, rest := SpelledRest(normalize, raw, i, text);
      SpelledEndInOrdinals(normalize, raw.children[i], k, rest);
      assert text[|text| - 1] == rest[|rest| - 1];
    }
  }

  lemma KeyEndsInOrdinal(normalize: Normalizer, s: LocatorSegment)
    ensures var key := SegmentKey(normalize, s); key != "" && key[|key| - 1] != ':'
  {
    var key, o := SegmentKey(normalize, s), OrdinalText(s.siblingOrdinal);
    OrdinalTextInjective(s.siblingOrdinal, s.siblingOrdinal);
    assert o[|o| - 1] in o;
    assert key[|key| - 1] == o[|o| - 1];
  }

  /** A root's id is hashed from its fingerprint alone. */
  function RootIdFrom(hash: Hash, fingerprint: string): ElementId {
    IdOfText(hash, fingerprint, "")
  }

  function RootText(fingerprint: string): string {
    fingerprint + "::" + ""
  }

  /** An id of this form is never a root's. */
  predicate IsInnerKey(key: string) {
    key != "" && key[|key| - 1] != ':'
  }

  ghost predicate InnerId(naming: Naming, id: ElementId) {
    exists key | key in naming.texts && IsInnerKey(key) :: id == "elt-" + naming.hash(key)
  }

  lemma RootIdsAreNotInner(naming: Naming, fingerprint: string)
    requires Collisionless(naming) && RootText(fingerprint) in naming.texts
    ensures !InnerId(naming, RootIdFrom(naming.hash, fingerprint))
  {
    var a, hash := RootText(fingerprint), naming.hash;
    assert a[|a| - 1] == ':';
    assert ("elt-" + hash(a))[4..] == hash(a);
    forall key | key in naming.texts && IsInnerKey(key) ensures RootIdFrom(hash, fingerprint) != "elt-" + hash(key) {
      assert ("elt-" + hash(key))[4..] == hash(key);
    }
  }

  lemma RootIdsTellFingerprints(naming: Naming, fingerprint: string, other: string)
    requires Collisionless(naming) && RootText(fingerprint) in naming.texts && RootText(other) in naming.texts
    requires RootIdFrom(naming.hash, fingerprint) == RootIdFrom(naming.hash, other)
    ensures fingerprint == other
  {
    var a, b, hash := RootText(fingerprint), RootText(other), naming.hash;
    assert ("elt-" + hash(a))[4..] == hash(a) && ("elt-" + hash(b))[4..] == hash(b);
    assert a[..|a| - 2] == fingerprint && b[..|b| - 2] == other;
  }

  /** The root's id is hashed from its fingerprint, and below the root every id is an inner one. */
  lemma CapturedRootText(naming: Naming, window: WindowState, fingerprint: string, raw: RawNode)
    requires CapturedFrom(naming, window, fingerprint, raw)
    ensures RootText(fingerprint) in naming.texts && window.root.elementId == RootIdFrom(naming.hash, fingerprint)
  {
    assert RootText(fingerprint) in HashedTexts(naming.normalize, fingerprint, raw, []);
  }

  lemma CapturedInnerIds(naming: Naming, window: WindowState, fingerprint: string, raw: RawNode, i: nat, id: ElementId)
    requires CapturedFrom(naming, window, fingerprint, raw)
    requires i < |window.root.children| && Contains(window.root.children[i], id)
    ensures InnerId(naming, id)
  {
    var text := IdIsSpelled(naming.normalize, naming.hash, fingerprint, raw, None, [], i, id);
    SpelledEndInOrdinals(naming.normalize, raw, i, text);
    SpelledIsHashed(naming.normalize, fingerprint, raw, [], i, text);
    assert "" + text == text;
    var key := fingerprint + "::" + text;
    assert key[|key| - 1] == text[|text| - 1];
    assert IsInnerKey(key) && key in naming.texts;
  }
}

/**
 What the single-node operations mean: which node they reach, what they change in it, and
 that nothing else changes.
 */
module EditLaws {
  import opened Wrappers
  import opened Domain
  import opened Trees
  import opened StateStore
  import opened Materialize
  import Sorting

  // ---------------------------------------------------------- property changes

  function TextRead(text: Option<string>): PropertyValue {
    if text.Some? then TextValue(text.value) else NullValue
  }

  function StateRead(states: ElementStates, flag: StateFlag): bool {
    match flag
    case EnabledFlag => states.enabled
    case VisibleFlag => states.visible
    case FocusedFlag => states.focused
    case SelectedFlag => states.selected
    case ExpandedFlag => states.expanded
    case ToggledFlag => states.toggled
  }

  /** What a node shows under a property name that addresses the field. */
  function ReadAt(node: ElementNode, target: Field, name: string): Option<PropertyValue> {
    match target
    case NameField => Some(TextRead(node.name))
    case ClassNameField => Some(TextRead(node.className))
    case AutomationIdField => Some(TextRead(node.automationId))
    case ControlTypeField => Some(TextValue(node.controlType))
    case HandleField =>
      Some(if node.nativeWindowHandle.Some? then IntValue(node.nativeWindowHandle.value) else NullValue)
    case BoundsField => Some(RectValue(node.bounds))
    case ConfidenceField => Some(FloatValue(node.confidence))
    case StateField(flag) => Some(BoolValue(StateRead(node.states, flag)))
    case FreeField => if name in node.properties then Some(node.properties[name]) else None
  }

  function ReadField(node: ElementNode, name: string): Option<PropertyValue> {
    ReadAt(node, FieldOf(name), name)
  }

  /** The values a field takes. */
  predicate Takes(target: Field, value: PropertyValue) {
    match target
    case NameField => value.TextValue? || value.NullValue?
    case ClassNameField => value.TextValue? || value.NullValue?
    case AutomationIdField => value.TextValue? || value.NullValue?
    case ControlTypeField => value.TextValue?
    case HandleField => (value.IntValue? && value.number >= 0) || value.NullValue?
    case BoundsField => value.RectValue?
    case ConfidenceField => value.FloatValue? || value.IntValue?
    case StateField(_) => value.BoolValue?
    case FreeField => true
  }

  /** A whole-number confidence is stored as a float. */
  function Stored(target: Field, value: PropertyValue): PropertyValue {
    if target == ConfidenceField && value.IntValue? then FloatValue(value.number as real) else value
  }

  /** Only the handle's errors name their field by themselves; its name is the only one that addresses it. */
  lemma HandleName(name: string)
    ensures FieldOf(name) == HandleField ==> name == "native_window_handle"
  {
  }

  lemma KnownNamesDiffer(a: string, b: string)
    requires FieldOf(a) == FieldOf(b) && FieldOf(a) != FreeField
    ensures a == b
  {
  }

  lemma FieldReadsBack(node: ElementNode, target: Field, name: string, value: PropertyValue)
    requires target == HandleField ==> name == "native_window_handle"
    ensures var r := ChangeField(node, target, name, value);
      && (r.Ok? <==> Takes(target, value))
      && (r.Err? ==> r.error == InvalidPropertyUpdate(name))
      && (r.Ok? ==> ReadAt(r.value, target, name) == Some(Stored(target, value)))
      && (r.Ok? ==> r.value.elementId == node.elementId && r.value.parentId == node.parentId
                    && r.value.locator == node.locator && r.value.backend == node.backend
                    && r.value.children == node.children)
  {
  }

  lemma OtherFieldUnchanged(node: ElementNode, target: Field, name: string, value: PropertyValue, other: Field,
                            otherName: string)
    requires target != other || (target == FreeField && name != otherName)
    ensures var r := ChangeField(node, target, name, value);
      r.Ok? ==> ReadAt(r.value, other, otherName) == ReadAt(node, other, otherName)
  {
  }

  ghost predicate ReadsElsewhereAlike(a: ElementNode, b: ElementNode, name: string) {
    forall other | other != name :: ReadField(a, other) == ReadField(b, other)
  }

  /**
   A property change succeeds exactly for the values its name takes; then the name reads back
   what was written and every other name reads as before, and identity and place in the tree
   are untouched.
   */
  lemma PropertyChangeReadsBack(node: ElementNode, name: string, value: PropertyValue)
    ensures var r := ApplyEdit(SetProperty(name, value), node);
      && (r.Ok? <==> Takes(FieldOf(name), value))
      && (r.Err? ==> r.error == InvalidPropertyUpdate(name))
      && (r.Ok? ==> ReadField(r.value, name) == Some(Stored(FieldOf(name), value)))
      && (r.Ok? ==> ReadsElsewhereAlike(r.value, node, name))
      && (r.Ok? ==> r.value.elementId == node.elementId && r.value.parentId == node.parentId
                    && r.value.locator == node.locator && r.value.backend == node.backend
                    && r.value.children == node.children)
  {
    HandleName(name);
    FieldReadsBack(node, FieldOf(name), name, value);
    var r := ApplyEdit(SetProperty(name, value), node);
    if r.Ok? {
      forall other | other != name ensures ReadField(r.value, other) == ReadField(node, other) {
        OtherNameUnchanged(node, name, value, other);
      }
    }
  }

  lemma OtherNameUnchanged(node: ElementNode, name: string, value: PropertyValue, other: string)
    requires other != name && ChangeField(node, FieldOf(name), name, value).Ok?
    ensures ReadField(ChangeField(node, FieldOf(name), name, value).value, other) == ReadField(node, other)
  {
    if FieldOf(other) == FieldOf(name) && FieldOf(name) != FreeField { KnownNamesDiffer(other, name); }
    OtherFieldUnchanged(node, FieldOf(name), name, value, FieldOf(other), other);
  }

  // ------------------------------------------------------------- adding children

  /**
   Adding a child replaces the first sibling with its id in place, or appends it; the other
   siblings stay as they are.
   */
  lemma {:induction false} UpsertChildEffect(children: seq<ElementNode>, child: ElementNode)
    ensures var r := UpsertChild(children, child);
      match ChildIndex(children, child.elementId)
      case Some(i) => i < |children| && r == children[i := child]
      case None => r == children + [child]
  {
    if children != [] && children[0].elementId != child.elementId {
      UpsertChildEffect(children[1..], child);
    }
  }

  /** The index is that of the first sibling with the id. */
  lemma {:induction false} ChildIndexIsFirst(nodes: seq<ElementNode>, id: ElementId)
    ensures match ChildIndex(nodes, id)
      case Some(i) => i < |nodes| && nodes[i].elementId == id && forall j | 0 <= j < i :: nodes[j].elementId != id
      case None => forall j | 0 <= j < |nodes| :: nodes[j].elementId != id
  {
    if nodes != [] && nodes[0].elementId != id {
      ChildIndexIsFirst(nodes[1..], id);
    }
  }

  // ------------------------------------------------------- reaching one element

  /** No edit changes a node's id. */
  lemma EditKeepsId(edit: NodeEdit, node: ElementNode)
    ensures ApplyEdit(edit, node).Ok? ==> ApplyEdit(edit, node).value.elementId == node.elementId
  {
  }

  /**
   An edit reaches the first node in preorder with the id: absent when there is none, refused
   when that node refuses it, and otherwise found there afterwards in its edited form.
   */
  lemma {:induction false} EditReachesFirst(node: ElementNode, id: ElementId, edit: NodeEdit)
    ensures match FindById(node, id)
      case None => EditNode(node, id, edit) == Absent
      case Some(found) =>
        match ApplyEdit(edit, found)
        case Err(e) => EditNode(node, id, edit) == Refused(e)
        case Ok(changed) => EditNode(node, id, edit).Edited? && FindById(EditNode(node, id, edit).value, id) == Some(changed)
    decreases node, 1
  {
    if node.elementId == id {
      EditKeepsId(edit, node);
    } else {
      EditReachesFirstInForest(node.children, id, edit);
    }
  }

  lemma {:induction false} EditReachesFirstInForest(nodes: seq<ElementNode>, id: ElementId, edit: NodeEdit)
    ensures match FindByIdInForest(nodes, id)
      case None => EditForest(nodes, id, edit) == Absent
      case Some(found) =>
        match ApplyEdit(edit, found)
        case Err(e) => EditForest(nodes, id, edit) == Refused(e)
        case Ok(changed) =>
          EditForest(nodes, id, edit).Edited? && FindByIdInForest(EditForest(nodes, id, edit).value, id) == Some(changed)
    decreases nodes, 0
  {
    if nodes != [] {
      EditReachesFirst(nodes[0], id, edit);
      EditReachesFirstInForest(nodes[1..], id, edit);
    }
  }

  /** Over a whole desktop, windows in order. */
  lemma {:induction false} EditReachesElement(windows: seq<WindowState>, id: ElementId, edit: NodeEdit)
    ensures match FindElementById(windows, id)
      case None => EditWindows(windows, id, edit) == Absent
      case Some((_, found)) =>
        match ApplyEdit(edit, found)
        case Err(e) => EditWindows(windows, id, edit) == Refused(e)
        case Ok(changed) =>
          && EditWindows(windows, id, edit).Edited?
          && var after := FindElementById(EditWindows(windows, id, edit).value, id);
          after.Some? && after.value.1 == changed
  {
    if windows != [] {
      EditReachesFirst(windows[0].root, id, edit);
      EditReachesElement(windows[1..], id, edit);
    }
  }

  // ------------------------------------------------- removing and replacing nodes

  /** Rewriting below a root succeeds exactly when some node there has the id. */
  lemma {:induction false} RewriteFindsIff(nodes: seq<ElementNode>, ownerId: ElementId, id: ElementId,
                                           replacement: Option<ElementNode>)
    ensures RewriteChild(nodes, ownerId, id, replacement).Some? <==> InForest(nodes, id)
    decreases nodes, 1
  {
    ChildIndexIsFirst(nodes, id);
    match ChildIndex(nodes, id)
    case Some(i) => assert Contains(nodes[i], id);
    case None => RewriteBelowFindsIff(nodes, id, replacement);
  }

  lemma {:induction false} RewriteBelowFindsIff(nodes: seq<ElementNode>, id: ElementId, replacement: Option<ElementNode>)
    requires forall j | 0 <= j < |nodes| :: nodes[j].elementId != id
    ensures RewriteBelow(nodes, id, replacement).Some? <==> InForest(nodes, id)
    decreases nodes, 0
  {
    if nodes != [] {
      RewriteFindsIff(nodes[0].children, nodes[0].elementId, id, replacement);
      RewriteBelowFindsIff(nodes[1..], id, replacement);
      InForestCons(nodes[0], nodes[1..], id);
      assert nodes == [nodes[0]] + nodes[1..];
    }
  }

  /** An id that is present below the roots is found there. */
  lemma {:induction false} FoundIffContained(node: ElementNode, id: ElementId)
    ensures FindById(node, id).Some? <==> Contains(node, id)
    ensures FindById(node, id).Some? ==> FindById(node, id).value.elementId == id
    decreases node, 1
  {
    FoundIffInForest(node.children, id);
  }

  lemma {:induction false} FoundIffInForest(nodes: seq<ElementNode>, id: ElementId)
    ensures FindByIdInForest(nodes, id).Some? <==> InForest(nodes, id)
    ensures FindByIdInForest(nodes, id).Some? ==> FindByIdInForest(nodes, id).value.elementId == id
    decreases nodes, 0
  {
    if nodes != [] {
      FoundIffContained(nodes[0], id);
      FoundIffInForest(nodes[1..], id);
      InForestCons(nodes[0], nodes[1..], id);
      assert nodes == [nodes[0]] + nodes[1..];
    }
  }

  // ---------------------------------------------------------- nothing else changes

  function Bare(node: ElementNode): ElementNode {
    node.(children := [])
  }

  /** The nodes of a tree in preorder, each without its children. */
  function Preorder(node: ElementNode): seq<ElementNode>
    decreases node, 1
  {
    [Bare(node)] + PreorderForest(node.children)
  }

  function PreorderForest(nodes: seq<ElementNode>): seq<ElementNode>
    decreases nodes, 0
  {
    if nodes == [] then [] else Preorder(nodes[0]) + PreorderForest(nodes[1..])
  }

  predicate Lacks(nodes: seq<ElementNode>, id: ElementId) {
    forall j | 0 <= j < |nodes| :: nodes[j].elementId != id
  }

  lemma {:induction false} LacksIffAbsent(node: ElementNode, id: ElementId)
    ensures Lacks(Preorder(node), id) <==> !Contains(node, id)
    decreases node, 1
  {
    LacksIffNotInForest(node.children, id);
    assert Preorder(node)[0].elementId == node.elementId;
    assert forall j | 0 <= j < |PreorderForest(node.children)| ::
      Preorder(node)[j + 1] == PreorderForest(node.children)[j];
  }

  lemma {:induction false} LacksIffNotInForest(nodes: seq<ElementNode>, id: ElementId)
    ensures Lacks(PreorderForest(nodes), id) <==> !InForest(nodes, id)
    decreases nodes, 0
  {
    if nodes != [] {
      LacksIffAbsent(nodes[0], id);
      LacksIffNotInForest(nodes[1..], id);
      InForestCons(nodes[0], nodes[1..], id);
      assert nodes == [nodes[0]] + nodes[1..];
      LacksConcat(Preorder(nodes[0]), PreorderForest(nodes[1..]), id);
    }
  }

  lemma LacksConcat(a: seq<ElementNode>, b: seq<ElementNode>, id: ElementId)
    ensures Lacks(a + b, id) <==> Lacks(a, id) && Lacks(b, id)
  {
    assert forall j | 0 <= j < |b| :: (a + b)[|a| + j] == b[j];
    assert forall j | 0 <= j < |a| :: (a + b)[j] == a[j];
  }

  /** `after` is `before` with the edit applied at position `k`, the first that has the id. */
  predicate UpdatedAt(before: seq<ElementNode>, after: seq<ElementNode>, id: ElementId, edit: NodeEdit, k: nat) {
    && k < |before| && before[k].elementId == id && Lacks(before[..k], id)
    && ApplyEdit(edit, before[k]).Ok?
    && after == before[k := ApplyEdit(edit, before[k]).value]
  }

  lemma UpdatedInFront(before: seq<ElementNode>, after: seq<ElementNode>, id: ElementId, edit: NodeEdit, k: nat,
                       rest: seq<ElementNode>)
    requires UpdatedAt(before, after, id, edit, k)
    ensures UpdatedAt(before + rest, after + rest, id, edit, k)
  {
    assert (before + rest)[..k] == before[..k];
  }

  lemma UpdatedBehind(before: seq<ElementNode>, after: seq<ElementNode>, id: ElementId, edit: NodeEdit, k: nat,
                      front: seq<ElementNode>)
    requires UpdatedAt(before, after, id, edit, k) && Lacks(front, id)
    ensures UpdatedAt(front + before, front + after, id, edit, |front| + k)
  {
    assert (front + before)[..|front| + k] == front + before[..k];
    LacksConcat(front, before[..k], id);
  }

  /**
   A property or focus edit is a point update: in preorder, the first node with the id is
   edited and every other node, and the shape of the tree around it, stays as it was.
   */
  lemma {:induction false} EditIsPointUpdate(node: ElementNode, id: ElementId, edit: NodeEdit) returns (k: nat)
    requires !edit.AttachChild? && EditNode(node, id, edit).Edited?
    ensures UpdatedAt(Preorder(node), Preorder(EditNode(node, id, edit).value), id, edit, k)
    decreases node, 1
  {
    if node.elementId == id {
      k := 0;
      EditIgnoresChildren(edit, node);
    } else {
      k := EditIsPointUpdateInForest(node.children, id, edit);
      UpdatedBehind(PreorderForest(node.children), PreorderForest(EditForest(node.children, id, edit).value), id, edit, k,
                    [Bare(node)]);
      k := k + 1;
    }
  }

  lemma EditIgnoresChildren(edit: NodeEdit, node: ElementNode)
    requires !edit.AttachChild? && ApplyEdit(edit, node).Ok?
    ensures ApplyEdit(edit, Bare(node)) == Ok(Bare(ApplyEdit(edit, node).value))
    ensures ApplyEdit(edit, node).value.children == node.children
  {
  }

  lemma {:induction false} EditIsPointUpdateInForest(nodes: seq<ElementNode>, id: ElementId, edit: NodeEdit)
    returns (k: nat)
    requires !edit.AttachChild? && EditForest(nodes, id, edit).Edited?
    ensures UpdatedAt(PreorderForest(nodes), PreorderForest(EditForest(nodes, id, edit).value), id, edit, k)
    decreases nodes, 0
  {
    var first, rest := Preorder(nodes[0]), PreorderForest(nodes[1..]);
    assert nodes == [nodes[0]] + nodes[1..];
    if EditNode(nodes[0], id, edit).Edited? {
      var changed := EditNode(nodes[0], id, edit).value;
      k := EditIsPointUpdate(nodes[0], id, edit);
      UpdatedInFront(first, Preorder(changed), id, edit, k, rest);
      PreorderCons(changed, nodes[1..]);
    } else {
      var below := EditForest(nodes[1..], id, edit).value;
      k := EditIsPointUpdateInForest(nodes[1..], id, edit);
      UneditedLacks(nodes[0], id, edit);
      UpdatedBehind(rest, PreorderForest(below), id, edit, k, first);
      PreorderCons(nodes[0], below);
      k := |first| + k;
    }
  }

  lemma UneditedLacks(node: ElementNode, id: ElementId, edit: NodeEdit)
    requires EditNode(node, id, edit).Absent?
    ensures Lacks(Preorder(node), id)
  {
    EditReachesFirst(node, id, edit);
    FoundIffContained(node, id);
    LacksIffAbsent(node, id);
  }

  /** What takes the place of a rewritten subtree. */
  function Inserted(replacement: Option<ElementNode>, ownerId: ElementId): seq<ElementNode> {
    if replacement.Some? then Preorder(Reparent(replacement.value, Some(ownerId))) else []
  }

  /** `after` is `before` with the subtree `gone` cut out between `front` and `back`, and the replacement put there. */
  predicate Spliced(before: seq<ElementNode>, after: seq<ElementNode>, replacement: Option<ElementNode>, splice: Splice) {
    && before == splice.front + Preorder(splice.gone) + splice.back
    && after == splice.front + Inserted(replacement, splice.ownerId) + splice.back
  }

  datatype Splice = Splice(front: seq<ElementNode>, gone: ElementNode, ownerId: ElementId, back: seq<ElementNode>)

  lemma SplicedAround(before: seq<ElementNode>, after: seq<ElementNode>, replacement: Option<ElementNode>, s: Splice,
                      front: seq<ElementNode>, back: seq<ElementNode>)
    requires Spliced(before, after, replacement, s)
    ensures Spliced(front + before + back, front + after + back, replacement,
                    s.(front := front + s.front, back := s.back + back))
  {
  }

  lemma PreorderCons(first: ElementNode, rest: seq<ElementNode>)
    ensures PreorderForest([first] + rest) == Preorder(first) + PreorderForest(rest)
  {
    assert ([first] + rest)[1..] == rest;
  }

  lemma {:induction false} PreorderConcat(a: seq<ElementNode>, b: seq<ElementNode>)
    ensures PreorderForest(a + b) == PreorderForest(a) + PreorderForest(b)
    decreases |a|
  {
    if a == [] {
      assert a + b == b;
    } else {
      PreorderConcat(a[1..], b);
      PreorderCons(a[0], a[1..] + b);
      assert a + b == [a[0]] + (a[1..] + b);
      Sorting.Associates(Preorder(a[0]), PreorderForest(a[1..]), PreorderForest(b));
    }
  }

  /**
   Removing or replacing a node is a splice: in preorder, the subtree of some node with the
   id gives way to the replacement, or to nothing, and everything around it stays as it was.
   */
  lemma {:induction false} RewriteIsSplice(nodes: seq<ElementNode>, ownerId: ElementId, id: ElementId,
                                           replacement: Option<ElementNode>) returns (splice: Splice)
    requires RewriteChild(nodes, ownerId, id, replacement).Some?
    ensures splice.gone.elementId == id
    ensures Spliced(PreorderForest(nodes), PreorderForest(RewriteChild(nodes, ownerId, id, replacement).value),
                    replacement, splice)
    decreases nodes, 1
  {
    ChildIndexInRange(nodes, id);
    match ChildIndex(nodes, id)
    case Some(i) =>
      splice := Splice(PreorderForest(nodes[..i]), nodes[i], ownerId, PreorderForest(nodes[i + 1..]));
      CutOut(nodes, i);
      if replacement.Some? {
        CutOut(nodes[i := Reparent(replacement.value, Some(ownerId))], i);
      } else {
        PreorderConcat(nodes[..i], nodes[i + 1..]);
      }
    case None =>
      splice := RewriteBelowIsSplice(nodes, id, replacement);
  }

  lemma PreorderAround(front: seq<ElementNode>, node: ElementNode, back: seq<ElementNode>)
    ensures PreorderForest(front + ([node] + back)) == PreorderForest(front) + Preorder(node) + PreorderForest(back)
  {
    PreorderConcat(front, [node] + back);
    PreorderCons(node, back);
    Sorting.Associates(PreorderForest(front), Preorder(node), PreorderForest(back));
  }

  lemma CutOut(nodes: seq<ElementNode>, i: nat)
    requires i < |nodes|
    ensures PreorderForest(nodes) == PreorderForest(nodes[..i]) + Preorder(nodes[i]) + PreorderForest(nodes[i + 1..])
  {
    Sorting.SplitsAt(nodes, i);
    PreorderAround(nodes[..i], nodes[i], nodes[i + 1..]);
  }

  lemma {:induction false} RewriteBelowIsSplice(nodes: seq<ElementNode>, id: ElementId, replacement: Option<ElementNode>)
    returns (splice: Splice)
    requires RewriteBelow(nodes, id, replacement).Some?
    ensures splice.gone.elementId == id
    ensures Spliced(PreorderForest(nodes), PreorderForest(RewriteBelow(nodes, id, replacement).value), replacement, splice)
    decreases nodes, 0
  {
    var after := RewriteBelow(nodes, id, replacement).value;
    var inner := RewriteChild(nodes[0].children, nodes[0].elementId, id, replacement);
    var rest := PreorderForest(nodes[1..]);
    if inner.Some? {
      var s := RewriteIsSplice(nodes[0].children, nodes[0].elementId, id, replacement);
      SplicedAround(PreorderForest(nodes[0].children), PreorderForest(inner.value), replacement, s, [Bare(nodes[0])], rest);
      splice := s.(front := [Bare(nodes[0])] + s.front, back := s.back + rest);
      assert after[1..] == nodes[1..];
    } else {
      var below := RewriteBelow(nodes[1..], id, replacement).value;
      var s := RewriteBelowIsSplice(nodes[1..], id, replacement);
      SplicedAround(rest, PreorderForest(below), replacement, s, Preorder(nodes[0]), []);
      splice := s.(front := Preorder(nodes[0]) + s.front, back := s.back + []);
      assert after[1..] == below;
      assert rest + [] == rest && PreorderForest(below) + [] == PreorderForest(below);
      assert Preorder(nodes[0]) + rest + [] == PreorderForest(nodes);
    }
  }
}

/** The diff producer: the operations that lead from one snapshot's windows to another's. */
module SnapshotDiff {
  import opened Wrappers
  import opened Sorting
  import opened Domain
  import Text
  import Trees

  /** The window an id maps to once all windows are collected by id: the last one wins. */
  function WindowById(windows: seq<WindowState>, id: WindowId): Option<WindowState> {
    if windows == [] then None
    else if WindowById(windows[1..], id).Some? then WindowById(windows[1..], id)
    else if windows[0].windowId == id then Some(windows[0])
    else None
  }

  function WindowIds(windows: seq<WindowState>): set<WindowId> {
    set i | 0 <= i < |windows| :: windows[i].windowId
  }

  predicate SameWindowShell(left: WindowState, right: WindowState) {
    && left.windowId == right.windowId
    && left.pid == right.pid
    && left.processName == right.processName
    && left.title == right.title
    && left.bounds == right.bounds
    && left.backend == right.backend
    && left.confidence == right.confidence
  }

  /** What one window id contributes to a batch. */
  function WindowOps(id: WindowId, previous: Option<WindowState>, next: Option<WindowState>): seq<DiffOp> {
    match (previous, next)
    case (None, None) => []
    case (None, Some(window)) => [WindowAdded(window)]
    case (Some(_), None) => [WindowRemoved(id)]
    case (Some(p), Some(n)) =>
      (if !SameWindowShell(p, n) then [WindowRemoved(id), WindowAdded(n)]
       else if p.root != n.root then [NodeReplaced(p.root.elementId, n.root)]
       else [])
      + (if Trees.FocusedElementId(p.root) != Trees.FocusedElementId(n.root)
         then [FocusChanged(id, Trees.FocusedElementId(n.root))]
         else [])
  }

  ghost function OpsForIds(ids: seq<WindowId>, previous: seq<WindowState>, next: seq<WindowState>): seq<DiffOp> {
    if ids == [] then []
    else WindowOps(ids[0], WindowById(previous, ids[0]), WindowById(next, ids[0])) + OpsForIds(ids[1..], previous, next)
  }

  ghost function DiffOps(previous: seq<WindowState>, next: seq<WindowState>): seq<DiffOp> {
    OpsForIds(SortedKeys(WindowIds(previous) + WindowIds(next)), previous, next)
  }

  /** Walks the ids of both snapshots in ascending order and pushes each id's operations. */
  method DiffSnapshots(previous: seq<WindowState>, next: seq<WindowState>) returns (ops: seq<DiffOp>)
    ensures ops == DiffOps(previous, next)
  {
    ops := [];
    var remaining := WindowIds(previous) + WindowIds(next);
    while remaining != {}
      invariant ops + OpsForIds(SortedKeys(remaining), previous, next) == DiffOps(previous, next)
      decreases remaining
    {
      LeastKeyExists(remaining);
      var id :| IsLeastKey(id, remaining);
      var previousWindow, nextWindow := WindowById(previous, id), WindowById(next, id);
      LeastIdFirst(ops, remaining, id, previous, next);
      ops := PushWindowOps(ops, id, previousWindow, nextWindow);
      remaining := remaining - {id};
    }
  }

  /** Pushes the operations of one id: shell, tree, then focus. */
  method PushWindowOps(before: seq<DiffOp>, id: WindowId, previous: Option<WindowState>, next: Option<WindowState>)
    returns (ops: seq<DiffOp>)
    ensures ops == before + WindowOps(id, previous, next)
  {
    ops := before;
    match (previous, next) {
      case (None, None) =>
      case (None, Some(window)) => ops := ops + [WindowAdded(window)];
      case (Some(_), None) => ops := ops + [WindowRemoved(id)];
      case (Some(p), Some(n)) =>
        var shellChanged := !SameWindowShell(p, n);
        if shellChanged {
          ops := ops + [WindowRemoved(id)];
          ops := ops + [WindowAdded(n)];
        }
        if !shellChanged && p.root != n.root {
          ops := ops + [NodeReplaced(p.root.elementId, n.root)];
        }
        if Trees.FocusedElementId(p.root) != Trees.FocusedElementId(n.root) {
          ops := ops + [FocusChanged(id, Trees.FocusedElementId(n.root))];
        }
    }
  }

  lemma LeastIdFirst(ops: seq<DiffOp>, remaining: set<WindowId>, id: WindowId,
                     previous: seq<WindowState>, next: seq<WindowState>)
    requires IsLeastKey(id, remaining)
    ensures ops + OpsForIds(SortedKeys(remaining), previous, next)
         == (ops + WindowOps(id, WindowById(previous, id), WindowById(next, id)))
            + OpsForIds(SortedKeys(remaining - {id}), previous, next)
  {
    var rest := SortedKeys(remaining - {id});
    SortedKeysStartAtLeast(remaining, id);
    OpsForFirst(id, rest, previous, next);
    Associates(ops, WindowOps(id, WindowById(previous, id), WindowById(next, id)), OpsForIds(rest, previous, next));
  }

  lemma OpsForFirst(id: WindowId, rest: seq<WindowId>, previous: seq<WindowState>, next: seq<WindowState>)
    ensures OpsForIds([id] + rest, previous, next)
      == WindowOps(id, WindowById(previous, id), WindowById(next, id)) + OpsForIds(rest, previous, next)
  {
    assert ([id] + rest)[1..] == rest;
  }

  lemma SortedKeysStartAtLeast(keys: set<string>, least: string)
    requires IsLeastKey(least, keys)
    ensures SortedKeys(keys) == [least] + SortedKeys(keys - {least})
  {
    Text.BeforeIsStrictTotalOrder();
    var rest := SortedKeys(keys - {least});
    StrictlySortedUnique(Text.Before, SortedKeys(keys), [least] + rest);
  }

  // ----------------------------------------------------------- lookups by id

  lemma {:induction false} WindowByIdIsMember(windows: seq<WindowState>, id: WindowId)
    ensures WindowById(windows, id).Some? ==>
      WindowById(windows, id).value in windows && WindowById(windows, id).value.windowId == id
    ensures WindowById(windows, id).Some? <==> id in WindowIds(windows)
  {
    if windows != [] {
      WindowByIdIsMember(windows[1..], id);
      assert forall i | 0 <= i < |windows[1..]| :: windows[1..][i] == windows[i + 1];
      assert windows[0].windowId in WindowIds(windows);
      if id in WindowIds(windows[1..]) {
        var i :| 0 <= i < |windows[1..]| && windows[1..][i].windowId == id;
        assert windows[i + 1].windowId in WindowIds(windows);
      }
    }
  }
}

/**
  The editor state of the composer page: the images on the canvas, the
  selection, the image being dragged inside the canvas, the control values and
  the undo/redo stacks, with one method per event handler.

  DOM nodes have identities that values do not: each surface entry carries a
  node id in `nodes`. Images created by a drop get a fresh id that goes into
  `live` (they are the nodes with click and dragstart listeners). Restoring a
  snapshot (undo, redo) builds new nodes, so the restored entries get fresh ids
  outside `live`, and a selection or drag reference taken before may then name
  a node that is no longer on the canvas.
*/
module Composer {
  import opened Options
  import opened Transform
  import opened Elements
  import UndoHistory

  /** The id of the fixed base (character) image node. */
  const BaseNode: nat := 0

  /** `n` new consecutive node ids starting at `from`. */
  function FreshNodes(from: nat, n: nat): (ns: seq<nat>)
    ensures |ns| == n
    ensures forall j :: 0 <= j < n ==> ns[j] == from + j
    ensures Distinct(ns)
    ensures forall j :: 0 <= j < n ==> from <= ns[j]
  {
    seq(n, j => from + j)
  }

  /** No node id occurs twice. */
  ghost predicate Distinct(ns: seq<nat>) {
    forall i, j :: 0 <= i < j < |ns| ==> ns[i] != ns[j]
  }

  /** Every node id is below `n`. */
  ghost predicate Below(ns: seq<nat>, n: nat) {
    forall i :: 0 <= i < |ns| ==> ns[i] < n
  }

  /** Every entry whose node is the base node holds `b`. */
  ghost predicate BaseHolds(s: seq<Element>, ns: seq<nat>, b: Element)
    requires |s| == |ns|
  {
    forall j :: 0 <= j < |ns| && ns[j] == BaseNode ==> s[j] == b
  }

  /** Removing one entry from both sequences keeps the ids distinct and
      bounded and the base entries as they were. */
  lemma RemoveKeepsNodes(s: seq<Element>, ns: seq<nat>, i: nat, n: nat, b: Element)
    requires |s| == |ns| && i < |s|
    requires Distinct(ns) && Below(ns, n) && BaseHolds(s, ns, b)
    ensures Distinct(RemoveAt(ns, i)) && Below(RemoveAt(ns, i), n)
    ensures BaseHolds(RemoveAt(s, i), RemoveAt(ns, i), b)
  {
    var s', ns' := RemoveAt(s, i), RemoveAt(ns, i);
    forall p, q | 0 <= p < q < |ns'|
      ensures ns'[p] != ns'[q]
    {
      var p1 := if p < i then p else p + 1;
      var q1 := if q < i then q else q + 1;
      assert ns'[p] == ns[p1] && ns'[q] == ns[q1];
    }
    forall j | 0 <= j < |ns'| && ns'[j] == BaseNode
      ensures s'[j] == b
    {
      if i <= j {
        assert ns'[j] == ns[j + 1] && s'[j] == s[j + 1];
      }
    }
  }

  class Editor {
    var baseImage: Element
    var surface: seq<Element>
    var nodes: seq<nat>
    var nextNode: nat
    var live: set<nat>
    var selected: Option<nat>
    var dragged: Option<nat>
    var controls: Controls
    var undoStack: seq<seq<Element>>
    var redoStack: seq<seq<Element>>

    ghost predicate Valid()
      reads this
    {
      && |nodes| == |surface|
      && BaseNode < nextNode
      && Distinct(nodes)
      && Below(nodes, nextNode)
      && (forall k :: k in live ==> BaseNode < k < nextNode)
      && (selected.Some? ==> selected.value in live)
      && (dragged.Some? ==> dragged.value in live)
      && BaseHolds(surface, nodes, baseImage)
    }

    /** The part of the state the history manager sees. */
    function Hist(): UndoHistory.History<seq<Element>>
      reads this
    {
      UndoHistory.History(surface, undoStack, redoStack)
    }

    predicate Attached(k: nat)
      reads this
    {
      k in nodes
    }

    /** The page at load time: only the base image on the canvas, and one
        snapshot of it on the undo stack. */
    constructor (base: Element)
      ensures Valid()
      ensures baseImage == base && surface == [base] && nodes == [BaseNode]
      ensures undoStack == [[base]] && redoStack == []
      ensures selected == None && dragged == None && live == {}
      ensures controls == DefaultControls
    {
      baseImage := base;
      surface := [base];
      nodes := [BaseNode];
      nextNode := BaseNode + 1;
      live := {};
      selected := None;
      dragged := None;
      controls := DefaultControls;
      undoStack := [];
      redoStack := [];
      new;
      SaveState();
    }

    /** `saveState`: snapshot the surface by value onto the undo stack and
        empty the redo stack. */
    method SaveState()
      requires Valid()
      modifies this`undoStack, this`redoStack
      ensures Valid()
      ensures Hist() == UndoHistory.Save(old(Hist()))
    {
      undoStack := undoStack + [surface];
      redoStack := [];
    }

    /** `canvas.innerHTML = snapshot`: the surface becomes a copy of the
        snapshot, made of new nodes. */
    method Restore(snapshot: seq<Element>)
      requires Valid()
      modifies this`surface, this`nodes, this`nextNode
      ensures Valid()
      ensures surface == snapshot
      ensures nodes == FreshNodes(old(nextNode), |snapshot|)
      ensures nextNode == old(nextNode) + |snapshot|
      ensures selected.Some? ==> !Attached(selected.value)
      ensures dragged.Some? ==> !Attached(dragged.value)
    {
      surface := snapshot;
      nodes := FreshNodes(nextNode, |snapshot|);
      nextNode := nextNode + |snapshot|;
    }

    /** The undo button. */
    method Undo()
      requires Valid()
      modifies this`surface, this`nodes, this`nextNode, this`undoStack, this`redoStack
      ensures Valid()
      ensures Hist() == UndoHistory.Undo(old(Hist()))
      ensures old(undoStack) == [] ==> nodes == old(nodes) && nextNode == old(nextNode)
      ensures old(undoStack) != [] ==>
        && nodes == FreshNodes(old(nextNode), |surface|)
        && nextNode == old(nextNode) + |surface|
        && (selected.Some? ==> !Attached(selected.value))
        && (dragged.Some? ==> !Attached(dragged.value))
    {
      if |undoStack| == 0 {
        return;
      }
      redoStack := redoStack + [surface];
      var snapshot := undoStack[|undoStack| - 1];
      undoStack := undoStack[..|undoStack| - 1];
      Restore(snapshot);
    }

    /** The redo button. */
    method Redo()
      requires Valid()
      modifies this`surface, this`nodes, this`nextNode, this`undoStack, this`redoStack
      ensures Valid()
      ensures Hist() == UndoHistory.Redo(old(Hist()))
      ensures old(redoStack) == [] ==> nodes == old(nodes) && nextNode == old(nextNode)
      ensures old(redoStack) != [] ==>
        && nodes == FreshNodes(old(nextNode), |surface|)
        && nextNode == old(nextNode) + |surface|
        && (selected.Some? ==> !Attached(selected.value))
        && (dragged.Some? ==> !Attached(dragged.value))
    {
      if |redoStack| == 0 {
        return;
      }
      undoStack := undoStack + [surface];
      var snapshot := redoStack[|redoStack| - 1];
      redoStack := redoStack[..|redoStack| - 1];
      Restore(snapshot);
    }

    /** The delete button: with a selection, snapshot, remove the selected
        node (a no-op on the surface when it is detached) and clear the
        selection. */
    method Delete()
      requires Valid()
      modifies this`surface, this`nodes, this`selected, this`undoStack, this`redoStack
      ensures Valid()
      ensures selected == None
      ensures old(selected).None? ==> Hist() == old(Hist()) && nodes == old(nodes)
      ensures old(selected).Some? ==>
        && surface == Detach(old(surface), old(nodes), old(selected).value)
        && nodes == Detach(old(nodes), old(nodes), old(selected).value)
        && Hist() == UndoHistory.Edit(old(Hist()), surface)
    {
      if selected.None? {
        return;
      }
      SaveState();
      var k := selected.value;
      DetachRemovesNode(nodes, k);
      match IndexOf(nodes, k) {
        case Some(i) =>
          ghost var before, ids := surface, nodes;
          surface := RemoveAt(surface, i);
          nodes := RemoveAt(nodes, i);
          RemoveKeepsNodes(before, ids, i, nextNode, baseImage);
        case None =>
      }
      selected := None;
    }

    /** The clear button: snapshot, then only the base image node is left,
        as it is now (the same node object, whatever its outline). */
    method Clear()
      requires Valid()
      modifies this`surface, this`nodes, this`undoStack, this`redoStack
      ensures Valid()
      ensures Hist() == UndoHistory.Edit(old(Hist()), [baseImage])
      ensures nodes == [BaseNode]
      ensures selected.Some? ==> !Attached(selected.value)
      ensures dragged.Some? ==> !Attached(dragged.value)
    {
      SaveState();
      surface := [baseImage];
      nodes := [BaseNode];
    }

    /** The canvas drop listener that creates images: an empty payload does
        nothing; otherwise a new image placed 50px left of and above (x, y) goes
        on top. */
    method DropNew(payload: string, x: int, y: int)
      requires Valid()
      modifies this`surface, this`nodes, this`nextNode, this`live
      ensures Valid()
      ensures payload == "" ==>
        surface == old(surface) && nodes == old(nodes) && nextNode == old(nextNode) && live == old(live)
      ensures payload != "" ==>
        && surface == old(surface) + [Dropped(payload, x, y)]
        && nodes == old(nodes) + [old(nextNode)]
        && live == old(live) + {old(nextNode)}
        && nextNode == old(nextNode) + 1
    {
      if payload == "" {
        return;
      }
      surface := surface + [Dropped(payload, x, y)];
      nodes := nodes + [nextNode];
      live := live + {nextNode};
      nextNode := nextNode + 1;
    }

    /** The dragstart listener of a dropped image (entry `i`): it becomes the
        image being moved. Restored images have no such listener. */
    method StartMove(i: nat)
      requires Valid() && i < |surface|
      modifies this`dragged
      ensures Valid()
      ensures dragged == if nodes[i] in live then Some(nodes[i]) else old(dragged)
    {
      if nodes[i] in live {
        dragged := Some(nodes[i]);
      }
    }

    /** The canvas drop listener that moves images: the dragged image, if it
        is still on the canvas, is placed 50px left of and above (x, y); the
        reference is then cleared. */
    method DropMove(x: int, y: int)
      requires Valid()
      modifies this`surface, this`dragged
      ensures Valid()
      ensures dragged == None
      ensures |surface| == |old(surface)|
      ensures old(dragged).Some? && Attached(old(dragged).value) ==>
        var i := IndexOf(nodes, old(dragged).value).value;
        surface == old(surface)[i := MovedTo(old(surface)[i], x, y)]
      ensures old(dragged).None? || !Attached(old(dragged).value) ==> surface == old(surface)
    {
      if dragged.None? {
        return;
      }
      match IndexOf(nodes, dragged.value) {
        case Some(i) => surface := surface[i := MovedTo(surface[i], x, y)];
        case None =>
      }
      dragged := None;
    }

    /** A drop on the canvas runs both listeners, in the order they were
        registered: a non-empty payload first adds a new image, then the
        dragged image, if it is still on the canvas, is placed 50px left of
        and above (x, y). */
    method Drop(payload: string, x: int, y: int)
      requires Valid()
      modifies this`surface, this`nodes, this`nextNode, this`live, this`dragged
      ensures Valid()
      ensures dragged == None
      ensures payload == "" ==>
        nodes == old(nodes) && nextNode == old(nextNode) && live == old(live)
      ensures payload != "" ==>
        && nodes == old(nodes) + [old(nextNode)]
        && live == old(live) + {old(nextNode)}
        && nextNode == old(nextNode) + 1
      ensures var added := if payload == "" then old(surface)
                           else old(surface) + [Dropped(payload, x, y)];
        if old(dragged).Some? && old(dragged).value in old(nodes) then
          var i := IndexOf(old(nodes), old(dragged).value).value;
          i < |added| && surface == added[i := MovedTo(added[i], x, y)]
        else surface == added
    {
      DropNew(payload, x, y);
      DropMove(x, y);
    }

    /** The `forEach` that clears the outline of every image on the canvas. */
    method ClearOutlines()
      requires Valid()
      modifies this`surface, this`baseImage
      ensures Valid()
      ensures |surface| == |old(surface)|
      ensures forall j :: 0 <= j < |surface| ==> surface[j] == old(surface[j]).(outlined := false)
      ensures baseImage == if BaseNode in nodes then old(baseImage).(outlined := false)
                           else old(baseImage)
    {
      var i := 0;
      while i < |surface|
        invariant 0 <= i <= |surface| == |old(surface)|
        invariant forall j :: 0 <= j < i ==> surface[j] == old(surface[j]).(outlined := false)
        invariant forall j :: i <= j < |surface| ==> surface[j] == old(surface[j])
        invariant baseImage == old(baseImage)
      {
        surface := surface[i := surface[i].(outlined := false)];
        i := i + 1;
      }
      if BaseNode in nodes {
        baseImage := baseImage.(outlined := false);
      }
      forall j | 0 <= j < |nodes| && nodes[j] == BaseNode
        ensures surface[j] == baseImage
      {
        assert old(surface[j]) == old(baseImage);
      }
    }

    /** A click on entry `i`. A dropped image runs `selectItem`, moves the
        outline to itself and copies its transform and opacity into the
        controls; any other image has no click listener and the background
        listener ignores clicks that target an image. */
    method Click(i: nat)
      requires Valid() && i < |surface|
      modifies this`surface, this`baseImage, this`selected, this`controls
      ensures Valid()
      ensures nodes[i] !in live ==>
        && surface == old(surface) && baseImage == old(baseImage)
        && selected == old(selected) && controls == old(controls)
      ensures nodes[i] in live ==>
        && selected == Some(nodes[i])
        && controls == ReadControls(old(surface[i]))
        && |surface| == |old(surface)|
        && surface[i] == old(surface[i]).(outlined := true)
        && (forall j :: 0 <= j < |surface| && j != i ==> surface[j] == old(surface[j]).(outlined := false))
        && baseImage == if BaseNode in nodes then old(baseImage).(outlined := false) else old(baseImage)
    {
      if nodes[i] !in live {
        return;
      }
      selected := Some(nodes[i]);
      controls := DefaultControls;
      ClearOutlines();
      surface := surface[i := surface[i].(outlined := true)];
      OutlineIgnored(old(surface[i]), true);
      controls := ReadControls(surface[i]);
    }

    /** A click on the canvas background: no selection, no outlines, default
        controls. */
    method ClickBackground()
      requires Valid()
      modifies this`surface, this`baseImage, this`selected, this`controls
      ensures Valid()
      ensures selected == None && controls == DefaultControls
      ensures |surface| == |old(surface)|
      ensures forall j :: 0 <= j < |surface| ==> surface[j] == old(surface[j]).(outlined := false)
      ensures baseImage == if BaseNode in nodes then old(baseImage).(outlined := false)
                           else old(baseImage)
    {
      selected := None;
      ClearOutlines();
      controls := DefaultControls;
    }

    /** `applyTransform`: write the rotation and scale controls into the
        selected image's transform; nothing without a selection. */
    method ApplyTransform()
      requires Valid()
      modifies this`surface
      ensures Valid()
      ensures selected.Some? && Attached(selected.value) ==>
        var i := IndexOf(nodes, selected.value).value;
        surface == old(surface)[i := old(surface)[i].(transform := Format(controls.rotation, controls.scale))]
      ensures selected.None? || !Attached(selected.value) ==> surface == old(surface)
    {
      if selected.None? {
        return;
      }
      match IndexOf(nodes, selected.value) {
        case Some(i) =>
          surface := surface[i := surface[i].(transform := Format(controls.rotation, controls.scale))];
        case None =>
      }
    }

    /** Input on the rotation control. */
    method InputRotation(rotation: int)
      requires Valid()
      modifies this`surface, this`controls
      ensures Valid()
      ensures controls == old(controls).(rotation := rotation)
      ensures selected.Some? && Attached(selected.value) ==>
        var i := IndexOf(nodes, selected.value).value;
        surface == old(surface)[i := old(surface)[i].(transform := Format(rotation, controls.scale))]
      ensures selected.None? || !Attached(selected.value) ==> surface == old(surface)
    {
      controls := controls.(rotation := rotation);
      ApplyTransform();
    }

    /** Input on the scale control. */
    method InputScale(scale: ScaleText)
      requires Valid()
      modifies this`surface, this`controls
      ensures Valid()
      ensures controls == old(controls).(scale := scale)
      ensures selected.Some? && Attached(selected.value) ==>
        var i := IndexOf(nodes, selected.value).value;
        surface == old(surface)[i := old(surface)[i].(transform := Format(controls.rotation, scale))]
      ensures selected.None? || !Attached(selected.value) ==> surface == old(surface)
    {
      controls := controls.(scale := scale);
      ApplyTransform();
    }

    /** Input on the opacity control: copied into the selected image's style;
        nothing without a selection. */
    method InputOpacity(opacity: string)
      requires Valid()
      modifies this`surface, this`controls
      ensures Valid()
      ensures controls == old(controls).(opacity := opacity)
      ensures selected.Some? && Attached(selected.value) ==>
        var i := IndexOf(nodes, selected.value).value;
        surface == old(surface)[i := old(surface)[i].(opacity := opacity)]
      ensures selected.None? || !Attached(selected.value) ==> surface == old(surface)
    {
      controls := controls.(opacity := opacity);
      if selected.None? {
        return;
      }
      match IndexOf(nodes, selected.value) {
        case Some(i) => surface := surface[i := surface[i].(opacity := opacity)];
        case None =>
      }
    }
  }

  /** Undo then redo, seen from the page: the surface and both stacks are
      back; only the node ids are new. */
  method UndoRedoRoundTrip(e: Editor)
    requires e.Valid() && e.undoStack != []
    modifies e
    ensures e.Valid()
    ensures e.Hist() == old(e.Hist())
  {
    UndoHistory.UndoThenRedo(e.Hist());
    e.Undo();
    e.Redo();
  }

  /** Deleting the selected image and then undoing gives back the surface and
      undo stack from before the delete. */
  method DeleteUndoRoundTrip(e: Editor)
    requires e.Valid() && e.selected.Some?
    modifies e
    ensures e.Valid()
    ensures e.surface == old(e.surface) && e.undoStack == old(e.undoStack)
    ensures e.selected == None
  {
    ghost var h := e.Hist();
    e.Delete();
    UndoHistory.EditThenUndo(h, e.surface);
    e.Undo();
  }

  /** Selecting entry `i` and setting all three controls writes them into
      that entry's style. */
  method SelectAndSet(e: Editor, i: nat, c: Controls)
    requires e.Valid() && i < |e.surface| && e.nodes[i] in e.live
    modifies e
    ensures e.Valid() && e.nodes == old(e.nodes) && e.live == old(e.live)
    ensures e.surface[i].transform == Format(c.rotation, c.scale)
    ensures e.surface[i].opacity == c.opacity
  {
    e.Click(i);
    assert e.Attached(e.nodes[i]) && IndexOf(e.nodes, e.nodes[i]) == Some(i);
    e.InputRotation(c.rotation);
    e.InputScale(c.scale);
    e.InputOpacity(c.opacity);
  }

  /** Selecting an image after setting all three controls reads the same
      three values back into the controls. */
  method ControlsRoundTrip(e: Editor, i: nat, c: Controls)
    requires e.Valid() && i < |e.surface| && e.nodes[i] in e.live && c.opacity != ""
    modifies e
    ensures e.Valid() && e.nodes == old(e.nodes)
    ensures e.controls == c && e.selected == Some(e.nodes[i])
  {
    SelectAndSet(e, i, c);
    ghost var styled := e.surface[i];
    assert styled == styled.(transform := Format(c.rotation, c.scale), opacity := c.opacity);
    ReadBackApplied(styled, c);
    e.Click(i);
  }

  /** On the page itself, the undo and redo tops can coincide: a clear of
      the freshly loaded canvas followed by an undo leaves the base-only
      surface on top of both stacks. */
  method SharedTopsOnPage(base: Element) returns (e: Editor)
    ensures e.Valid() && e.undoStack != [] && e.redoStack != []
    ensures e.undoStack[|e.undoStack| - 1] == e.redoStack[|e.redoStack| - 1]
  {
    e := new Editor(base);
    e.Clear();
    e.Undo();
  }
}

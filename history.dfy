/**
  The history manager: a surface value plus two stacks of whole-surface
  snapshots. It never looks inside a snapshot, so the snapshot type is a
  parameter. The top of a stack is the LAST element of the sequence, as with
  JavaScript's `push` and `pop`.
*/
module UndoHistory {

  datatype History<S> = History(surface: S, undo: seq<S>, redo: seq<S>)

  /** `saveState`: push the current surface onto the undo stack, drop the redo stack. */
  function Save<S>(h: History<S>): (r: History<S>)
    ensures r.surface == h.surface
    ensures |r.undo| == |h.undo| + 1 && r.undo[..|h.undo|] == h.undo && r.undo[|h.undo|] == h.surface
    ensures r.redo == []
  {
    History(h.surface, h.undo + [h.surface], [])
  }

  /** A destructive edit: snapshot first, then the surface becomes `s`. */
  function Edit<S>(h: History<S>, s: S): (r: History<S>)
    ensures r == Save(h).(surface := s)
  {
    History(s, h.undo + [h.surface], [])
  }

  /** Undo: no-op on an empty undo stack; otherwise the surface moves to the
      redo stack and the undo top becomes the surface. */
  function Undo<S>(h: History<S>): (r: History<S>)
    ensures |r.undo| + |r.redo| == |h.undo| + |h.redo|
    ensures h.undo == [] ==> r == h
    ensures h.undo != [] ==>
      r.undo + [r.surface] == h.undo && |r.redo| == |h.redo| + 1 &&
      r.redo[..|h.redo|] == h.redo && r.redo[|h.redo|] == h.surface
  {
    if |h.undo| == 0 then h
    else History(h.undo[|h.undo| - 1], h.undo[..|h.undo| - 1], h.redo + [h.surface])
  }

  /** Redo: the mirror image of Undo. */
  function Redo<S>(h: History<S>): (r: History<S>)
    ensures |r.undo| + |r.redo| == |h.undo| + |h.redo|
    ensures h.redo == [] ==> r == h
    ensures h.redo != [] ==>
      r.redo + [r.surface] == h.redo && |r.undo| == |h.undo| + 1 &&
      r.undo[..|h.undo|] == h.undo && r.undo[|h.undo|] == h.surface
  {
    if |h.redo| == 0 then h
    else History(h.redo[|h.redo| - 1], h.undo + [h.surface], h.redo[..|h.redo| - 1])
  }

  /** Undo immediately followed by Redo restores surface and both stacks. */
  lemma UndoThenRedo<S>(h: History<S>)
    requires h.undo != []
    ensures Redo(Undo(h)) == h
  {
  }

  /** Redo immediately followed by Undo restores surface and both stacks. */
  lemma RedoThenUndo<S>(h: History<S>)
    requires h.redo != []
    ensures Undo(Redo(h)) == h
  {
  }

  /** An edit followed by an undo gives back the pre-edit surface and undo
      stack; the redo stack then holds exactly the edited surface. */
  lemma EditThenUndo<S>(h: History<S>, s: S)
    ensures Undo(Edit(h, s)) == History(h.surface, h.undo, [s])
  {
  }

  /** After an undo, any edit makes the following redo a no-op. */
  lemma EditAfterUndoBlocksRedo<S>(h: History<S>, s: S)
    ensures Redo(Edit(Undo(h), s)) == Edit(Undo(h), s)
  {
  }

  /** The edits of `ss`, applied in order. */
  function EditAll<S>(h: History<S>, ss: seq<S>): History<S>
    decreases |ss|
  {
    if ss == [] then h else Edit(EditAll(h, ss[..|ss| - 1]), ss[|ss| - 1])
  }

  /** `n` successive undos. */
  function UndoTimes<S>(h: History<S>, n: nat): History<S>
    decreases n
  {
    if n == 0 then h else Undo(UndoTimes(h, n - 1))
  }

  /** `n` successive redos. */
  function RedoTimes<S>(h: History<S>, n: nat): History<S>
    decreases n
  {
    if n == 0 then h else RedoTimes(Redo(h), n - 1)
  }

  /** Each edit adds one undo entry. */
  lemma {:induction false} EditAllUndoLength<S>(h: History<S>, ss: seq<S>)
    ensures |EditAll(h, ss).undo| == |h.undo| + |ss|
  {
    if ss != [] {
      EditAllUndoLength(h, ss[..|ss| - 1]);
    }
  }

  /** `k` undos after the edits of `ss` leave the surface and the undo stack as
      they were after only the first |ss| - k edits. */
  lemma {:induction false} UndoesRevertEdits<S>(h: History<S>, ss: seq<S>, k: nat)
    requires k <= |ss|
    ensures UndoTimes(EditAll(h, ss), k).surface == EditAll(h, ss[..|ss| - k]).surface
    ensures UndoTimes(EditAll(h, ss), k).undo == EditAll(h, ss[..|ss| - k]).undo
  {
    if k == 0 {
      assert ss[..|ss|] == ss;
    } else {
      UndoesRevertEdits(h, ss, k - 1);
      var m := |ss| - (k - 1);
      var pre := ss[..m];
      assert pre[..|pre| - 1] == ss[..m - 1];
      var z := EditAll(h, ss[..m - 1]);
      assert EditAll(h, pre) == Edit(z, ss[m - 1]);
    }
  }

  /** N destructive edits followed by N undos give back the exact starting
      surface and undo stack. */
  lemma NEditsThenNUndos<S>(h: History<S>, ss: seq<S>)
    ensures UndoTimes(EditAll(h, ss), |ss|).surface == h.surface
    ensures UndoTimes(EditAll(h, ss), |ss|).undo == h.undo
  {
    UndoesRevertEdits(h, ss, |ss|);
    assert ss[..0] == [];
  }

  /** Edits with page changes in between: before the i-th edit the surface
      has become `pre[i]` (a click moved the outlines, say), and the edit
      then replaces it by `post[i]`. */
  function EditEach<S>(h: History<S>, pre: seq<S>, post: seq<S>): History<S>
    requires |pre| == |post|
    decreases |post|
  {
    if post == [] then h
    else
      var n := |post|;
      Edit(EditEach(h, pre[..n - 1], post[..n - 1]).(surface := pre[n - 1]), post[n - 1])
  }

  /** `k` undos after such edits give back the surface from just before the
      k-th last edit, and the undo stack from before it. */
  lemma {:induction false} UndoesRevertEach<S>(h: History<S>, pre: seq<S>, post: seq<S>, k: nat)
    requires |pre| == |post| && 0 < k <= |post|
    ensures UndoTimes(EditEach(h, pre, post), k).surface == pre[|pre| - k]
    ensures UndoTimes(EditEach(h, pre, post), k).undo
         == EditEach(h, pre[..|pre| - k], post[..|post| - k]).undo
  {
    var n := |post|;
    if k > 1 {
      UndoesRevertEach(h, pre, post, k - 1);
    }
    var m := n - (k - 1);
    var p, q := pre[..m], post[..m];
    assert p[..m - 1] == pre[..m - 1] && q[..m - 1] == post[..m - 1];
    assert k == 1 ==> p == pre && q == post;
    assert EditEach(h, p, q)
        == Edit(EditEach(h, pre[..m - 1], post[..m - 1]).(surface := pre[m - 1]), post[m - 1]);
  }

  /** N edits, each after its own change to the surface, then N undos give
      back the surface from just before the first edit and the starting
      undo stack. */
  lemma NChangedEditsThenNUndos<S>(h: History<S>, pre: seq<S>, post: seq<S>)
    requires |pre| == |post| && post != []
    ensures UndoTimes(EditEach(h, pre, post), |post|).surface == pre[0]
    ensures UndoTimes(EditEach(h, pre, post), |post|).undo == h.undo
  {
    UndoesRevertEach(h, pre, post, |post|);
    assert pre[..0] == [] && post[..0] == [];
  }

  /** `n` undos shrink the undo stack by `n` (when it is deep enough). */
  lemma {:induction false} UndoTimesLength<S>(h: History<S>, n: nat)
    requires n <= |h.undo|
    ensures |UndoTimes(h, n).undo| == |h.undo| - n
  {
    if n > 0 {
      UndoTimesLength(h, n - 1);
    }
  }

  /** `n` undos followed by `n` redos restore everything. */
  lemma {:induction false} UndosThenRedos<S>(h: History<S>, n: nat)
    requires n <= |h.undo|
    ensures RedoTimes(UndoTimes(h, n), n) == h
  {
    if n > 0 {
      var u := UndoTimes(h, n - 1);
      UndoTimesLength(h, n - 1);
      UndoThenRedo(u);
      UndosThenRedos(h, n - 1);
    }
  }

  /** The stacks are not kept disjoint at the top: with identical snapshots
      (two saves of the same surface) the undo and redo tops coincide after
      one undo. */
  lemma SharedTopsHappen()
    ensures var h := Undo(Save(Save(History(0, [], []))));
            h.undo != [] && h.redo != [] && h.undo[|h.undo| - 1] == h.redo[|h.redo| - 1]
  {
  }
}

/** The undo and redo stacks of the canvas, and what a user of the canvas sees of them. */
module History {
  import opened Registry

  /** The contents of the store: older snapshots, and undone ones, next redo first. */
  datatype Stacks<S> = Stacks(past: seq<S>, future: seq<S>)

  /** The last `n` elements. */
  function LastOf<S>(s: seq<S>, n: nat): seq<S> { if |s| > n then s[|s| - n..] else s }

  function Pushed<S>(h: Stacks<S>, snapshot: S, maxDepth: nat): Stacks<S>
  {
    Stacks(LastOf(h.past + [snapshot], maxDepth), [])
  }

  function Undone<S>(h: Stacks<S>, current: S): Stacks<S>
  {
    if h.past == [] then h else Stacks(h.past[..|h.past| - 1], [current] + h.future)
  }

  function Redone<S>(h: Stacks<S>, current: S): Stacks<S>
  {
    if h.future == [] then h else Stacks(h.past + [current], h.future[1..])
  }

  /** The store; every operation replaces its arrays. */
  class HistoryStore<S> {
    var past: seq<S>
    var future: seq<S>
    const maxDepth: nat

    constructor (maxDepth: nat)
      ensures past == [] && future == [] && this.maxDepth == maxDepth
    {
      past, future := [], [];
      this.maxDepth := maxDepth;
    }

    function Contents(): Stacks<S>
      reads this
    {
      Stacks(past, future)
    }

    method PushSnapshot(snapshot: S)
      modifies this
      ensures Contents() == Pushed(old(Contents()), snapshot, maxDepth)
    {
      var newPast := past + [snapshot];
      if |newPast| > maxDepth {
        newPast := newPast[|newPast| - maxDepth..];
      }
      past, future := newPast, [];
    }

    /** Returns the snapshot to restore, or None when there is nothing to undo. */
    method Undo(current: S) returns (r: Option<S>)
      modifies this
      ensures Contents() == Undone(old(Contents()), current)
      ensures r == if old(past) == [] then None else Some(old(past)[|old(past)| - 1])
    {
      if |past| == 0 { return None; }
      var snapshot := past[|past| - 1];
      past, future := past[..|past| - 1], [current] + future;
      return Some(snapshot);
    }

    method Redo(current: S) returns (r: Option<S>)
      modifies this
      ensures Contents() == Redone(old(Contents()), current)
      ensures r == if old(future) == [] then None else Some(old(future)[0])
    {
      if |future| == 0 { return None; }
      var snapshot := future[0];
      past, future := past + [current], future[1..];
      return Some(snapshot);
    }

    method Clear()
      modifies this
      ensures Contents() == Stacks([], [])
    {
      past, future := [], [];
    }
  }

  // ---- the canvas on top of the store ------------------------------------------------------------------

  datatype Editor<S> = Editor(h: Stacks<S>, canvas: S, maxDepth: nat)
  {
    /** Everything undo and redo can show, oldest first; the canvas is at position |h.past|. */
    function Line(): seq<S> { h.past + [canvas] + h.future }
  }

  datatype Op<S> = Snapshot | Change(to: S) | UndoOp | RedoOp | ClearOp

  /** What the canvas component does: undo and redo pass it the current canvas and show what they return. */
  function Apply<S>(e: Editor<S>, op: Op<S>): Editor<S>
  {
    match op
    case Snapshot => e.(h := Pushed(e.h, e.canvas, e.maxDepth))
    case Change(to) => e.(canvas := to)
    case UndoOp => if e.h.past == [] then e else e.(h := Undone(e.h, e.canvas), canvas := e.h.past[|e.h.past| - 1])
    case RedoOp => if e.h.future == [] then e else e.(h := Redone(e.h, e.canvas), canvas := e.h.future[0])
    case ClearOp => e.(h := Stacks([], []))
  }

  function ApplyAll<S>(e: Editor<S>, ops: seq<Op<S>>): Editor<S>
  {
    if ops == [] then e else Apply(ApplyAll(e, ops[..|ops| - 1]), ops[|ops| - 1])
  }

  /** Undo and redo only move the cursor: the line stays as it is. */
  lemma CursorMoves<S>(e: Editor<S>)
    ensures Apply(e, UndoOp).Line() == e.Line() == Apply(e, RedoOp).Line()
    ensures |Apply(e, UndoOp).h.past| == if e.h.past == [] then 0 else |e.h.past| - 1
    ensures |Apply(e, RedoOp).h.past| == if e.h.future == [] then |e.h.past| else |e.h.past| + 1
    ensures e.h.past != [] ==> Apply(Apply(e, UndoOp), RedoOp) == e
    ensures e.h.future != [] ==> Apply(Apply(e, RedoOp), UndoOp) == e
  {
    var h := e.h;
    if h.past != [] {
      var last := h.past[|h.past| - 1];
      assert h.past == h.past[..|h.past| - 1] + [last];
      assert ([e.canvas] + h.future)[1..] == h.future;
    }
    if h.future != [] {
      assert h.future == [h.future[0]] + h.future[1..];
      assert (h.past + [e.canvas])[..|h.past|] == h.past;
    }
  }

  /** Whatever is done to the canvas, both stacks together never exceed the limit, although redo does not check it. */
  lemma {:induction false} DepthIsBounded<S>(e: Editor<S>, ops: seq<Op<S>>)
    requires |e.h.past| + |e.h.future| <= e.maxDepth
    ensures var f := ApplyAll(e, ops); f.maxDepth == e.maxDepth && |f.h.past| + |f.h.future| <= f.maxDepth
  {
    if ops != [] { DepthIsBounded(e, ops[..|ops| - 1]); }
  }

  /** Edits with a snapshot of the canvas before each. */
  function EditAll<S>(e: Editor<S>, canvases: seq<S>): Editor<S>
  {
    if canvases == [] then e else
    Apply(Apply(EditAll(e, canvases[..|canvases| - 1]), Snapshot), Change(canvases[|canvases| - 1]))
  }

  function Times<S>(e: Editor<S>, op: Op<S>, k: nat): Editor<S>
  {
    if k == 0 then e else Apply(Times(e, op, k - 1), op)
  }

  lemma LastOfAppend<S>(s: seq<S>, x: S, n: nat)
    ensures LastOf(LastOf(s, n) + [x], n) == LastOf(s + [x], n)
  {
  }

  /** After edits the past holds the canvases before each edit, oldest dropped beyond the limit. */
  lemma {:induction false} PastOfEdits<S>(e: Editor<S>, canvases: seq<S>)
    requires |e.h.past| <= e.maxDepth && canvases != []
    ensures var f := EditAll(e, canvases);
            && f.canvas == canvases[|canvases| - 1] && f.h.future == [] && f.maxDepth == e.maxDepth
            && f.h.past == LastOf(e.h.past + [e.canvas] + canvases[..|canvases| - 1], e.maxDepth)
  {
    var n := |canvases|;
    if n == 1 {
      assert e.h.past + [e.canvas] + canvases[..0] == e.h.past + [e.canvas];
      assert EditAll(e, canvases[..0]) == e;
    } else {
      var init := canvases[..n - 1];
      PastOfEdits(e, init);
      LastOfAppend(e.h.past + [e.canvas] + init[..n - 2], init[n - 2], e.maxDepth);
      assert e.h.past + [e.canvas] + init[..n - 2] + [init[n - 2]] == e.h.past + [e.canvas] + init by {
        assert init == init[..n - 2] + [init[n - 2]];
      }
    }
  }

  lemma {:induction false} UndoTimes<S>(e: Editor<S>, k: nat)
    requires k <= |e.h.past|
    ensures var f := Times(e, UndoOp, k);
            f.Line() == e.Line() && |f.h.past| == |e.h.past| - k && f.canvas == e.Line()[|e.h.past| - k]
  {
    if k > 0 {
      UndoTimes(e, k - 1);
      var f := Times(e, UndoOp, k - 1);
      CursorMoves(f);
      var g := Apply(f, UndoOp);
      assert g.Line()[|g.h.past|] == g.canvas;
    } else {
      assert e.Line()[|e.h.past|] == e.canvas;
    }
  }

  lemma {:induction false} RedoUndoes<S>(e: Editor<S>, k: nat)
    requires k <= |e.h.past|
    ensures Times(Times(e, UndoOp, k), RedoOp, k) == e
  {
    if k > 0 {
      UndoTimes(e, k - 1);
      var f := Times(e, UndoOp, k - 1);
      CursorMoves(f);
      TimesShift(Apply(f, UndoOp), k - 1);
      RedoUndoes(e, k - 1);
    }
  }

  lemma {:induction false} TimesShift<S>(e: Editor<S>, k: nat)
    ensures Times(e, RedoOp, k + 1) == Times(Apply(e, RedoOp), RedoOp, k)
  {
    if k > 0 { TimesShift(e, k - 1); }
  }

  /** After `n` snapshotted edits, `k` undos, for any `k` up to the smaller of `n` and the limit, show the canvas of `k`
      edits ago, and `k` redos bring everything back. */
  lemma UndoRestoresEdits<S>(e: Editor<S>, canvases: seq<S>, k: nat)
    requires |e.h.past| <= e.maxDepth && k <= |canvases| && k <= e.maxDepth
    ensures var f := EditAll(e, canvases);
            && Times(f, UndoOp, k).canvas == ([e.canvas] + canvases)[|canvases| - k]
            && Times(Times(f, UndoOp, k), RedoOp, k) == f
  {
    var f := EditAll(e, canvases);
    if canvases != [] { PastOfEdits(e, canvases); }
    if k > 0 {
      UndoRedoAt(f, k);
    }
  }

  lemma UndoRedoAt<S>(f: Editor<S>, k: nat)
    requires 1 <= k <= |f.h.past|
    ensures Times(f, UndoOp, k).canvas == f.h.past[|f.h.past| - k]
    ensures Times(Times(f, UndoOp, k), RedoOp, k) == f
  {
    UndoTimes(f, k);
    RedoUndoes(f, k);
  }
}

/** The stroke ledger: committed strokes in creation order plus a LIFO redo
    buffer, both updated in place. */
module InkLedger {
  import opened InkStrokes

  class InkManager {
    /** Committed strokes, oldest first. */
    var done: seq<Stroke>
    /** Strokes removed by undo; the most recently undone one is last. */
    var undone: seq<Stroke>

    constructor ()
      ensures done == [] && undone == []
    {
      done := [];
      undone := [];
    }

    /** Appends a new stroke and invalidates the redo history. */
    method Add(s: Stroke)
      modifies this
      ensures done == old(done) + [s]
      ensures undone == []
    {
      done := done + [s];
      undone := [];
    }

    method CanUndo() returns (b: bool)
      ensures b <==> |done| > 0
    {
      b := done != [];
    }

    method CanRedo() returns (b: bool)
      ensures b <==> |undone| > 0
    {
      b := undone != [];
    }

    /** Moves the newest committed stroke onto the redo buffer; does nothing
        when no stroke is committed. */
    method Undo()
      modifies this
      ensures old(done) == [] ==> done == [] && undone == old(undone)
      ensures old(done) != [] ==>
                done == old(done)[..|old(done)| - 1] &&
                undone == old(undone) + [old(done)[|old(done)| - 1]]
      ensures |done| + |undone| == old(|done| + |undone|)
      ensures multiset(done + undone) == old(multiset(done + undone))
    {
      if done != [] {
        var s := done[|done| - 1];
        assert done == done[..|done| - 1] + [s];
        done := done[..|done| - 1];
        undone := undone + [s];
      }
    }

    /** Moves the most recently undone stroke back to the end of the committed
        strokes; does nothing when the redo buffer is empty. */
    method Redo()
      modifies this
      ensures old(undone) == [] ==> done == old(done) && undone == []
      ensures old(undone) != [] ==>
                done == old(done) + [old(undone)[|old(undone)| - 1]] &&
                undone == old(undone)[..|old(undone)| - 1]
      ensures |done| + |undone| == old(|done| + |undone|)
      ensures multiset(done + undone) == old(multiset(done + undone))
    {
      if undone != [] {
        var s := undone[|undone| - 1];
        assert undone == undone[..|undone| - 1] + [s];
        undone := undone[..|undone| - 1];
        done := done + [s];
      }
    }

    /** Forgets every stroke and the whole redo history. */
    method Clear()
      modifies this
      ensures done == [] && undone == []
    {
      done := [];
      undone := [];
    }

    /** Removes the committed strokes of one page, keeping all others in
        their order, and drops the whole redo history. */
    method ClearPage(pageIndex: int)
      modifies this
      ensures done == OffPage(old(done), pageIndex)
      ensures undone == []
      ensures OnPage(done, pageIndex) == []
      ensures forall q :: q != pageIndex ==> OnPage(done, q) == OnPage(old(done), q)
      ensures multiset(done) + multiset(OnPage(old(done), pageIndex)) == old(multiset(done))
    {
      ghost var before := done;
      done := OffPage(done, pageIndex);
      undone := [];
      OffPageSelection(before, pageIndex, pageIndex);
      forall q | q != pageIndex
        ensures OnPage(done, q) == OnPage(before, q)
      {
        OffPageSelection(before, pageIndex, q);
      }
      PagePartition(before, pageIndex);
    }

    /** The committed strokes on one page, in creation (painter's) order. */
    method GetStrokesForPage(pageIndex: int) returns (out: seq<Stroke>)
      ensures out == OnPage(done, pageIndex)
      ensures forall s :: s in out <==> s in done && s.pageIndex == pageIndex
    {
      out := [];
      for k := 0 to |done|
        invariant out == OnPage(done[..k], pageIndex)
      {
        var s := done[k];
        assert done[..k + 1][..k] == done[..k];
        if s.pageIndex == pageIndex {
          out := out + [s];
        }
      }
      assert done[..|done|] == done;
      OnPageMembers(done, pageIndex);
    }

    /** A copy of the committed strokes in creation order. */
    method GetAll() returns (all: seq<Stroke>)
      ensures all == done
    {
      all := done;
    }
  }

  /** Undo followed by redo restores both histories exactly. */
  method UndoThenRedo(m: InkManager)
    requires m.done != []
    modifies m
    ensures m.done == old(m.done) && m.undone == old(m.undone)
  {
    m.Undo();
    m.Redo();
  }

  /** A stroke added after an undo makes the undone stroke unreachable: the
      redo history is gone and the undone stroke is not committed again. */
  method AddAfterUndo(m: InkManager, s: Stroke)
    requires m.done != []
    modifies m
    ensures m.done == old(m.done)[..|old(m.done)| - 1] + [s]
    ensures m.undone == []
  {
    m.Undo();
    m.Add(s);
  }

  /** The canUndo/canRedo trace of the scenario: start empty, add a stroke,
      undo it, add another stroke. */
  method UndoRedoScenario(a: Stroke, b: Stroke) returns (trace: seq<(bool, bool)>)
    ensures trace == [(false, false), (true, false), (false, true), (true, false)]
  {
    var m := new InkManager();
    var u := m.CanUndo();
    var r := m.CanRedo();
    trace := [(u, r)];
    m.Add(a);
    u := m.CanUndo();
    r := m.CanRedo();
    trace := trace + [(u, r)];
    m.Undo();
    u := m.CanUndo();
    r := m.CanRedo();
    trace := trace + [(u, r)];
    m.Add(b);
    u := m.CanUndo();
    r := m.CanRedo();
    trace := trace + [(u, r)];
  }
}

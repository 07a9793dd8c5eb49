/** The per-layer undo/redo engine.  Each layer owns two stacks of image
    snapshots; the newest snapshot is the last element of each sequence
    (QVector::append / takeLast). */
module History {
  import opened Imaging

  /** pushUndoForActiveLayer keeps at most this many undo snapshots. */
  const MAX_UNDO := 20

  /** The Layer struct: name, image, and its own undo and redo stacks. */
  datatype Layer = Layer(name: string, image: Image, undoStack: seq<Image>, redoStack: seq<Image>)

  function Last<T>(s: seq<T>): T
    requires |s| > 0
  {
    s[|s| - 1]
  }

  /** The newest `n` entries of `s`, or all of them when there are fewer. */
  function Newest<T>(s: seq<T>, n: nat): (r: seq<T>)
    ensures |r| == if |s| <= n then |s| else n
    ensures forall i :: 0 <= i < |r| ==> r[i] == s[|s| - |r| + i]
  {
    if |s| <= n then s else s[|s| - n..]
  }

  /** pushUndoForActiveLayer on one layer: append a copy of the image, then
      remove index 0 once the stack holds more than MAX_UNDO entries. */
  function PushUndo(l: Layer): (r: Layer)
    ensures |r.undoStack| > 0 && Last(r.undoStack) == l.image
    ensures r.name == l.name && r.image == l.image && r.redoStack == l.redoStack
  {
    var u := l.undoStack + [l.image];
    l.(undoStack := if |u| > MAX_UNDO then u[1..] else u)
  }

  /** clearRedoForActiveLayer on one layer. */
  function ClearRedo(l: Layer): (r: Layer)
    ensures r.redoStack == []
    ensures r.name == l.name && r.image == l.image && r.undoStack == l.undoStack
  {
    l.(redoStack := [])
  }

  /** What onStrokeStarted does, and clearCanvas around its fill: snapshot, then forget the redo history. */
  function BeginMutation(l: Layer): (r: Layer)
    ensures |r.undoStack| > 0 && Last(r.undoStack) == l.image && r.redoStack == []
    ensures r.name == l.name && r.image == l.image
  {
    ClearRedo(PushUndo(l))
  }

  /** A committed edit: the snapshot is taken, then the image becomes `img`. */
  function Edit(l: Layer, img: Image): (r: Layer)
    ensures |r.undoStack| > 0 && Last(r.undoStack) == l.image && r.redoStack == []
    ensures r.name == l.name && r.image == img
  {
    BeginMutation(l).(image := img)
  }

  /** MainWindow::undo on one layer: nothing when the undo stack is empty;
      otherwise the image goes onto the redo stack and the newest undo
      snapshot, taken off its stack, becomes the image. */
  function Undo(l: Layer): (r: Layer)
    ensures r.name == l.name
    ensures |r.undoStack| + |r.redoStack| == |l.undoStack| + |l.redoStack|
    ensures |l.undoStack| > 0 ==> r.image == Last(l.undoStack) && |r.redoStack| > 0 && Last(r.redoStack) == l.image
  {
    if |l.undoStack| == 0 then l
    else Layer(l.name, Last(l.undoStack), l.undoStack[..|l.undoStack| - 1], l.redoStack + [l.image])
  }

  /** MainWindow::redo on one layer: the mirror image of Undo. */
  function Redo(l: Layer): (r: Layer)
    ensures r.name == l.name
    ensures |r.undoStack| + |r.redoStack| == |l.undoStack| + |l.redoStack|
    ensures |l.redoStack| > 0 ==> r.image == Last(l.redoStack) && |r.undoStack| > 0 && Last(r.undoStack) == l.image
  {
    if |l.redoStack| == 0 then l
    else Layer(l.name, Last(l.redoStack), l.undoStack + [l.image], l.redoStack[..|l.redoStack| - 1])
  }

  /** Together the two stacks never hold more than MAX_UNDO snapshots. */
  predicate HistoryBounded(l: Layer)
  {
    |l.undoStack| + |l.redoStack| <= MAX_UNDO
  }

  /** After a push the newest undo entry is the image, the stack keeps the
      newest MAX_UNDO snapshots, and at MAX_UNDO + 1 entries the oldest goes. */
  lemma PushUndoSnapshot(l: Layer)
    requires |l.undoStack| <= MAX_UNDO
    ensures var r := PushUndo(l);
      && |r.undoStack| > 0 && Last(r.undoStack) == l.image
      && |r.undoStack| <= MAX_UNDO
      && r.undoStack == Newest(l.undoStack + [l.image], MAX_UNDO)
      && (|l.undoStack| == MAX_UNDO ==> r.undoStack == l.undoStack[1..] + [l.image])
      && (|l.undoStack| < MAX_UNDO ==> r.undoStack == l.undoStack + [l.image])
      && r.image == l.image && r.redoStack == l.redoStack && r.name == l.name
  {
    if |l.undoStack| == MAX_UNDO {
      assert (l.undoStack + [l.image])[1..] == l.undoStack[1..] + [l.image];
    }
  }

  /** A stroke start or a clear leaves the redo stack empty, so a redo right
      after it changes nothing, and one undo brings back the pre-edit image. */
  lemma {:induction false} EditForgetsRedo(l: Layer, img: Image)
    ensures Edit(l, img).redoStack == []
    ensures Redo(Edit(l, img)) == Edit(l, img)
    ensures Undo(Edit(l, img)).image == l.image
    ensures Undo(Edit(l, img)).redoStack == [img]
  {
    var u := l.undoStack + [l.image];
    assert Last(u) == l.image;
    if |u| > MAX_UNDO {
      assert Last(u[1..]) == l.image;
    }
  }

  /** Undo and redo each change a layer exactly when their own stack is not empty. */
  lemma UndoRedoChangeIff(l: Layer)
    ensures Undo(l) == l <==> |l.undoStack| == 0
    ensures Redo(l) == l <==> |l.redoStack| == 0
  {
    if |l.undoStack| > 0 {
      assert |Undo(l).redoStack| == |l.redoStack| + 1;
    }
    if |l.redoStack| > 0 {
      assert |Redo(l).undoStack| == |l.undoStack| + 1;
    }
  }

  /** Undo followed by redo restores the image and both stacks, and so does
      redo followed by undo. */
  lemma {:induction false} UndoRedoRoundTrip(l: Layer)
    ensures |l.undoStack| > 0 ==> Redo(Undo(l)) == l
    ensures |l.redoStack| > 0 ==> Undo(Redo(l)) == l
  {
    if |l.undoStack| > 0 {
      assert l.undoStack[..|l.undoStack| - 1] + [Last(l.undoStack)] == l.undoStack;
      assert (l.redoStack + [l.image])[..|l.redoStack|] == l.redoStack;
    }
    if |l.redoStack| > 0 {
      assert l.redoStack[..|l.redoStack| - 1] + [Last(l.redoStack)] == l.redoStack;
      assert (l.undoStack + [l.image])[..|l.undoStack|] == l.undoStack;
    }
  }

  /** Every history operation keeps the bound of at most MAX_UNDO snapshots in all. */
  lemma {:induction false} HistoryBoundedPreserved(l: Layer, img: Image)
    requires HistoryBounded(l)
    ensures HistoryBounded(BeginMutation(l))
    ensures HistoryBounded(Edit(l, img))
    ensures HistoryBounded(Undo(l))
    ensures HistoryBounded(Redo(l))
  {
    PushUndoSnapshot(l);
  }

  /** Keeping the newest `n` and then appending and keeping the newest `n`
      again is the same as appending first. */
  lemma {:induction false} NewestAppend<T>(s: seq<T>, t: seq<T>, n: nat)
    ensures Newest(Newest(s, n) + t, n) == Newest(s + t, n)
  {
    var a := Newest(Newest(s, n) + t, n);
    var b := Newest(s + t, n);
    assert |a| == |b|;
    forall i | 0 <= i < |a|
      ensures a[i] == b[i]
    {
    }
  }

  /** A run of committed edits, one per image of `imgs`, in order. */
  function Edits(l: Layer, imgs: seq<Image>): Layer
    decreases |imgs|
  {
    if imgs == [] then l else Edits(Edit(l, imgs[0]), imgs[1..])
  }

  /** `k` successive undos. */
  function UndoN(l: Layer, k: nat): Layer
  {
    if k == 0 then l else Undo(UndoN(l, k - 1))
  }

  /** `k` successive redos. */
  function RedoN(l: Layer, k: nat): Layer
    decreases k
  {
    if k == 0 then l else RedoN(Redo(l), k - 1)
  }

  /** After a run of edits, the undo stack holds the newest MAX_UNDO of the
      earlier snapshots followed by the images before each edit. */
  lemma {:induction false} EditsHistory(l: Layer, imgs: seq<Image>)
    requires |l.undoStack| <= MAX_UNDO
    ensures Edits(l, imgs).undoStack == Newest(l.undoStack + ([l.image] + imgs)[..|imgs|], MAX_UNDO)
    ensures Edits(l, imgs).image == ([l.image] + imgs)[|imgs|]
    decreases |imgs|
  {
    if imgs != [] {
      var l1 := Edit(l, imgs[0]);
      PushUndoSnapshot(l);
      var rest := imgs[1..];
      EditsHistory(l1, rest);
      assert Edits(l, imgs) == Edits(l1, rest);
      NewestAppend(l.undoStack + [l.image], ([imgs[0]] + rest)[..|rest|], MAX_UNDO);
      SeenShift(l.undoStack, l.image, imgs);
    }
  }

  /** The images seen before each edit, shifted by one edit. */
  lemma SeenShift<T>(u: seq<T>, a: T, s: seq<T>)
    requires |s| >= 1
    ensures u + [a] + ([s[0]] + s[1..])[..|s| - 1] == u + ([a] + s)[..|s|]
    ensures ([s[0]] + s[1..])[|s| - 1] == ([a] + s)[|s|]
  {
    assert [s[0]] + s[1..] == s;
    assert ([a] + s)[..|s|] == [a] + s[..|s| - 1];
  }

  /** `k` undos take the newest `k` entries off the undo stack, and the image
      becomes the `k`-th newest snapshot. */
  lemma {:induction false} UndoNTakes(l: Layer, k: nat)
    requires k <= |l.undoStack|
    ensures UndoN(l, k).undoStack == l.undoStack[..|l.undoStack| - k]
    ensures k > 0 ==> UndoN(l, k).image == l.undoStack[|l.undoStack| - k]
  {
    if k > 0 {
      UndoNTakes(l, k - 1);
      var m := UndoN(l, k - 1);
      assert m.undoStack[..|m.undoStack| - 1] == l.undoStack[..|l.undoStack| - k];
    }
  }

  /** Undoing `k` of a run of at most MAX_UNDO edits brings back, bit for
      bit, the image as it was before the last `k` edits; undoing all of them
      brings back the image before the first. */
  lemma {:induction false} UndoAfterEdits(l: Layer, imgs: seq<Image>, k: nat)
    requires |l.undoStack| <= MAX_UNDO
    requires k <= |imgs| <= MAX_UNDO
    ensures UndoN(Edits(l, imgs), k).image == ([l.image] + imgs)[|imgs| - k]
  {
    EditsHistory(l, imgs);
    if k > 0 {
      var seen := ([l.image] + imgs)[..|imgs|];
      UndoReachesSnapshot(Edits(l, imgs), l.undoStack, seen, k);
      assert seen[|seen| - k] == ([l.image] + imgs)[|imgs| - k];
    }
  }

  /** When the undo stack keeps the newest MAX_UNDO of `p + q`, `k` undos
      bring back the `k`-th newest entry of `q`. */
  lemma UndoReachesSnapshot(e: Layer, p: seq<Image>, q: seq<Image>, k: nat)
    requires e.undoStack == Newest(p + q, MAX_UNDO)
    requires 0 < k <= |q| <= MAX_UNDO
    ensures UndoN(e, k).image == q[|q| - k]
  {
    var u := Newest(p + q, MAX_UNDO);
    NewestKeepsSuffix(p, q, MAX_UNDO, k);
    assert |e.undoStack| >= k && e.undoStack[|e.undoStack| - k] == q[|q| - k];
    UndoNTakes(e, k);
  }

  /** The `k`-th newest entry survives keeping the newest `n`, for `k` up to `n`. */
  lemma NewestKeepsSuffix<T>(p: seq<T>, q: seq<T>, n: nat, k: nat)
    requires 0 < k <= |q| <= n
    ensures var u := Newest(p + q, n); |u| >= k && u[|u| - k] == q[|q| - k]
  {
    var u := Newest(p + q, n);
    assert u[|u| - k] == (p + q)[|p + q| - k];
  }

  /** `k` redos after `k` undos give back the layer exactly. */
  lemma {:induction false} RedoAfterUndo(l: Layer, k: nat)
    requires k <= |l.undoStack|
    ensures RedoN(UndoN(l, k), k) == l
  {
    if k > 0 {
      var m := UndoN(l, k - 1);
      UndoNTakes(l, k - 1);
      assert |m.undoStack| > 0;
      UndoRedoRoundTrip(m);
      assert UndoN(l, k) == Undo(m);
      assert RedoN(UndoN(l, k), k) == RedoN(Redo(Undo(m)), k - 1);
      RedoAfterUndo(l, k - 1);
    }
  }
}

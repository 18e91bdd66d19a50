/** Offset reconciliation after a text edit (`_reconcileAnnotations`): each
    annotation is walked once through the edit script, its offsets are mapped
    through `equal` runs, deletions overlapping its span are flagged, and it is
    sorted into the updated or the invalidated list.

    `WalkAnnotation` is the inner loop as written (with its early `break`) and
    `ReconcileAnnotations` the outer loop; both are proved equal to the functions
    `Walk` and `UpdatedAnnotations`/`InvalidatedAnnotations`.  The lemmas relate
    the walk to independent definitions of the offset map (`MapOffset`: the first
    `equal` run whose closed range contains the offset) and of deletion overlap
    (`DeleteOverlaps`), and prove the partition, the non-empty survivor, the
    identity edit, and pure insertion and deletion. */
module Reconcile {
  import opened Common
  import opened TextDiff

  /** An annotation record: offsets into the old text, the cached snapshot
      `annotated_text`, and every other field (id, entity, colours, ...) as an
      opaque payload that reconciliation copies unchanged. */
  datatype Annotation<P> = Annotation(start: nat, end: nat, text: seq<char>, payload: P)

  /** The per-annotation state of the walk: `oldPos`, `newPos`, `newStart`,
      `newEnd` (`null` is `None`) and `deletedWithinAnnotation`. */
  datatype Cursor = Cursor(oldPos: nat, newPos: nat, newStart: Option<nat>, newEnd: Option<nat>, deleted: bool)

  const Initial: Cursor := Cursor(0, 0, None, None, false)

  /** Where an annotation goes. */
  datatype Outcome<P> = Survives(updated: Annotation<P>) | Invalidated

  // ---------------------------------------------------------------------------
  // The walk, as functions
  // ---------------------------------------------------------------------------

  /** One iteration of the walk over run `op`, for the span `[s, e)`. */
  function StepCursor(c: Cursor, op: Op, s: nat, e: nat): Cursor
  {
    match op.kind
    case Equal =>
      var opOldEnd := c.oldPos + op.count;
      var ns := if c.newStart.None? && c.oldPos <= s <= opOldEnd then Some(c.newPos + (s - c.oldPos)) else c.newStart;
      var ne := if c.newEnd.None? && c.oldPos <= e <= opOldEnd then Some(c.newPos + (e - c.oldPos)) else c.newEnd;
      Cursor(opOldEnd, c.newPos + op.count, ns, ne, c.deleted)
    case Insert =>
      c.(newPos := c.newPos + op.count)
    case Delete =>
      var deleteEnd := c.oldPos + op.count;
      var overlap := Max(c.oldPos, s) < Min(deleteEnd, e);
      c.(oldPos := deleteEnd, deleted := c.deleted || overlap)
  }

  /** The walk over every run, without the early exit. */
  function Walk(c: Cursor, ops: seq<Op>, s: nat, e: nat): Cursor
    decreases |ops|
  {
    if ops == [] then c else Walk(StepCursor(c, ops[0], s, e), ops[1..], s, e)
  }

  /** The decision after the walk. */
  function Decide<P>(ann: Annotation<P>, newStart: Option<nat>, newEnd: Option<nat>, deleted: bool, newText: seq<char>): (r: Outcome<P>)
    ensures r.Survives? <==> newStart.Some? && newEnd.Some? && (deleted ==> newEnd.value > newStart.value)
    ensures r.Survives? ==>
              && r.updated.start == newStart.value && r.updated.end == newEnd.value
              && r.updated.text == ClampedSlice(newText, newStart.value, newEnd.value)
              && r.updated.payload == ann.payload
  {
    if deleted then
      if newStart.Some? && newEnd.Some? && newEnd.value > newStart.value
      then Survives(ann.(start := newStart.value, end := newEnd.value,
                         text := ClampedSlice(newText, newStart.value, newEnd.value)))
      else Invalidated
    else if newStart.None? || newEnd.None? then Invalidated
    else Survives(ann.(start := newStart.value, end := newEnd.value,
                       text := ClampedSlice(newText, newStart.value, newEnd.value)))
  }

  /** The fate of one annotation under the edit script `ops`. */
  function Classify<P>(ops: seq<Op>, newText: seq<char>, ann: Annotation<P>): Outcome<P>
  {
    var c := Walk(Initial, ops, ann.start, ann.end);
    Decide(ann, c.newStart, c.newEnd, c.deleted, newText)
  }

  /** The outcome of every annotation, in input order. */
  function Outcomes<P>(ops: seq<Op>, newText: seq<char>, anns: seq<Annotation<P>>): (r: seq<Outcome<P>>)
    ensures |r| == |anns|
    decreases |anns|
  {
    if anns == [] then []
    else Outcomes(ops, newText, anns[..|anns| - 1]) + [Classify(ops, newText, anns[|anns| - 1])]
  }

  /** The updated records of the surviving outcomes, in order. */
  function Survivors<P>(outs: seq<Outcome<P>>): seq<Annotation<P>>
    decreases |outs|
  {
    if outs == [] then []
    else
      var last := outs[|outs| - 1];
      Survivors(outs[..|outs| - 1]) + if last.Survives? then [last.updated] else []
  }

  /** The records whose outcome is `Invalidated`, unchanged and in order. */
  function Rejected<P>(anns: seq<Annotation<P>>, outs: seq<Outcome<P>>): seq<Annotation<P>>
    requires |anns| == |outs|
    decreases |outs|
  {
    if outs == [] then []
    else
      Rejected(anns[..|anns| - 1], outs[..|outs| - 1]) +
      if outs[|outs| - 1].Invalidated? then [anns[|anns| - 1]] else []
  }

  /** `updatedAnnotations`. */
  function UpdatedAnnotations<P>(ops: seq<Op>, newText: seq<char>, anns: seq<Annotation<P>>): seq<Annotation<P>>
  {
    Survivors(Outcomes(ops, newText, anns))
  }

  /** `invalidated`. */
  function InvalidatedAnnotations<P>(ops: seq<Op>, newText: seq<char>, anns: seq<Annotation<P>>): seq<Annotation<P>>
  {
    Rejected(anns, Outcomes(ops, newText, anns))
  }

  // ---------------------------------------------------------------------------
  // Reference definitions
  // ---------------------------------------------------------------------------

  /** Where old offset `x` lands: in the FIRST `equal` run whose closed old range
      `[oldPos, oldPos + count]` contains it, at the same distance from the run's
      start on the new side; `None` if no `equal` run contains it.  `oldPos` and
      `newPos` are where the remaining runs begin. */
  function MapOffset(ops: seq<Op>, x: nat, oldPos: nat, newPos: nat): Option<nat>
    decreases |ops|
  {
    if ops == [] then None
    else
      var op := ops[0];
      if op.kind == Equal && oldPos <= x <= oldPos + op.count then Some(newPos + (x - oldPos))
      else MapOffset(ops[1..], x, oldPos + OldAdvance(op), newPos + NewAdvance(op))
  }

  /** The half-open ranges `[p, q)` and `[s, e)` share a position. */
  predicate Overlaps(p: int, q: int, s: int, e: int)
  {
    p < q && s < e && p < e && s < q
  }

  /** Some `delete` run of `ops` (which begin at old position `oldPos`) removes a
      unit of `[s, e)`. */
  predicate DeleteOverlaps(ops: seq<Op>, s: nat, e: nat, oldPos: nat)
    decreases |ops|
  {
    if ops == [] then false
    else
      || (ops[0].kind == Delete && Overlaps(oldPos, oldPos + ops[0].count, s, e))
      || DeleteOverlaps(ops[1..], s, e, oldPos + OldAdvance(ops[0]))
  }

  /** `xs` is a subsequence of `ys`: order-preserving, possibly with gaps. */
  predicate Subsequence<T(==)>(xs: seq<T>, ys: seq<T>)
    decreases |ys|
  {
    if ys == [] then xs == []
    else
      || (xs != [] && xs[|xs| - 1] == ys[|ys| - 1] && Subsequence(xs[..|xs| - 1], ys[..|ys| - 1]))
      || Subsequence(xs, ys[..|ys| - 1])
  }

  function Payloads<P>(anns: seq<Annotation<P>>): (r: seq<P>)
    ensures |r| == |anns|
    decreases |anns|
  {
    if anns == [] then [] else Payloads(anns[..|anns| - 1]) + [anns[|anns| - 1].payload]
  }

  // ---------------------------------------------------------------------------
  // The methods: the code as written
  // ---------------------------------------------------------------------------

  /** The inner loop of `_reconcileAnnotations` for one annotation, with the
      early exit once both offsets are mapped and the old cursor is past the
      annotation's end. */
  method WalkAnnotation<P>(ops: seq<Op>, ann: Annotation<P>) returns (newStart: Option<nat>, newEnd: Option<nat>, deleted: bool)
    ensures newStart == MapOffset(ops, ann.start, 0, 0)
    ensures newEnd == MapOffset(ops, ann.end, 0, 0)
    ensures deleted == DeleteOverlaps(ops, ann.start, ann.end, 0)
  {
    var s, e := ann.start, ann.end;
    var oldPos: nat, newPos: nat := 0, 0;
    newStart, newEnd, deleted := None, None, false;
    var k := 0;
    while k < |ops|
      invariant 0 <= k <= |ops|
      invariant Cursor(oldPos, newPos, newStart, newEnd, deleted) == Walk(Initial, ops[..k], s, e)
    {
      ghost var before := Cursor(oldPos, newPos, newStart, newEnd, deleted);
      var op := ops[k];
      if op.kind == Equal {
        var opOldEnd := oldPos + op.count;
        if newStart.None? && s >= oldPos && s <= opOldEnd {
          newStart := Some(newPos + (s - oldPos));
        }
        if newEnd.None? && e >= oldPos && e <= opOldEnd {
          newEnd := Some(newPos + (e - oldPos));
        }
        oldPos := oldPos + op.count;
        newPos := newPos + op.count;
      } else if op.kind == Insert {
        newPos := newPos + op.count;
      } else {
        var deleteEnd := oldPos + op.count;
        var overlapStart := Max(oldPos, s);
        var overlapEnd := Min(deleteEnd, e);
        if overlapStart < overlapEnd {
          deleted := true;
        }
        oldPos := oldPos + op.count;
      }
      assert Cursor(oldPos, newPos, newStart, newEnd, deleted) == StepCursor(before, op, s, e);
      WalkSnoc(ops, k, s, e);
      k := k + 1;
      if newStart.Some? && newEnd.Some? && oldPos > e {
        WalkStopsAt(ops, k, s, e);
        break;
      }
    }
    if k == |ops| {
      assert ops[..k] == ops;
    }
    WalkByReference(Initial, ops, s, e);
  }

  /** `_reconcileAnnotations(oldText, newText, annotations)`. */
  method ReconcileAnnotations<P>(oldText: seq<char>, newText: seq<char>, anns: seq<Annotation<P>>)
    returns (updated: seq<Annotation<P>>, invalidated: seq<Annotation<P>>)
    ensures updated == UpdatedAnnotations(Diff(oldText, newText), newText, anns)
    ensures invalidated == InvalidatedAnnotations(Diff(oldText, newText), newText, anns)
    ensures |updated| + |invalidated| == |anns|
  {
    var ops := ComputeDiff(oldText, newText);
    updated, invalidated := [], [];
    for k := 0 to |anns|
      invariant updated == UpdatedAnnotations(ops, newText, anns[..k])
      invariant invalidated == InvalidatedAnnotations(ops, newText, anns[..k])
    {
      var ann := anns[k];
      var newStart, newEnd, deleted := WalkAnnotation(ops, ann);
      ClassifyByReference(ops, newText, ann);
      ReconcileStep(ops, newText, anns, k);
      if deleted {
        if newStart.Some? && newEnd.Some? && newEnd.value > newStart.value {
          var newAnnotatedText := ClampedSlice(newText, newStart.value, newEnd.value);
          updated := updated + [ann.(start := newStart.value, end := newEnd.value, text := newAnnotatedText)];
        } else {
          invalidated := invalidated + [ann];
        }
        continue;
      }
      if newStart.None? || newEnd.None? {
        invalidated := invalidated + [ann];
        continue;
      }
      updated := updated + [ann.(start := newStart.value, end := newEnd.value,
                                 text := ClampedSlice(newText, newStart.value, newEnd.value))];
    }
    assert anns[..|anns|] == anns;
    ReconcilePartition(ops, newText, anns);
  }

  // ---------------------------------------------------------------------------
  // Lemmas: the walk
  // ---------------------------------------------------------------------------

  lemma {:induction false} WalkSplit(c: Cursor, x: seq<Op>, y: seq<Op>, s: nat, e: nat)
    ensures Walk(c, x + y, s, e) == Walk(Walk(c, x, s, e), y, s, e)
    decreases |x|
  {
    if x == [] {
      assert x + y == y;
    } else {
      assert (x + y)[0] == x[0] && (x + y)[1..] == x[1..] + y;
      WalkSplit(StepCursor(c, x[0], s, e), x[1..], y, s, e);
    }
  }

  lemma WalkSnoc(ops: seq<Op>, k: nat, s: nat, e: nat)
    requires k < |ops|
    ensures Walk(Initial, ops[..k + 1], s, e) == StepCursor(Walk(Initial, ops[..k], s, e), ops[k], s, e)
  {
    assert ops[..k + 1] == ops[..k] + [ops[k]];
    WalkSplit(Initial, ops[..k], [ops[k]], s, e);
  }

  /** The early exit after `k` runs changes nothing the decision reads. */
  lemma WalkStopsAt(ops: seq<Op>, k: nat, s: nat, e: nat)
    requires k <= |ops|
    requires Walk(Initial, ops[..k], s, e).newStart.Some? && Walk(Initial, ops[..k], s, e).newEnd.Some?
    requires Walk(Initial, ops[..k], s, e).oldPos > e
    ensures Walk(Initial, ops, s, e).newStart == Walk(Initial, ops[..k], s, e).newStart
    ensures Walk(Initial, ops, s, e).newEnd == Walk(Initial, ops[..k], s, e).newEnd
    ensures Walk(Initial, ops, s, e).deleted == Walk(Initial, ops[..k], s, e).deleted
  {
    assert ops[..k] + ops[k..] == ops;
    WalkSplit(Initial, ops[..k], ops[k..], s, e);
    WalkStops(Walk(Initial, ops[..k], s, e), ops[k..], s, e);
  }

  /** The walk computes the reference offset map and deletion overlap. */
  lemma {:induction false} WalkByReference(c: Cursor, ops: seq<Op>, s: nat, e: nat)
    ensures Walk(c, ops, s, e).newStart == if c.newStart.Some? then c.newStart else MapOffset(ops, s, c.oldPos, c.newPos)
    ensures Walk(c, ops, s, e).newEnd == if c.newEnd.Some? then c.newEnd else MapOffset(ops, e, c.oldPos, c.newPos)
    ensures Walk(c, ops, s, e).deleted == (c.deleted || DeleteOverlaps(ops, s, e, c.oldPos))
    decreases |ops|
  {
    if ops != [] {
      WalkByReference(StepCursor(c, ops[0], s, e), ops[1..], s, e);
    }
  }

  lemma {:induction false} NoDeleteAfter(ops: seq<Op>, s: nat, e: nat, oldPos: nat)
    requires oldPos >= e
    ensures !DeleteOverlaps(ops, s, e, oldPos)
    decreases |ops|
  {
    if ops != [] {
      NoDeleteAfter(ops[1..], s, e, oldPos + OldAdvance(ops[0]));
    }
  }

  /** The early exit changes nothing: once both offsets are mapped and the old
      cursor is past the end, the remaining runs leave the decision alone. */
  lemma WalkStops(c: Cursor, ops: seq<Op>, s: nat, e: nat)
    requires c.newStart.Some? && c.newEnd.Some? && c.oldPos > e
    ensures Walk(c, ops, s, e).newStart == c.newStart
    ensures Walk(c, ops, s, e).newEnd == c.newEnd
    ensures Walk(c, ops, s, e).deleted == c.deleted
  {
    WalkByReference(c, ops, s, e);
    NoDeleteAfter(ops, s, e, c.oldPos);
  }

  /** Decision policy, stated on the reference definitions. */
  lemma ClassifyByReference<P>(ops: seq<Op>, newText: seq<char>, ann: Annotation<P>)
    ensures Classify(ops, newText, ann) ==
              Decide(ann, MapOffset(ops, ann.start, 0, 0), MapOffset(ops, ann.end, 0, 0),
                     DeleteOverlaps(ops, ann.start, ann.end, 0), newText)
  {
    WalkByReference(Initial, ops, ann.start, ann.end);
  }

  // ---------------------------------------------------------------------------
  // Lemmas: partition
  // ---------------------------------------------------------------------------

  /** One more annotation adds its outcome to exactly one of the two lists. */
  lemma ReconcileStep<P>(ops: seq<Op>, newText: seq<char>, anns: seq<Annotation<P>>, k: nat)
    requires k < |anns|
    ensures var o := Classify(ops, newText, anns[k]);
            && UpdatedAnnotations(ops, newText, anns[..k + 1]) ==
                 UpdatedAnnotations(ops, newText, anns[..k]) + (if o.Survives? then [o.updated] else [])
            && InvalidatedAnnotations(ops, newText, anns[..k + 1]) ==
                 InvalidatedAnnotations(ops, newText, anns[..k]) + (if o.Invalidated? then [anns[k]] else [])
  {
    var outs := Outcomes(ops, newText, anns[..k + 1]);
    assert anns[..k + 1][..k] == anns[..k];
    assert outs[..k] == Outcomes(ops, newText, anns[..k]);
  }

  lemma {:induction false} OutcomesAt<P>(ops: seq<Op>, newText: seq<char>, anns: seq<Annotation<P>>, k: nat)
    requires k < |anns|
    ensures Outcomes(ops, newText, anns)[k] == Classify(ops, newText, anns[k])
    decreases |anns|
  {
    if k < |anns| - 1 {
      var init := anns[..|anns| - 1];
      OutcomesAt(ops, newText, init, k);
    }
  }

  /** Every survivor carries the payload of the record it came from. */
  ghost predicate KeepsPayloads<P>(anns: seq<Annotation<P>>, outs: seq<Outcome<P>>)
    requires |anns| == |outs|
  {
    forall k :: 0 <= k < |outs| && outs[k].Survives? ==> outs[k].updated.payload == anns[k].payload
  }

  lemma OutcomesKeepPayloads<P>(ops: seq<Op>, newText: seq<char>, anns: seq<Annotation<P>>)
    ensures KeepsPayloads(anns, Outcomes(ops, newText, anns))
  {
    var outs := Outcomes(ops, newText, anns);
    forall k | 0 <= k < |outs| && outs[k].Survives?
      ensures outs[k].updated.payload == anns[k].payload
    {
      OutcomesAt(ops, newText, anns, k);
    }
  }

  /** Every record lands in exactly one of the two lists. */
  lemma {:induction false} PartitionSizes<P>(anns: seq<Annotation<P>>, outs: seq<Outcome<P>>)
    requires |anns| == |outs|
    ensures |Survivors(outs)| + |Rejected(anns, outs)| == |outs|
    decreases |outs|
  {
    if outs != [] {
      PartitionSizes(anns[..|anns| - 1], outs[..|outs| - 1]);
    }
  }

  /** The payloads of the two lists together are those of the input, each as
      often as in the input. */
  lemma {:induction false} PartitionPayloads<P>(anns: seq<Annotation<P>>, outs: seq<Outcome<P>>)
    requires |anns| == |outs| && KeepsPayloads(anns, outs)
    ensures multiset(Payloads(Survivors(outs))) + multiset(Payloads(Rejected(anns, outs))) == multiset(Payloads(anns))
    decreases |outs|
  {
    if outs != [] {
      var n := |outs| - 1;
      var init, initOuts := anns[..n], outs[..n];
      KeepsPayloadsPrefix(anns, outs, n);
      PartitionPayloads(init, initOuts);
      var u, v := Survivors(initOuts), Rejected(init, initOuts);
      var x := anns[n].payload;
      assert Payloads(anns) == Payloads(init) + [x];
      if outs[n].Survives? {
        assert Survivors(outs) == u + [outs[n].updated];
        assert Rejected(anns, outs) == v;
        PayloadsSnoc(u, outs[n].updated);
        BagSnoc(Payloads(u), Payloads(v), Payloads(init), x);
      } else {
        assert Survivors(outs) == u;
        assert Rejected(anns, outs) == v + [anns[n]];
        PayloadsSnoc(v, anns[n]);
        BagSnoc(Payloads(v), Payloads(u), Payloads(init), x);
      }
    }
  }

  lemma BagSnoc<Q>(u: seq<Q>, v: seq<Q>, a: seq<Q>, x: Q)
    requires multiset(u) + multiset(v) == multiset(a)
    ensures multiset(u + [x]) + multiset(v) == multiset(a + [x])
    ensures multiset(v) + multiset(u + [x]) == multiset(a + [x])
  {
  }

  lemma KeepsPayloadsPrefix<P>(anns: seq<Annotation<P>>, outs: seq<Outcome<P>>, n: nat)
    requires |anns| == |outs| && n <= |outs| && KeepsPayloads(anns, outs)
    ensures KeepsPayloads(anns[..n], outs[..n])
  {
    forall k | 0 <= k < n && outs[..n][k].Survives?
      ensures outs[..n][k].updated.payload == anns[..n][k].payload
    {
      assert outs[..n][k] == outs[k] && anns[..n][k] == anns[k];
    }
  }

  lemma PayloadsSnoc<P>(x: seq<Annotation<P>>, a: Annotation<P>)
    ensures Payloads(x + [a]) == Payloads(x) + [a.payload]
  {
    assert (x + [a])[..|x|] == x;
  }

  /** The rejected list holds input records, unchanged and in input order. */
  lemma {:induction false} RejectedInOrder<P>(anns: seq<Annotation<P>>, outs: seq<Outcome<P>>)
    requires |anns| == |outs|
    ensures Subsequence(Rejected(anns, outs), anns)
    decreases |outs|
  {
    if outs != [] {
      var n := |outs| - 1;
      var init, initOuts := anns[..n], outs[..n];
      RejectedInOrder(init, initOuts);
      var inv := Rejected(anns, outs);
      if outs[n].Invalidated? {
        assert inv[..|inv| - 1] == Rejected(init, initOuts);
      } else {
        assert inv == Rejected(init, initOuts);
      }
    }
  }

  /** The survivors carry the input's payloads in input order. */
  lemma {:induction false} SurvivorsInOrder<P>(anns: seq<Annotation<P>>, outs: seq<Outcome<P>>)
    requires |anns| == |outs| && KeepsPayloads(anns, outs)
    ensures Subsequence(Payloads(Survivors(outs)), Payloads(anns))
    decreases |outs|
  {
    if outs != [] {
      var n := |outs| - 1;
      var init, initOuts := anns[..n], outs[..n];
      KeepsPayloadsPrefix(anns, outs, n);
      SurvivorsInOrder(init, initOuts);
      var upd := Survivors(initOuts);
      var pa := Payloads(anns);
      assert pa[..n] == Payloads(init);
      if outs[n].Survives? {
        PayloadsSnoc(upd, outs[n].updated);
        var pu := Payloads(Survivors(outs));
        assert Survivors(outs) == upd + [outs[n].updated];
        assert pu[..|pu| - 1] == Payloads(upd);
      } else {
        assert Survivors(outs) == upd;
      }
    }
  }

  /** Reconciliation partitions its input: every annotation lands in exactly
      one list, the invalidated list holds input records unchanged and in
      order, and the updated list carries the input's payloads (ids and every
      other field) in order, each exactly once. */
  lemma ReconcilePartition<P>(ops: seq<Op>, newText: seq<char>, anns: seq<Annotation<P>>)
    ensures |UpdatedAnnotations(ops, newText, anns)| + |InvalidatedAnnotations(ops, newText, anns)| == |anns|
    ensures multiset(Payloads(UpdatedAnnotations(ops, newText, anns))) +
            multiset(Payloads(InvalidatedAnnotations(ops, newText, anns))) == multiset(Payloads(anns))
    ensures Subsequence(InvalidatedAnnotations(ops, newText, anns), anns)
    ensures Subsequence(Payloads(UpdatedAnnotations(ops, newText, anns)), Payloads(anns))
  {
    var outs := Outcomes(ops, newText, anns);
    OutcomesKeepPayloads(ops, newText, anns);
    PartitionSizes(anns, outs);
    PartitionPayloads(anns, outs);
    RejectedInOrder(anns, outs);
    SurvivorsInOrder(anns, outs);
  }

  // ---------------------------------------------------------------------------
  // Lemmas: offsets
  // ---------------------------------------------------------------------------

  lemma {:induction false} MapOffsetBefore(ops: seq<Op>, x: nat, oldPos: nat, newPos: nat)
    requires x < oldPos
    ensures MapOffset(ops, x, oldPos, newPos) == None
    decreases |ops|
  {
    if ops != [] {
      MapOffsetBefore(ops[1..], x, oldPos + OldAdvance(ops[0]), newPos + NewAdvance(ops[0]));
    }
  }

  /** A deletion overlapping a span overlaps every span containing it. */
  lemma {:induction false} DeleteOverlapsShrink(ops: seq<Op>, s: nat, e: nat, s': nat, e': nat, oldPos: nat)
    requires s <= s' && e' <= e
    ensures DeleteOverlaps(ops, s', e', oldPos) ==> DeleteOverlaps(ops, s, e, oldPos)
    decreases |ops|
  {
    if ops != [] {
      DeleteOverlapsShrink(ops[1..], s, e, s', e', oldPos + OldAdvance(ops[0]));
    }
  }

  /** Without deletions in `[oldPos, x)`, offset `x` lands at least as far from
      `newPos` as it is from `oldPos`. */
  lemma {:induction false} MapOffsetLowerBound(ops: seq<Op>, x: nat, oldPos: nat, newPos: nat)
    requires oldPos <= x
    requires MapOffset(ops, x, oldPos, newPos).Some?
    requires !DeleteOverlaps(ops, oldPos, x, oldPos)
    ensures MapOffset(ops, x, oldPos, newPos).value >= newPos + (x - oldPos)
    decreases |ops|
  {
    var op := ops[0];
    if !(op.kind == Equal && oldPos <= x <= oldPos + op.count) {
      var p', q' := oldPos + OldAdvance(op), newPos + NewAdvance(op);
      if x < p' {
        MapOffsetBefore(ops[1..], x, p', q');
      }
      if op.kind == Delete {
        assert op.count == 0 || x == oldPos;
      }
      DeleteOverlapsShrink(ops[1..], oldPos, x, p', x, p');
      MapOffsetLowerBound(ops[1..], x, p', q');
    }
  }

  /** Without deletions in `[x, x')`, mapped offsets are at least as far apart
      as the old ones. */
  lemma {:induction false} MapOffsetGap(ops: seq<Op>, x: nat, x': nat, oldPos: nat, newPos: nat)
    requires oldPos <= x < x'
    requires MapOffset(ops, x, oldPos, newPos).Some? && MapOffset(ops, x', oldPos, newPos).Some?
    requires !DeleteOverlaps(ops, x, x', oldPos)
    ensures MapOffset(ops, x', oldPos, newPos).value - MapOffset(ops, x, oldPos, newPos).value >= x' - x
    decreases |ops|
  {
    var op := ops[0];
    var p', q' := oldPos + OldAdvance(op), newPos + NewAdvance(op);
    if op.kind == Equal && oldPos <= x <= oldPos + op.count {
      if x' > oldPos + op.count {
        DeleteOverlapsShrink(ops[1..], x, x', p', x', p');
        MapOffsetLowerBound(ops[1..], x', p', q');
      }
    } else {
      if x < p' {
        MapOffsetBefore(ops[1..], x, p', q');
      }
      MapOffsetGap(ops[1..], x, x', p', q');
    }
  }

  /** An annotation with `start < end` never survives with `end <= start`. */
  lemma NonEmptySurvivor<P>(ops: seq<Op>, newText: seq<char>, ann: Annotation<P>)
    requires ann.start < ann.end
    ensures Classify(ops, newText, ann).Survives? ==>
              Classify(ops, newText, ann).updated.start < Classify(ops, newText, ann).updated.end
  {
    ClassifyByReference(ops, newText, ann);
    var ms, me := MapOffset(ops, ann.start, 0, 0), MapOffset(ops, ann.end, 0, 0);
    if ms.Some? && me.Some? && !DeleteOverlaps(ops, ann.start, ann.end, 0) {
      MapOffsetGap(ops, ann.start, ann.end, 0, 0);
    }
  }

  /** Under a script that turns `a` into `b`, a mapped offset lies within `b`. */
  lemma {:induction false} MapOffsetInRange(ops: seq<Op>, a: seq<char>, b: seq<char>, x: nat, oldPos: nat, newPos: nat)
    requires Aligned(ops, a, b)
    requires MapOffset(ops, x, oldPos, newPos).Some?
    ensures x <= oldPos + |a|
    ensures newPos <= MapOffset(ops, x, oldPos, newPos).value <= newPos + |b|
    decreases |ops|
  {
    var op := ops[0];
    if !(op.kind == Equal && oldPos <= x <= oldPos + op.count) {
      MapOffsetInRange(ops[1..], a[OldAdvance(op)..], b[NewAdvance(op)..], x, oldPos + OldAdvance(op), newPos + NewAdvance(op));
    }
  }

  /** A survivor of a real diff has offsets inside the new text and its
      snapshot is exactly the new text between them. */
  lemma SurvivorInNewText<P>(oldText: seq<char>, newText: seq<char>, ann: Annotation<P>)
    requires ann.start < ann.end
    ensures var r := Classify(Diff(oldText, newText), newText, ann);
            r.Survives? ==>
              && r.updated.start < r.updated.end <= |newText|
              && r.updated.text == newText[r.updated.start..r.updated.end]
  {
    var ops := Diff(oldText, newText);
    DiffCorrect(oldText, newText);
    ClassifyByReference(ops, newText, ann);
    NonEmptySurvivor(ops, newText, ann);
    if MapOffset(ops, ann.end, 0, 0).Some? {
      MapOffsetInRange(ops, oldText, newText, ann.end, 0, 0);
    }
  }

  // ---------------------------------------------------------------------------
  // Lemmas: particular edits
  // ---------------------------------------------------------------------------

  /** Identity: reconciling a non-empty text with itself keeps every annotation
      whose offsets lie in the text, with the same offsets and a fresh slice;
      an annotation reaching past the text, or any annotation of the empty
      text, is invalidated. */
  lemma IdentityEdit<P>(t: seq<char>, ann: Annotation<P>)
    ensures Classify(Diff(t, t), t, ann) ==
              if t != [] && ann.start <= |t| && ann.end <= |t|
              then Survives(ann.(text := ClampedSlice(t, ann.start, ann.end)))
              else Invalidated
  {
    DiffIdentity(t);
    ClassifyByReference(Diff(t, t), t, ann);
  }

  /** When every outcome survives, the survivors are the updated records and
      nothing is rejected. */
  lemma {:induction false} AllSurvive<P>(anns: seq<Annotation<P>>, outs: seq<Outcome<P>>)
    requires |anns| == |outs|
    requires forall k :: 0 <= k < |outs| ==> outs[k].Survives?
    ensures |Survivors(outs)| == |outs|
    ensures forall k :: 0 <= k < |outs| ==> Survivors(outs)[k] == outs[k].updated
    ensures Rejected(anns, outs) == []
    decreases |outs|
  {
    if outs != [] {
      var n := |outs| - 1;
      AllSurvive(anns[..n], outs[..n]);
      assert Survivors(outs) == Survivors(outs[..n]) + [outs[n].updated];
    }
  }

  /** Identity for a whole list of annotations inside a non-empty text: all are
      updated, unchanged but for the refreshed snapshot, none invalidated. */
  lemma IdentityReconcile<P>(t: seq<char>, anns: seq<Annotation<P>>)
    requires t != []
    requires forall k :: 0 <= k < |anns| ==> anns[k].start <= anns[k].end <= |t|
    ensures |UpdatedAnnotations(Diff(t, t), t, anns)| == |anns|
    ensures forall k :: 0 <= k < |anns| ==>
              UpdatedAnnotations(Diff(t, t), t, anns)[k] == anns[k].(text := t[anns[k].start..anns[k].end])
    ensures InvalidatedAnnotations(Diff(t, t), t, anns) == []
  {
    var outs := Outcomes(Diff(t, t), t, anns);
    forall k | 0 <= k < |anns|
      ensures outs[k] == Survives(anns[k].(text := t[anns[k].start..anns[k].end]))
    {
      OutcomesAt(Diff(t, t), t, anns, k);
      IdentityEdit(t, anns[k]);
    }
    AllSurvive(anns, outs);
  }

  /** Where the insertion lemma moves an old offset: offsets up to the insertion
      point stay, later ones shift by the inserted length. */
  function ShiftForInsert(x: nat, p: nat, w: nat): nat
  {
    if x <= p then x else x + w
  }

  lemma MapOffsetCons(op: Op, rest: seq<Op>, x: nat, oldPos: nat, newPos: nat)
    ensures MapOffset([op] + rest, x, oldPos, newPos) ==
              if op.kind == Equal && oldPos <= x <= oldPos + op.count then Some(newPos + (x - oldPos))
              else MapOffset(rest, x, oldPos + OldAdvance(op), newPos + NewAdvance(op))
  {
    assert ([op] + rest)[0] == op && ([op] + rest)[1..] == rest;
  }

  lemma DeleteOverlapsCons(op: Op, rest: seq<Op>, s: nat, e: nat, oldPos: nat)
    ensures DeleteOverlaps([op] + rest, s, e, oldPos) ==
              ((op.kind == Delete && Overlaps(oldPos, oldPos + op.count, s, e)) ||
               DeleteOverlaps(rest, s, e, oldPos + OldAdvance(op)))
  {
    assert ([op] + rest)[0] == op && ([op] + rest)[1..] == rest;
  }

  /** The edit script of a pure insertion of `u >= 1` units at position `p` of a
      text of length `n`: offsets up to `p` stay, later ones in the text shift by
      `u`, and nothing is deleted. */
  lemma InsertScript(n: nat, p: nat, u: nat, x: nat, s: nat, e: nat)
    requires p <= n && x <= n
    ensures var ops := [Op(Equal, p), Op(Insert, u)] + if p < n then [Op(Equal, n - p)] else [];
            && MapOffset(ops, x, 0, 0) == Some(ShiftForInsert(x, p, u))
            && !DeleteOverlaps(ops, s, e, 0)
  {
    var tail: seq<Op> := if p < n then [Op(Equal, n - p)] else [];
    var ops := [Op(Equal, p), Op(Insert, u)] + tail;
    assert ops == [Op(Equal, p)] + ([Op(Insert, u)] + tail);
    MapOffsetCons(Op(Equal, p), [Op(Insert, u)] + tail, x, 0, 0);
    MapOffsetCons(Op(Insert, u), tail, x, 0, 0);
    DeleteOverlapsCons(Op(Equal, p), [Op(Insert, u)] + tail, s, e, 0);
    DeleteOverlapsCons(Op(Insert, u), tail, s, e, p);
    if p < n {
      MapOffsetCons(Op(Equal, n - p), [], x, p, u);
      DeleteOverlapsCons(Op(Equal, n - p), [], s, e, p);
    }
  }

  /** The edit script of a pure deletion of `d >= 1` units at position `p` of a
      text of length `n`: an offset survives when it lies in the kept prefix
      (and the prefix is not empty) or in the kept suffix (and the suffix is not
      empty), the latter shifted left by `d`, and a range meets a deleted run
      exactly when it overlaps the deleted block. */
  lemma DeleteScript(n: nat, p: nat, d: nat, x: nat, s: nat, e: nat)
    requires 1 <= d && p + d <= n && x <= n
    ensures var ops := (if p > 0 then [Op(Equal, p)] else []) + [Op(Delete, d)] +
                       if p + d < n then [Op(Equal, n - p - d)] else [];
            && MapOffset(ops, x, 0, 0) ==
                 (if p > 0 && x <= p then Some(x)
                  else if p + d <= x && p + d < n then Some(x - d)
                  else None)
            && (DeleteOverlaps(ops, s, e, 0) <==> Overlaps(p, p + d, s, e))
  {
    var front: seq<Op> := if p > 0 then [Op(Equal, p)] else [];
    var tail: seq<Op> := if p + d < n then [Op(Equal, n - p - d)] else [];
    var rest := [Op(Delete, d)] + tail;
    assert front + [Op(Delete, d)] + tail == front + rest;
    MapOffsetCons(Op(Delete, d), tail, x, p, p);
    DeleteOverlapsCons(Op(Delete, d), tail, s, e, p);
    if p > 0 {
      MapOffsetCons(Op(Equal, p), rest, x, 0, 0);
      DeleteOverlapsCons(Op(Equal, p), rest, s, e, 0);
    } else {
      assert front + rest == rest;
    }
    if p + d < n {
      MapOffsetCons(Op(Equal, n - p - d), [], x, p + d, p);
      DeleteOverlapsCons(Op(Equal, n - p - d), [], s, e, p + d);
    }
  }

  /** Pure insertion of `w` at position `p >= 1` of `a`, where the unit before
      the insertion point does not occur in `w` (so the alignment is not
      ambiguous): an annotation inside `a` survives with both offsets shifted
      by `ShiftForInsert`.  An end offset equal to `p` stays: text inserted
      exactly at an annotation's end is not absorbed; text inserted exactly at
      its start is. */
  lemma InsertEdit<P>(a: seq<char>, w: seq<char>, p: nat, ann: Annotation<P>)
    requires 1 <= p <= |a| && |w| >= 1 && a[p - 1] !in w
    requires ann.start <= |a| && ann.end <= |a|
    ensures var b := a[..p] + w + a[p..];
            var s', e' := ShiftForInsert(ann.start, p, |w|), ShiftForInsert(ann.end, p, |w|);
            Classify(Diff(a, b), b, ann) == Survives(ann.(start := s', end := e', text := ClampedSlice(b, s', e')))
  {
    var b := a[..p] + w + a[p..];
    DiffInsert(a, w, p);
    ClassifyByReference(Diff(a, b), b, ann);
    InsertScript(|a|, p, |w|, ann.start, ann.start, ann.end);
    InsertScript(|a|, p, |w|, ann.end, ann.start, ann.end);
  }

  /** Pure deletion of `a[p..p + d]`, where the unit before the deleted block
      does not occur in it: an annotation covering exactly the deleted block
      is invalidated. */
  lemma DeleteSpanEdit<P>(a: seq<char>, p: nat, d: nat, ann: Annotation<P>)
    requires 1 <= d && p + d <= |a| && (p == 0 || a[p - 1] !in a[p..p + d])
    requires ann.start == p && ann.end == p + d
    ensures Classify(Diff(a, a[..p] + a[p + d..]), a[..p] + a[p + d..], ann) == Invalidated
  {
    var b := a[..p] + a[p + d..];
    DiffDelete(a, p, d);
    ClassifyByReference(Diff(a, b), b, ann);
    DeleteScript(|a|, p, d, ann.start, ann.start, ann.end);
    DeleteScript(|a|, p, d, ann.end, ann.start, ann.end);
  }

  /** Pure deletion after an annotation (its end at or before the deleted
      block, its start past the beginning of the text) leaves it unchanged. */
  lemma DeleteAfterEdit<P>(a: seq<char>, p: nat, d: nat, ann: Annotation<P>)
    requires 1 <= p && 1 <= d && p + d <= |a| && a[p - 1] !in a[p..p + d]
    requires ann.start <= ann.end <= p
    ensures var b := a[..p] + a[p + d..];
            Classify(Diff(a, b), b, ann) == Survives(ann.(text := a[ann.start..ann.end]))
  {
    var b := a[..p] + a[p + d..];
    DiffDelete(a, p, d);
    ClassifyByReference(Diff(a, b), b, ann);
    DeleteScript(|a|, p, d, ann.start, ann.start, ann.end);
    DeleteScript(|a|, p, d, ann.end, ann.start, ann.end);
    assert b[ann.start..ann.end] == a[ann.start..ann.end];
  }

  /** Pure deletion before an annotation (its start at or after the deleted
      block, some text kept after the block) shifts it left by the deleted
      length, with the same text. */
  lemma DeleteBeforeEdit<P>(a: seq<char>, p: nat, d: nat, ann: Annotation<P>)
    requires 1 <= d && p + d < |a| && (p == 0 || a[p - 1] !in a[p..p + d])
    requires p + d <= ann.start <= ann.end <= |a|
    ensures var b := a[..p] + a[p + d..];
            Classify(Diff(a, b), b, ann) ==
              Survives(ann.(start := ann.start - d, end := ann.end - d, text := a[ann.start..ann.end]))
  {
    var b := a[..p] + a[p + d..];
    DiffDelete(a, p, d);
    ClassifyByReference(Diff(a, b), b, ann);
    DeleteScript(|a|, p, d, ann.start, ann.start, ann.end);
    DeleteScript(|a|, p, d, ann.end, ann.start, ann.end);
    KeptSuffix(a, p, d, ann.start, ann.end);
  }

  lemma KeptSuffix(a: seq<char>, p: nat, d: nat, i: nat, j: nat)
    requires p + d <= i <= j <= |a|
    ensures (a[..p] + a[p + d..])[i - d..j - d] == a[i..j]
  {
    var b := a[..p] + a[p + d..];
    forall k | 0 <= k < j - i
      ensures b[i - d..j - d][k] == a[i..j][k]
    {
      assert b[i - d + k] == a[p + d..][i - d + k - p];
    }
  }

  /** Pure deletion of a block strictly inside an annotation keeps it, its end
      pulled in by the deleted length: the overlap flag is set but the new
      range is not empty. */
  lemma DeleteInsideEdit<P>(a: seq<char>, p: nat, d: nat, ann: Annotation<P>)
    requires 1 <= p && 1 <= d && p + d < |a| && a[p - 1] !in a[p..p + d]
    requires ann.start <= p && p + d <= ann.end <= |a| && (ann.start < p || p + d < ann.end)
    ensures var b := a[..p] + a[p + d..];
            Classify(Diff(a, b), b, ann) ==
              Survives(ann.(end := ann.end - d, text := a[ann.start..p] + a[p + d..ann.end]))
  {
    var b := a[..p] + a[p + d..];
    DiffDelete(a, p, d);
    ClassifyByReference(Diff(a, b), b, ann);
    DeleteScript(|a|, p, d, ann.start, ann.start, ann.end);
    DeleteScript(|a|, p, d, ann.end, ann.start, ann.end);
    assert b[ann.start..ann.end - d] == a[ann.start..p] + a[p + d..ann.end];
  }

  // ---------------------------------------------------------------------------
  // Worked examples
  // ---------------------------------------------------------------------------

  /** Appending a unit right after an annotated name does not extend the
      annotation: "Paul" stays at 9..13 when "Paul" becomes "Paula". */
  lemma PaulaExample()
    ensures var a, b := "Jane met Paul in London", "Jane met Paula in London";
            Classify(Diff(a, b), b, Annotation(9, 13, "Paul", 1)) == Survives(Annotation(9, 13, "Paul", 1))
  {
    var a, b := "Jane met Paul in London", "Jane met Paula in London";
    assert a[..13] + "a" + a[13..] == b;
    InsertEdit(a, "a", 13, Annotation(9, 13, "Paul", 1));
    assert b[9..13] == "Paul";
  }

  /** Inserting " Smith" right after "Jane" (giving "Jane Smith met Paul in
      London") does not extend "Jane": its end is the insertion point. */
  lemma SmithKeepsJaneExample()
    ensures var a := "Jane met Paul in London";
            var b := a[..4] + " Smith" + a[4..];
            Classify(Diff(a, b), b, Annotation(0, 4, "Jane", 1)) == Survives(Annotation(0, 4, "Jane", 1))
  {
    var a := "Jane met Paul in London";
    var b := a[..4] + " Smith" + a[4..];
    assert a[3] !in " Smith";
    InsertEdit(a, " Smith", 4, Annotation(0, 4, "Jane", 1));
    assert b[0..4] == a[0..4] == "Jane";
  }

  /** Inserting " Smith" after "Jane" moves "Paul" from 9..13 to 15..19. */
  lemma SmithMovesPaulExample()
    ensures var a := "Jane met Paul in London";
            var b := a[..4] + " Smith" + a[4..];
            Classify(Diff(a, b), b, Annotation(9, 13, "Paul", 2)) == Survives(Annotation(15, 19, "Paul", 2))
  {
    var a := "Jane met Paul in London";
    var b := a[..4] + " Smith" + a[4..];
    assert a[3] !in " Smith";
    InsertEdit(a, " Smith", 4, Annotation(9, 13, "Paul", 2));
    assert b[10..] == a[4..];
    assert b[15..19] == b[10..][5..9] == a[9..13] == "Paul";
  }

  /** Deleting the annotated "Paul" invalidates it and moves "London" left by
      four units. */
  lemma DeletePaulExample()
    ensures var a, b := "Jane met Paul in London", "Jane met  in London";
            && Classify(Diff(a, b), b, Annotation(9, 13, "Paul", 1)) == Invalidated
            && Classify(Diff(a, b), b, Annotation(17, 23, "London", 2)) == Survives(Annotation(13, 19, "London", 2))
  {
    var a, b := "Jane met Paul in London", "Jane met  in London";
    assert a[..9] + a[13..] == b;
    assert a[8] !in a[9..13];
    DeleteSpanEdit(a, 9, 4, Annotation(9, 13, "Paul", 1));
    DeleteBeforeEdit(a, 9, 4, Annotation(17, 23, "London", 2));
    assert a[17..23] == "London";
  }
}

/** The character-level diff of the annotation canvas (`_computeDiff`): an LCS
    dynamic-programming table, a traceback with a fixed tie-break, and a merge of
    the unit steps into run-length operations.

    The method `ComputeDiff` follows the code step by step (a 2-D table filled by
    two nested loops, a traceback loop pushing unit steps that are then reversed,
    a merge loop that grows the last run in place).  It is proved equal to the
    function `Diff`, and the lemmas below prove what an edit script promises:
    well-formed runs, exact replay of the new text, and an equal count that is the
    LCS length, which no alignment of the two texts exceeds. */
module TextDiff {
  import opened Common

  datatype Kind = Equal | Insert | Delete

  /** One entry `{type, count}` of an edit script. */
  datatype Op = Op(kind: Kind, count: nat)

  // ---------------------------------------------------------------------------
  // The LCS recurrence and the traceback, as functions
  // ---------------------------------------------------------------------------

  /** `dp[i][j]`: the length of a longest common subsequence of `a[..i]` and
      `b[..j]`, by the recurrence the table is filled with. */
  function Lcs(a: seq<char>, b: seq<char>, i: nat, j: nat): nat
    requires i <= |a| && j <= |b|
    decreases i + j
  {
    if i == 0 || j == 0 then 0
    else if a[i - 1] == b[j - 1] then Lcs(a, b, i - 1, j - 1) + 1
    else
      var up, left := Lcs(a, b, i - 1, j), Lcs(a, b, i, j - 1);
      if up >= left then up else left
  }

  /** The step the traceback takes at cell `(i, j)`: a matching pair is `Equal`;
      otherwise `Insert` when `j > 0` and either `i == 0` or the cell to the left
      is not smaller than the cell above (ties go to `Insert`); else `Delete`. */
  function TraceStep(a: seq<char>, b: seq<char>, i: nat, j: nat): (k: Kind)
    requires i <= |a| && j <= |b| && (i > 0 || j > 0)
    ensures k == Equal ==> i > 0 && j > 0 && a[i - 1] == b[j - 1]
    ensures k == Insert ==> j > 0
    ensures k == Delete ==> i > 0
  {
    if i > 0 && j > 0 && a[i - 1] == b[j - 1] then Equal
    else if j > 0 && (i == 0 || Lcs(a, b, i, j - 1) >= Lcs(a, b, i - 1, j)) then Insert
    else Delete
  }

  /** The unit steps of the traceback from `(i, j)` back to `(0, 0)`, in forward
      order (the traceback pushes them last-first and then reverses them). */
  function Trace(a: seq<char>, b: seq<char>, i: nat, j: nat): seq<Kind>
    requires i <= |a| && j <= |b|
    decreases i + j
  {
    if i == 0 && j == 0 then []
    else
      match TraceStep(a, b, i, j)
      case Equal => Trace(a, b, i - 1, j - 1) + [Equal]
      case Insert => Trace(a, b, i, j - 1) + [Insert]
      case Delete => Trace(a, b, i - 1, j) + [Delete]
  }

  /** The merge loop's step: a unit step of the same kind as the last run grows
      that run; any other step opens a new run of count 1. */
  function Absorb(merged: seq<Op>, k: Kind): seq<Op>
  {
    if |merged| > 0 && merged[|merged| - 1].kind == k
    then merged[..|merged| - 1] + [Op(k, merged[|merged| - 1].count + 1)]
    else merged + [Op(k, 1)]
  }

  /** Run-length merge of unit steps, left to right. */
  function Merge(steps: seq<Kind>): seq<Op>
    decreases |steps|
  {
    if steps == [] then [] else Absorb(Merge(steps[..|steps| - 1]), steps[|steps| - 1])
  }

  /** The edit script `_computeDiff(a, b)` returns. */
  function Diff(a: seq<char>, b: seq<char>): seq<Op>
  {
    Merge(Trace(a, b, |a|, |b|))
  }

  /** `Array.prototype.reverse`, on a sequence. */
  function Reversed<T>(s: seq<T>): (r: seq<T>)
    ensures |r| == |s|
    decreases |s|
  {
    if s == [] then [] else [s[|s| - 1]] + Reversed(s[..|s| - 1])
  }

  // ---------------------------------------------------------------------------
  // What an edit script means
  // ---------------------------------------------------------------------------

  /** Every run is non-empty and no two adjacent runs have the same kind. */
  predicate WellFormed(ops: seq<Op>)
  {
    && (forall k :: 0 <= k < |ops| ==> ops[k].count >= 1)
    && (forall k :: 0 <= k < |ops| - 1 ==> ops[k].kind != ops[k + 1].kind)
  }

  /** How far a run moves the old-text cursor (equal and delete consume). */
  function OldAdvance(op: Op): nat { if op.kind == Insert then 0 else op.count }

  /** How far a run moves the new-text cursor (equal and insert produce). */
  function NewAdvance(op: Op): nat { if op.kind == Delete then 0 else op.count }

  /** Run `op` fits at the front of `a` and `b`: it reaches past neither text,
      and an `equal` run pairs identical units. */
  predicate RunFits(op: Op, a: seq<char>, b: seq<char>)
  {
    && OldAdvance(op) <= |a| && NewAdvance(op) <= |b|
    && (op.kind == Equal ==> a[..op.count] == b[..op.count])
  }

  /** `ops` turns `a` into `b`: runs consume `a` and produce `b` left to right,
      and every `equal` run pairs identical units of the two texts. */
  predicate Aligned(ops: seq<Op>, a: seq<char>, b: seq<char>)
    decreases |ops|
  {
    if ops == [] then a == [] && b == []
    else
      && RunFits(ops[0], a, b)
      && Aligned(ops[1..], a[OldAdvance(ops[0])..], b[NewAdvance(ops[0])..])
  }

  /** Replaying a script: `equal` copies units of the old text, `delete` skips
      them, `insert` takes units of the new text; `None` when a run reaches past
      a text or the old text is not used up. */
  function Replay(ops: seq<Op>, a: seq<char>, b: seq<char>): Option<seq<char>>
    decreases |ops|
  {
    if ops == [] then (if a == [] then Some([]) else None)
    else
      var op := ops[0];
      if OldAdvance(op) > |a| || NewAdvance(op) > |b| then None
      else
        var produced := match op.kind
          case Equal => a[..op.count]
          case Insert => b[..op.count]
          case Delete => [];
        match Replay(ops[1..], a[OldAdvance(op)..], b[NewAdvance(op)..])
        case None => None
        case Some(rest) => Some(produced + rest)
  }

  /** Total count of the runs of kind `k`. */
  function Total(ops: seq<Op>, k: Kind): nat
    decreases |ops|
  {
    if ops == [] then 0 else (if ops[0].kind == k then ops[0].count else 0) + Total(ops[1..], k)
  }

  /** Number of unit steps of kind `k`. */
  function Count(steps: seq<Kind>, k: Kind): nat
    decreases |steps|
  {
    if steps == [] then 0 else (if steps[0] == k then 1 else 0) + Count(steps[1..], k)
  }

  /** The unit steps a script stands for. */
  function Expand(ops: seq<Op>): seq<Kind>
    decreases |ops|
  {
    if ops == [] then [] else Repeat(ops[0].kind, ops[0].count) + Expand(ops[1..])
  }

  /** How far a unit step moves the old-text cursor. */
  function OldStep(k: Kind): nat { if k == Insert then 0 else 1 }

  /** How far a unit step moves the new-text cursor. */
  function NewStep(k: Kind): nat { if k == Delete then 0 else 1 }

  /** `steps` turns `a` into `b`, one unit at a time. */
  predicate AlignedSteps(steps: seq<Kind>, a: seq<char>, b: seq<char>)
    decreases |steps|
  {
    if steps == [] then a == [] && b == []
    else
      var k := steps[0];
      && OldStep(k) <= |a| && NewStep(k) <= |b|
      && (k == Equal ==> a[0] == b[0])
      && AlignedSteps(steps[1..], a[OldStep(k)..], b[NewStep(k)..])
  }

  /** `steps` turns the window `a[i..I]` into `b[j..J]`, one unit at a time:
      the same walk as `AlignedSteps`, by positions in the full texts. */
  predicate Walk(steps: seq<Kind>, a: seq<char>, b: seq<char>, i: nat, j: nat, I: nat, J: nat)
    requires I <= |a| && J <= |b|
    decreases |steps|
  {
    if steps == [] then i == I && j == J
    else
      var k := steps[0];
      && i + OldStep(k) <= I && j + NewStep(k) <= J
      && (k == Equal ==> a[i] == b[j])
      && Walk(steps[1..], a, b, i + OldStep(k), j + NewStep(k), I, J)
  }

  /** Unit step `k` fits just before positions `I` of `a` and `J` of `b`. */
  predicate FitsBefore(k: Kind, a: seq<char>, b: seq<char>, I: nat, J: nat)
    requires I <= |a| && J <= |b|
  {
    && OldStep(k) <= I && NewStep(k) <= J
    && (k == Equal ==> a[I - 1] == b[J - 1])
  }

  // ---------------------------------------------------------------------------
  // The method: the code as written
  // ---------------------------------------------------------------------------

  /** `_computeDiff(oldText, newText)`: fill the table, trace back, merge. */
  method ComputeDiff(a: seq<char>, b: seq<char>) returns (merged: seq<Op>)
    ensures merged == Diff(a, b)
    ensures WellFormed(merged)
    ensures Aligned(merged, a, b)
    ensures Replay(merged, a, b) == Some(b)
    ensures Total(merged, Equal) == Lcs(a, b, |a|, |b|)
    ensures Total(merged, Equal) + Total(merged, Delete) == |a|
    ensures Total(merged, Equal) + Total(merged, Insert) == |b|
  {
    var dp := LcsTable(a, b);
    var steps := TraceBack(a, b, dp);
    merged := MergeSteps(steps);
    DiffCorrect(a, b);
  }

  /** The table `dp`, `(m + 1) x (n + 1)`, filled row by row by the recurrence. */
  method LcsTable(a: seq<char>, b: seq<char>) returns (dp: array2<int>)
    ensures fresh(dp)
    ensures dp.Length0 == |a| + 1 && dp.Length1 == |b| + 1
    ensures forall p, q :: 0 <= p <= |a| && 0 <= q <= |b| ==> dp[p, q] == Lcs(a, b, p, q)
  {
    dp := new int[|a| + 1, |b| + 1]((_, _) => 0);
    var i := 1;
    while i <= |a|
      invariant 1 <= i <= |a| + 1
      invariant forall p, q :: 0 <= p < i && 0 <= q <= |b| ==> dp[p, q] == Lcs(a, b, p, q)
      invariant forall p :: i <= p <= |a| ==> dp[p, 0] == 0
    {
      FillRow(a, b, dp, i);
      i := i + 1;
    }
  }

  /** The inner loop of the table fill: row `i`, columns `1..n`. */
  method FillRow(a: seq<char>, b: seq<char>, dp: array2<int>, i: nat)
    requires dp.Length0 == |a| + 1 && dp.Length1 == |b| + 1
    requires 1 <= i <= |a|
    requires forall p, q :: 0 <= p < i && 0 <= q <= |b| ==> dp[p, q] == Lcs(a, b, p, q)
    requires dp[i, 0] == 0
    modifies dp
    ensures forall q :: 0 <= q <= |b| ==> dp[i, q] == Lcs(a, b, i, q)
    ensures forall p, q :: 0 <= p < dp.Length0 && p != i && 0 <= q < dp.Length1 ==> dp[p, q] == old(dp[p, q])
  {
    var j := 1;
    while j <= |b|
      invariant 1 <= j <= |b| + 1
      invariant forall q :: 0 <= q < j ==> dp[i, q] == Lcs(a, b, i, q)
      invariant forall p, q :: 0 <= p < dp.Length0 && p != i && 0 <= q < dp.Length1 ==> dp[p, q] == old(dp[p, q])
    {
      var v;
      if a[i - 1] == b[j - 1] {
        v := dp[i - 1, j - 1] + 1;
      } else {
        v := Max(dp[i - 1, j], dp[i, j - 1]);
      }
      assert v == Lcs(a, b, i, j);
      dp[i, j] := v;
      j := j + 1;
    }
  }

  /** The traceback from `(m, n)`: one unit step pushed per iteration, then reversed. */
  method TraceBack(a: seq<char>, b: seq<char>, dp: array2<int>) returns (steps: seq<Kind>)
    requires dp.Length0 == |a| + 1 && dp.Length1 == |b| + 1
    requires forall p, q :: 0 <= p <= |a| && 0 <= q <= |b| ==> dp[p, q] == Lcs(a, b, p, q)
    ensures steps == Trace(a, b, |a|, |b|)
  {
    var ops: seq<Kind> := [];
    var i, j := |a|, |b|;
    while i > 0 || j > 0
      invariant 0 <= i <= |a| && 0 <= j <= |b|
      invariant Trace(a, b, |a|, |b|) == Trace(a, b, i, j) + Reversed(ops)
      decreases i + j
    {
      var k: Kind;
      if i > 0 && j > 0 && a[i - 1] == b[j - 1] {
        k := Equal;
      } else if j > 0 && (i == 0 || dp[i, j - 1] >= dp[i - 1, j]) {
        k := Insert;
      } else {
        k := Delete;
      }
      StepBack(a, b, i, j, ops, k);
      ops := ops + [k];
      if k == Equal {
        i, j := i - 1, j - 1;
      } else if k == Insert {
        j := j - 1;
      } else {
        i := i - 1;
      }
    }
    steps := Reversed(ops);
  }

  /** One iteration of the traceback keeps `Trace` plus the reversed pushes
      unchanged. */
  lemma StepBack(a: seq<char>, b: seq<char>, i: nat, j: nat, ops: seq<Kind>, k: Kind)
    requires i <= |a| && j <= |b| && (i > 0 || j > 0) && k == TraceStep(a, b, i, j)
    ensures OldStep(k) <= i && NewStep(k) <= j
    ensures Trace(a, b, i, j) + Reversed(ops) ==
              Trace(a, b, i - OldStep(k), j - NewStep(k)) + Reversed(ops + [k])
  {
    TraceSnoc(a, b, i, j, k);
    ReversedSnoc(ops, k);
    PushFront(Trace(a, b, i, j), Trace(a, b, i - OldStep(k), j - NewStep(k)), k, Reversed(ops));
  }

  lemma ReversedSnoc<T>(s: seq<T>, x: T)
    ensures Reversed(s + [x]) == [x] + Reversed(s)
  {
    assert (s + [x])[..|s|] == s;
  }

  /** Moving the last step of `t` to the front of `r`. */
  lemma PushFront(t: seq<Kind>, init: seq<Kind>, k: Kind, r: seq<Kind>)
    requires t == init + [k]
    ensures t + r == init + ([k] + r)
  {
  }

  /** The merge loop: a step of the kind of the last run grows it in place,
      any other step is pushed as a new run of count 1. */
  method MergeSteps(steps: seq<Kind>) returns (merged: seq<Op>)
    ensures merged == Merge(steps)
  {
    merged := [];
    var t := 0;
    while t < |steps|
      invariant 0 <= t <= |steps|
      invariant merged == Merge(steps[..t])
    {
      var op := steps[t];
      if |merged| > 0 && merged[|merged| - 1].kind == op {
        var last := merged[|merged| - 1];
        merged := merged[..|merged| - 1] + [Op(op, last.count + 1)];
      } else {
        merged := merged + [Op(op, 1)];
      }
      assert steps[..t + 1][..t] == steps[..t];
      t := t + 1;
    }
    assert steps[..t] == steps;
  }

  // ---------------------------------------------------------------------------
  // Lemmas
  // ---------------------------------------------------------------------------

  /** The diff has well-formed runs, turns `a` into `b`, replays to `b`, and its
      equal count is `dp[m][n]`. */
  lemma DiffCorrect(a: seq<char>, b: seq<char>)
    ensures WellFormed(Diff(a, b))
    ensures Aligned(Diff(a, b), a, b)
    ensures Replay(Diff(a, b), a, b) == Some(b)
    ensures Total(Diff(a, b), Equal) == Lcs(a, b, |a|, |b|)
    ensures Total(Diff(a, b), Equal) + Total(Diff(a, b), Delete) == |a|
    ensures Total(Diff(a, b), Equal) + Total(Diff(a, b), Insert) == |b|
  {
    var steps := Trace(a, b, |a|, |b|);
    MergeWellFormed(steps);
    ExpandMerge(steps);
    TraceAligned(a, b, |a|, |b|);
    assert a[0..|a|] == a && b[0..|b|] == b;
    AlignedStepsWalk(steps, a, b, 0, 0, |a|, |b|);
    AlignedExpand(Diff(a, b), a, b);
    ReplayIffAligned(Diff(a, b), a, b);
    TraceEqualCount(a, b, |a|, |b|);
    CountExpand(Diff(a, b), Equal);
    AlignedTotals(Diff(a, b), a, b);
  }

  // --- merge ---------------------------------------------------------------

  /** A merged script is well-formed, and its last run has the kind of the last step. */
  lemma {:induction false} MergeWellFormed(steps: seq<Kind>)
    ensures WellFormed(Merge(steps))
    ensures |steps| > 0 ==> |Merge(steps)| > 0 && Merge(steps)[|Merge(steps)| - 1].kind == steps[|steps| - 1]
    decreases |steps|
  {
    if steps != [] {
      MergeWellFormed(steps[..|steps| - 1]);
      AbsorbWellFormed(Merge(steps[..|steps| - 1]), steps[|steps| - 1]);
    }
  }

  /** One merge step keeps the runs well-formed and ends with the step's kind. */
  lemma AbsorbWellFormed(m: seq<Op>, k: Kind)
    requires WellFormed(m)
    ensures WellFormed(Absorb(m, k))
    ensures |Absorb(m, k)| > 0 && Absorb(m, k)[|Absorb(m, k)| - 1].kind == k
  {
    var r := Absorb(m, k);
    if |m| > 0 && m[|m| - 1].kind == k {
      assert forall x :: 0 <= x < |m| - 1 ==> r[x] == m[x];
    } else {
      assert forall x :: 0 <= x < |m| ==> r[x] == m[x];
    }
  }

  lemma {:induction false} ExpandAppend(x: seq<Op>, y: seq<Op>)
    ensures Expand(x + y) == Expand(x) + Expand(y)
    decreases |x|
  {
    if x == [] {
      assert x + y == y;
    } else {
      assert (x + y)[0] == x[0];
      assert (x + y)[1..] == x[1..] + y;
      ExpandAppend(x[1..], y);
    }
  }

  lemma RepeatSnoc(k: Kind, c: nat)
    ensures Repeat(k, c + 1) == Repeat(k, c) + [k]
  {
  }

  /** One more step of a block's kind at the end lengthens the block. */
  lemma BlockSnoc(x: seq<Kind>, y: seq<Kind>, head: seq<Kind>, k: Kind, c: nat)
    requires c >= 1 && x == y + [k] && y == head + Repeat(k, c - 1)
    ensures x == head + Repeat(k, c)
  {
    RepeatSnoc(k, c - 1);
  }

  lemma {:induction false} RepeatCons(k: Kind, c: nat)
    requires c >= 1
    ensures Repeat(k, c) == [k] + Repeat(k, c - 1)
    decreases c
  {
    if c > 1 {
      RepeatCons(k, c - 1);
    }
  }

  /** Absorbing a unit step adds that step at the end of the expansion. */
  lemma ExpandAbsorb(m: seq<Op>, k: Kind)
    ensures Expand(Absorb(m, k)) == Expand(m) + [k]
  {
    if |m| > 0 && m[|m| - 1].kind == k {
      var front, last := m[..|m| - 1], m[|m| - 1];
      assert m == front + [last];
      ExpandAppend(front, [last]);
      ExpandAppend(front, [Op(k, last.count + 1)]);
      assert Expand([last]) == Repeat(k, last.count);
      assert Expand([Op(k, last.count + 1)]) == Repeat(k, last.count) + [k];
    } else {
      ExpandAppend(m, [Op(k, 1)]);
      assert Expand([Op(k, 1)]) == [k];
    }
  }

  /** Expanding a merged sequence of steps gives the steps back. */
  lemma {:induction false} ExpandMerge(steps: seq<Kind>)
    ensures Expand(Merge(steps)) == steps
    decreases |steps|
  {
    if steps != [] {
      var init, k := steps[..|steps| - 1], steps[|steps| - 1];
      ExpandMerge(init);
      ExpandAbsorb(Merge(init), k);
      assert steps == init + [k];
    }
  }

  /** Appending a block of `c >= 1` steps of a kind the script does not end with adds one run. */
  lemma {:induction false} MergeAppendRepeat(s: seq<Kind>, k: Kind, c: nat)
    requires c >= 1
    requires Merge(s) == [] || Merge(s)[|Merge(s)| - 1].kind != k
    ensures Merge(s + Repeat(k, c)) == Merge(s) + [Op(k, c)]
    decreases c
  {
    var t := s + Repeat(k, c);
    assert Repeat(k, c) == Repeat(k, c - 1) + [k];
    assert t[..|t| - 1] == s + Repeat(k, c - 1);
    if c > 1 {
      MergeAppendRepeat(s, k, c - 1);
    } else {
      assert s + Repeat(k, 0) == s;
    }
  }


  /** The converse round trip: merging the expansion of a well-formed script gives it back. */
  lemma {:induction false} MergeExpand(ops: seq<Op>)
    requires WellFormed(ops)
    ensures Merge(Expand(ops)) == ops
    decreases |ops|
  {
    if ops != [] {
      var init, last := ops[..|ops| - 1], ops[|ops| - 1];
      assert ops == init + [last];
      assert WellFormed(init);
      MergeExpand(init);
      ExpandAppend(init, [last]);
      assert Expand([last]) == Repeat(last.kind, last.count);
      if init != [] {
        assert init[|init| - 1] == ops[|ops| - 2];
      }
      MergeAppendRepeat(Expand(init), last.kind, last.count);
    }
  }

  // --- counting --------------------------------------------------------------

  lemma {:induction false} CountAppend(s: seq<Kind>, t: seq<Kind>, k: Kind)
    ensures Count(s + t, k) == Count(s, k) + Count(t, k)
    decreases |s|
  {
    if s == [] {
      assert s + t == t;
    } else {
      assert (s + t)[0] == s[0];
      assert (s + t)[1..] == s[1..] + t;
      CountAppend(s[1..], t, k);
    }
  }

  lemma {:induction false} CountRepeat(x: Kind, c: nat, k: Kind)
    ensures Count(Repeat(x, c), k) == if x == k then c else 0
    decreases c
  {
    if c > 0 {
      CountRepeat(x, c - 1, k);
      CountAppend(Repeat(x, c - 1), [x], k);
    }
  }

  /** Counting unit steps of the expansion is summing the runs. */
  lemma {:induction false} CountExpand(ops: seq<Op>, k: Kind)
    ensures Count(Expand(ops), k) == Total(ops, k)
    decreases |ops|
  {
    if ops != [] {
      CountExpand(ops[1..], k);
      CountAppend(Repeat(ops[0].kind, ops[0].count), Expand(ops[1..]), k);
      CountRepeat(ops[0].kind, ops[0].count, k);
    }
  }

  // --- alignment --------------------------------------------------------------

  /** A walk never ends before its start. */
  lemma {:induction false} WalkBounds(steps: seq<Kind>, a: seq<char>, b: seq<char>, i: nat, j: nat, I: nat, J: nat)
    requires I <= |a| && J <= |b| && Walk(steps, a, b, i, j, I, J)
    ensures i <= I && j <= J
    decreases |steps|
  {
    if steps != [] {
      var k := steps[0];
      WalkBounds(steps[1..], a, b, i + OldStep(k), j + NewStep(k), I, J);
    }
  }

  /** A unit step can be taken off the end of a walk, and put back. */
  lemma {:induction false} WalkSnoc(steps: seq<Kind>, k: Kind, a: seq<char>, b: seq<char>, i: nat, j: nat, I: nat, J: nat)
    requires I <= |a| && J <= |b|
    ensures Walk(steps + [k], a, b, i, j, I, J) <==>
              FitsBefore(k, a, b, I, J) && Walk(steps, a, b, i, j, I - OldStep(k), J - NewStep(k))
    decreases |steps|
  {
    if steps == [] {
      assert [] + [k] == [k];
    } else {
      var h := steps[0];
      assert (steps + [k])[0] == h && (steps + [k])[1..] == steps[1..] + [k];
      var i', j' := i + OldStep(h), j + NewStep(h);
      WalkSnoc(steps[1..], k, a, b, i', j', I, J);
      if FitsBefore(k, a, b, I, J) && Walk(steps[1..], a, b, i', j', I - OldStep(k), J - NewStep(k)) {
        WalkBounds(steps[1..], a, b, i', j', I - OldStep(k), J - NewStep(k));
      }
    }
  }

  /** A unit alignment of two windows is a walk over them. */
  lemma {:induction false} AlignedStepsWalk(steps: seq<Kind>, a: seq<char>, b: seq<char>, i: nat, j: nat, I: nat, J: nat)
    requires i <= I <= |a| && j <= J <= |b|
    ensures AlignedSteps(steps, a[i..I], b[j..J]) <==> Walk(steps, a, b, i, j, I, J)
    decreases |steps|
  {
    if steps != [] {
      var k := steps[0];
      if i + OldStep(k) <= I && j + NewStep(k) <= J {
        assert a[i..I][OldStep(k)..] == a[i + OldStep(k)..I];
        assert b[j..J][NewStep(k)..] == b[j + NewStep(k)..J];
        if k == Equal {
          assert a[i..I][0] == a[i] && b[j..J][0] == b[j];
        }
        AlignedStepsWalk(steps[1..], a, b, i + OldStep(k), j + NewStep(k), I, J);
      }
    }
  }

  lemma RunFitsCons(k: Kind, c: nat, a: seq<char>, b: seq<char>)
    requires c >= 1
    ensures RunFits(Op(k, c), a, b) <==>
              && OldStep(k) <= |a| && NewStep(k) <= |b|
              && (k == Equal ==> a[0] == b[0])
              && RunFits(Op(k, c - 1), a[OldStep(k)..], b[NewStep(k)..])
  {
    if k == Equal && c <= |a| && c <= |b| {
      var x, y := a[..c], b[..c];
      var x1, y1 := a[1..][..c - 1], b[1..][..c - 1];
      assert x == [a[0]] + x1;
      assert y == [b[0]] + y1;
      if x == y {
        assert x[0] == y[0];
        assert x1 == x[1..] == y[1..] == y1;
      }
    }
  }

  lemma {:induction false} AlignedStepsRepeat(k: Kind, c: nat, rest: seq<Kind>, a: seq<char>, b: seq<char>)
    ensures AlignedSteps(Repeat(k, c) + rest, a, b) <==>
              && RunFits(Op(k, c), a, b)
              && AlignedSteps(rest, a[OldAdvance(Op(k, c))..], b[NewAdvance(Op(k, c))..])
    decreases c
  {
    if c == 0 {
      assert Repeat(k, 0) + rest == rest;
      assert a[..0] == b[..0];
    } else {
      RepeatCons(k, c);
      var r := Repeat(k, c - 1) + rest;
      assert Repeat(k, c) + rest == [k] + r;
      assert ([k] + r)[0] == k && ([k] + r)[1..] == r;
      RunFitsCons(k, c, a, b);
      if OldStep(k) <= |a| && NewStep(k) <= |b| {
        var a1, b1 := a[OldStep(k)..], b[NewStep(k)..];
        AlignedStepsRepeat(k, c - 1, rest, a1, b1);
        if OldAdvance(Op(k, c)) <= |a| && NewAdvance(Op(k, c)) <= |b| {
          assert a1[OldAdvance(Op(k, c - 1))..] == a[OldAdvance(Op(k, c))..];
          assert b1[NewAdvance(Op(k, c - 1))..] == b[NewAdvance(Op(k, c))..];
        }
      }
    }
  }

  /** A script aligns two texts exactly when its unit steps do. */
  lemma {:induction false} AlignedExpand(ops: seq<Op>, a: seq<char>, b: seq<char>)
    ensures Aligned(ops, a, b) <==> AlignedSteps(Expand(ops), a, b)
    decreases |ops|
  {
    if ops != [] {
      var op := ops[0];
      AlignedStepsRepeat(op.kind, op.count, Expand(ops[1..]), a, b);
      if OldAdvance(op) <= |a| && NewAdvance(op) <= |b| {
        AlignedExpand(ops[1..], a[OldAdvance(op)..], b[NewAdvance(op)..]);
      }
    }
  }

  /** Replay law: replaying a script reproduces `b` exactly when the script aligns `a` with `b`. */
  lemma {:induction false} ReplayIffAligned(ops: seq<Op>, a: seq<char>, b: seq<char>)
    ensures Replay(ops, a, b) == Some(b) <==> Aligned(ops, a, b)
    decreases |ops|
  {
    if ops != [] {
      var op := ops[0];
      if OldAdvance(op) <= |a| && NewAdvance(op) <= |b| {
        var a1, b1 := a[OldAdvance(op)..], b[NewAdvance(op)..];
        ReplayIffAligned(ops[1..], a1, b1);
        assert b == b[..NewAdvance(op)] + b1;
        var r := Replay(ops[1..], a1, b1);
        if r.Some? {
          var produced := match op.kind
            case Equal => a[..op.count]
            case Insert => b[..op.count]
            case Delete => [];
          assert |produced| == NewAdvance(op);
          if produced + r.value == b {
            assert r.value == b1;
          }
        }
      }
    }
  }

  /** An alignment consumes all of `a` and produces all of `b`. */
  lemma {:induction false} AlignedTotals(ops: seq<Op>, a: seq<char>, b: seq<char>)
    requires Aligned(ops, a, b)
    ensures Total(ops, Equal) + Total(ops, Delete) == |a|
    ensures Total(ops, Equal) + Total(ops, Insert) == |b|
    decreases |ops|
  {
    if ops != [] {
      AlignedTotals(ops[1..], a[OldAdvance(ops[0])..], b[NewAdvance(ops[0])..]);
    }
  }

  // --- the traceback -----------------------------------------------------------

  /** One unfolding of the traceback. */
  lemma TraceSnoc(a: seq<char>, b: seq<char>, i: nat, j: nat, k: Kind)
    requires i <= |a| && j <= |b| && (i > 0 || j > 0) && k == TraceStep(a, b, i, j)
    ensures OldStep(k) <= i && NewStep(k) <= j
    ensures Trace(a, b, i, j) == Trace(a, b, i - OldStep(k), j - NewStep(k)) + [k]
  {
  }

  /** The last step of the traceback from `(i, j)`, the cell it comes from,
      and what that step adds to `dp`. */
  lemma TraceLast(a: seq<char>, b: seq<char>, i: nat, j: nat) returns (k: Kind, i': nat, j': nat)
    requires i <= |a| && j <= |b| && (i > 0 || j > 0)
    ensures i' + OldStep(k) == i && j' + NewStep(k) == j
    ensures k == Equal ==> a[i - 1] == b[j - 1]
    ensures Trace(a, b, i, j) == Trace(a, b, i', j') + [k]
    ensures Lcs(a, b, i, j) == Lcs(a, b, i', j') + Count([k], Equal)
  {
    k := TraceStep(a, b, i, j);
    i', j' := i - OldStep(k), j - NewStep(k);
    TraceSnoc(a, b, i, j, k);
  }

  /** The traceback's steps from `(i, j)` turn `a[..i]` into `b[..j]`. */
  lemma {:induction false} TraceAligned(a: seq<char>, b: seq<char>, i: nat, j: nat)
    requires i <= |a| && j <= |b|
    ensures Walk(Trace(a, b, i, j), a, b, 0, 0, i, j)
    decreases i + j
  {
    if i > 0 || j > 0 {
      var k, i', j' := TraceLast(a, b, i, j);
      TraceAligned(a, b, i', j');
      WalkSnoc(Trace(a, b, i', j'), k, a, b, 0, 0, i, j);
    }
  }

  /** The traceback emits exactly `dp[i][j]` equal steps. */
  lemma {:induction false} TraceEqualCount(a: seq<char>, b: seq<char>, i: nat, j: nat)
    requires i <= |a| && j <= |b|
    ensures Count(Trace(a, b, i, j), Equal) == Lcs(a, b, i, j)
    decreases i + j
  {
    if i > 0 || j > 0 {
      var k, i', j' := TraceLast(a, b, i, j);
      TraceEqualCount(a, b, i', j');
      CountAppend(Trace(a, b, i', j'), [k], Equal);
    }
  }

  // --- optimality ----------------------------------------------------------------

  /** Growing either text by one unit grows the LCS length by zero or one. */
  lemma {:induction false} LcsSteps(a: seq<char>, b: seq<char>, i: nat, j: nat)
    requires i <= |a| && j <= |b|
    ensures i > 0 ==> Lcs(a, b, i - 1, j) <= Lcs(a, b, i, j) <= Lcs(a, b, i - 1, j) + 1
    ensures j > 0 ==> Lcs(a, b, i, j - 1) <= Lcs(a, b, i, j) <= Lcs(a, b, i, j - 1) + 1
    decreases i + j
  {
    if i > 0 && j > 0 {
      LcsSteps(a, b, i - 1, j);
      LcsSteps(a, b, i, j - 1);
    }
  }

  /** A last unit step that fits gains at most what the table allows. */
  lemma LcsLastStep(a: seq<char>, b: seq<char>, i: nat, j: nat, k: Kind)
    requires i <= |a| && j <= |b| && FitsBefore(k, a, b, i, j)
    ensures Lcs(a, b, i - OldStep(k), j - NewStep(k)) + Count([k], Equal) <= Lcs(a, b, i, j)
  {
    LcsSteps(a, b, i, j);
    assert Count([k], Equal) == if k == Equal then 1 else 0;
  }

  /** No unit alignment of `a[..i]` with `b[..j]` has more equal steps than `dp[i][j]`. */
  lemma {:induction false} LcsUpperBound(steps: seq<Kind>, a: seq<char>, b: seq<char>, i: nat, j: nat)
    requires i <= |a| && j <= |b|
    requires Walk(steps, a, b, 0, 0, i, j)
    ensures Count(steps, Equal) <= Lcs(a, b, i, j)
    decreases |steps|
  {
    if steps != [] {
      var init, k := steps[..|steps| - 1], steps[|steps| - 1];
      assert steps == init + [k];
      WalkSnoc(init, k, a, b, 0, 0, i, j);
      LcsUpperBound(init, a, b, i - OldStep(k), j - NewStep(k));
      CountAppend(init, [k], Equal);
      LcsLastStep(a, b, i, j, k);
    }
  }

  /** LCS optimality: no script that turns `a` into `b` keeps more units than the diff. */
  lemma DiffOptimal(ops: seq<Op>, a: seq<char>, b: seq<char>)
    requires Aligned(ops, a, b)
    ensures Total(ops, Equal) <= Total(Diff(a, b), Equal)
  {
    AlignedExpand(ops, a, b);
    assert a[0..|a|] == a && b[0..|b|] == b;
    AlignedStepsWalk(Expand(ops), a, b, 0, 0, |a|, |b|);
    LcsUpperBound(Expand(ops), a, b, |a|, |b|);
    CountExpand(ops, Equal);
    DiffCorrect(a, b);
  }

  // --- identity and single edits ------------------------------------------------

  lemma {:induction false} LcsBound(a: seq<char>, b: seq<char>, i: nat, j: nat)
    requires i <= |a| && j <= |b|
    ensures Lcs(a, b, i, j) <= i && Lcs(a, b, i, j) <= j
    decreases i + j
  {
    if i > 0 && j > 0 {
      LcsBound(a, b, i - 1, j - 1);
      LcsBound(a, b, i - 1, j);
      LcsBound(a, b, i, j - 1);
    }
  }

  /** The table is symmetric in its two texts. */
  lemma {:induction false} LcsSwap(a: seq<char>, b: seq<char>, i: nat, j: nat)
    requires i <= |a| && j <= |b|
    ensures Lcs(a, b, i, j) == Lcs(b, a, j, i)
    decreases i + j
  {
    if i > 0 && j > 0 {
      LcsSwap(a, b, i - 1, j - 1);
      LcsSwap(a, b, i - 1, j);
      LcsSwap(a, b, i, j - 1);
    }
  }

  /** When the texts agree on their first `i` units, `dp[i][j] == i` for every `j >= i`. */
  lemma {:induction false} LcsCommonPrefix(a: seq<char>, b: seq<char>, i: nat, j: nat)
    requires i <= |a| && i <= j <= |b| && a[..i] == b[..i]
    ensures Lcs(a, b, i, j) == i
    decreases i + j
  {
    if i > 0 {
      if j == i {
        assert a[i - 1] == b[i - 1] by { assert a[..i][i - 1] == b[..i][i - 1]; }
        assert a[..i - 1] == b[..i - 1] by {
          assert a[..i - 1] == a[..i][..i - 1];
          assert b[..i - 1] == b[..i][..i - 1];
        }
        LcsCommonPrefix(a, b, i - 1, j - 1);
      } else {
        LcsCommonPrefix(a, b, i, j - 1);
        LcsSteps(a, b, i, j);
        LcsBound(a, b, i, j);
      }
    }
  }

  /** On a common prefix the traceback takes only equal steps. */
  lemma {:induction false} TracePrefix(a: seq<char>, b: seq<char>, i: nat)
    requires i <= |a| && i <= |b| && a[..i] == b[..i]
    ensures Trace(a, b, i, i) == Repeat(Equal, i)
    decreases i
  {
    if i > 0 {
      assert a[i - 1] == b[i - 1] by { assert a[..i][i - 1] == b[..i][i - 1]; }
      assert a[..i - 1] == b[..i - 1] by {
        assert a[..i - 1] == a[..i][..i - 1];
        assert b[..i - 1] == b[..i][..i - 1];
      }
      TracePrefix(a, b, i - 1);
    }
  }

  /** Diffing a text against itself: nothing for the empty text, else one equal run. */
  lemma DiffIdentity(t: seq<char>)
    ensures Diff(t, t) == if t == [] then [] else [Op(Equal, |t|)]
  {
    TracePrefix(t, t, |t|);
    if t != [] {
      MergeAppendRepeat([], Equal, |t|);
      assert [] + Repeat(Equal, |t|) == Repeat(Equal, |t|);
    }
  }

  /** A step of the last run's kind grows that run. */
  lemma AbsorbGrows(m: seq<Op>, last: Op)
    ensures Absorb(m + [last], last.kind) == m + [Op(last.kind, last.count + 1)]
  {
    assert (m + [last])[..|m|] == m;
  }

  lemma MergeSnoc(s: seq<Kind>, k: Kind)
    ensures Merge(s + [k]) == Absorb(Merge(s), k)
  {
    assert (s + [k])[..|s|] == s;
  }

  /** One run of `c` steps of kind `k`, or nothing when `c == 0`. */
  function RunOf(k: Kind, c: nat): seq<Op>
  {
    if c > 0 then [Op(k, c)] else []
  }

  /** A block of `c` steps of one kind merges into one run, or none. */
  lemma MergeRepeat(k: Kind, c: nat)
    ensures Merge(Repeat(k, c)) == RunOf(k, c)
  {
    if c > 0 {
      MergeAppendRepeat([], k, c);
      assert [] + Repeat(k, c) == Repeat(k, c);
    }
  }

  lemma MergeAppendBlock(s: seq<Kind>, k: Kind, c: nat)
    requires Merge(s) == [] || Merge(s)[|Merge(s)| - 1].kind != k
    ensures Merge(s + Repeat(k, c)) == Merge(s) + RunOf(k, c)
  {
    if c > 0 {
      MergeAppendRepeat(s, k, c);
    } else {
      assert s + Repeat(k, 0) == s;
    }
  }

  /** Three blocks of steps, the middle one non-empty and of a kind different
      from its neighbours, merge into at most three runs. */
  lemma MergeBlocks(k1: Kind, c1: nat, k2: Kind, c2: nat, k3: Kind, c3: nat)
    requires c2 >= 1 && k1 != k2 && k2 != k3
    ensures Merge(Repeat(k1, c1) + Repeat(k2, c2) + Repeat(k3, c3)) == RunOf(k1, c1) + [Op(k2, c2)] + RunOf(k3, c3)
  {
    var x := Repeat(k1, c1);
    MergeRepeat(k1, c1);
    var y := x + Repeat(k2, c2);
    MergeAppendBlock(x, k2, c2);
    assert Merge(y) == RunOf(k1, c1) + [Op(k2, c2)];
    MergeAppendBlock(y, k3, c3);
  }

  /** Inside the inserted block the traceback takes an insert step. */
  lemma InsertStepAt(a: seq<char>, b: seq<char>, w: seq<char>, p: nat, u: nat)
    requires 1 <= p <= |a| && 1 <= u <= |w| && a[p - 1] !in w
    requires |b| == |a| + |w| && b[..p] == a[..p] && b[p..p + |w|] == w
    ensures Trace(a, b, p, p + u) == Trace(a, b, p, p + u - 1) + [Insert]
  {
    assert TraceStep(a, b, p, p + u) == Insert by {
      assert b[p + u - 1] == w[u - 1] by { assert b[p..p + |w|][u - 1] == b[p + u - 1]; }
      LcsCommonPrefix(a, b, p, p + u - 1);
      LcsBound(a, b, p - 1, p + u);
    }
    TraceSnoc(a, b, p, p + u, Insert);
  }

  /** Inside the deleted block the traceback takes a delete step. */
  lemma DeleteStepAt(a: seq<char>, b: seq<char>, p: nat, d: nat, u: nat)
    requires 1 <= u <= d && p + d <= |a| && (p == 0 || a[p - 1] !in a[p..p + d])
    requires |b| == |a| - d && b[..p] == a[..p]
    ensures Trace(a, b, p + u, p) == Trace(a, b, p + u - 1, p) + [Delete]
  {
    assert TraceStep(a, b, p + u, p) == Delete by {
      if p > 0 {
        assert a[p + u - 1] == a[p..p + d][u - 1];
        assert b[p - 1] == a[p - 1] by { assert b[..p][p - 1] == a[..p][p - 1]; }
        LcsBound(a, b, p + u, p - 1);
        LcsSwap(a, b, p + u - 1, p);
        LcsCommonPrefix(b, a, p, p + u - 1);
      }
    }
    TraceSnoc(a, b, p + u, p, Delete);
  }

  /** In a common suffix `a[i0..] == b[j0..]` the traceback takes equal steps
      back to `(i0, j0)`. */
  lemma {:induction false} TraceCommonSuffix(a: seq<char>, b: seq<char>, i0: nat, j0: nat, i: nat, j: nat)
    requires i0 <= i <= |a| && j0 <= j <= |b| && i - i0 == j - j0 && a[i0..] == b[j0..]
    ensures Trace(a, b, i, j) == Trace(a, b, i0, j0) + Repeat(Equal, i - i0)
    decreases i
  {
    if i > i0 {
      assert TraceStep(a, b, i, j) == Equal by {
        assert a[i0..][i - 1 - i0] == a[i - 1];
        assert b[j0..][j - 1 - j0] == b[j - 1];
      }
      TraceSnoc(a, b, i, j, Equal);
      TraceCommonSuffix(a, b, i0, j0, i - 1, j - 1);
      BlockSnoc(Trace(a, b, i, j), Trace(a, b, i - 1, j - 1), Trace(a, b, i0, j0), Equal, i - i0);
    }
  }

  /** The traceback through the inserted block of `b == a[..p] + w + a[p..]`. */
  lemma {:induction false} TraceInserted(a: seq<char>, b: seq<char>, w: seq<char>, p: nat, u: nat)
    requires 1 <= p <= |a| && u <= |w| && a[p - 1] !in w
    requires |b| == |a| + |w| && b[..p] == a[..p] && b[p..p + |w|] == w
    ensures Trace(a, b, p, p + u) == Repeat(Equal, p) + Repeat(Insert, u)
    decreases u
  {
    if u == 0 {
      TracePrefix(a, b, p);
      assert p + u == p;
    } else {
      InsertStepAt(a, b, w, p, u);
      TraceInserted(a, b, w, p, u - 1);
      BlockSnoc(Trace(a, b, p, p + u), Trace(a, b, p, p + u - 1), Repeat(Equal, p), Insert, u);
    }
  }

  lemma InsertSteps(a: seq<char>, b: seq<char>, w: seq<char>, p: nat)
    requires 1 <= p <= |a| && |w| >= 1 && a[p - 1] !in w
    requires |b| == |a| + |w| && b[..p] == a[..p] && b[p..p + |w|] == w && b[p + |w|..] == a[p..]
    ensures Trace(a, b, |a|, |b|) == Repeat(Equal, p) + Repeat(Insert, |w|) + Repeat(Equal, |a| - p)
  {
    TraceInserted(a, b, w, p, |w|);
    TraceCommonSuffix(a, b, p, p + |w|, |a|, |b|);
  }

  /** Pure insertion of `w` after position `p >= 1`, where the unit before the
      insertion point does not occur in `w`: the diff keeps `a[..p]`, inserts
      `w`, and keeps the rest. */
  lemma DiffInsert(a: seq<char>, w: seq<char>, p: nat)
    requires 1 <= p <= |a| && |w| >= 1 && a[p - 1] !in w
    ensures Diff(a, a[..p] + w + a[p..]) ==
              [Op(Equal, p), Op(Insert, |w|)] + if p < |a| then [Op(Equal, |a| - p)] else []
  {
    var b := a[..p] + w + a[p..];
    var steps := Trace(a, b, |a|, |b|);
    assert steps == Repeat(Equal, p) + Repeat(Insert, |w|) + Repeat(Equal, |a| - p) by {
      assert b[..p] == a[..p] && b[p..p + |w|] == w && b[p + |w|..] == a[p..];
      InsertSteps(a, b, w, p);
    }
    MergeBlocks(Equal, p, Insert, |w|, Equal, |a| - p);
    assert Diff(a, b) == Merge(steps);
  }

  /** The traceback through the deleted block of `b == a[..p] + a[p + d..]`. */
  lemma {:induction false} TraceDeleted(a: seq<char>, b: seq<char>, p: nat, d: nat, u: nat)
    requires u <= d && p + d <= |a| && (p == 0 || a[p - 1] !in a[p..p + d])
    requires |b| == |a| - d && b[..p] == a[..p]
    ensures Trace(a, b, p + u, p) == Repeat(Equal, p) + Repeat(Delete, u)
    decreases u
  {
    if u == 0 {
      TracePrefix(a, b, p);
      assert p + u == p;
    } else {
      DeleteStepAt(a, b, p, d, u);
      TraceDeleted(a, b, p, d, u - 1);
      BlockSnoc(Trace(a, b, p + u, p), Trace(a, b, p + u - 1, p), Repeat(Equal, p), Delete, u);
    }
  }

  lemma DeleteSteps(a: seq<char>, b: seq<char>, p: nat, d: nat)
    requires 1 <= d && p + d <= |a| && (p == 0 || a[p - 1] !in a[p..p + d])
    requires |b| == |a| - d && b[..p] == a[..p] && b[p..] == a[p + d..]
    ensures Trace(a, b, |a|, |b|) == Repeat(Equal, p) + Repeat(Delete, d) + Repeat(Equal, |a| - p - d)
  {
    TraceDeleted(a, b, p, d, d);
    TraceCommonSuffix(a, b, p + d, p, |a|, |b|);
  }

  /** Pure deletion of `a[p..p + d]`, where the unit before the deleted block
      does not occur in it: the diff keeps `a[..p]`, deletes the block, and
      keeps the rest. */
  lemma DiffDelete(a: seq<char>, p: nat, d: nat)
    requires 1 <= d && p + d <= |a| && (p == 0 || a[p - 1] !in a[p..p + d])
    ensures Diff(a, a[..p] + a[p + d..]) ==
              (if p > 0 then [Op(Equal, p)] else []) + [Op(Delete, d)] +
              if p + d < |a| then [Op(Equal, |a| - p - d)] else []
  {
    var b := a[..p] + a[p + d..];
    var steps := Trace(a, b, |a|, |b|);
    assert steps == Repeat(Equal, p) + Repeat(Delete, d) + Repeat(Equal, |a| - p - d) by {
      assert b[..p] == a[..p] && b[p..] == a[p + d..];
      DeleteSteps(a, b, p, d);
    }
    MergeBlocks(Equal, p, Delete, d, Equal, |a| - p - d);
    assert Diff(a, b) == Merge(steps);
  }
}

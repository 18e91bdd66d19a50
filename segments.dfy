/** Rendering support of the annotation canvas: the split of the document text
    into segments at every annotation and pending-selection boundary, and the
    trimming of spaces from the ends of a new selection. */
module Segments {
  import opened Common
  import opened Reconcile

  /** A selected range of the text, `[start, end)`. */
  datatype Selection = Selection(start: nat, end: nat)

  /** One rendered piece of text with the annotations that cover it. */
  datatype Segment<P> = Segment(start: nat, end: nat, text: seq<char>, annotations: seq<Annotation<P>>, isPending: bool)

  // ---------------------------------------------------------------------------
  // Boundaries
  // ---------------------------------------------------------------------------

  /** The start and end offsets of the annotations. */
  function AnnotationBounds<P>(anns: seq<Annotation<P>>): (r: set<nat>)
    ensures forall k :: 0 <= k < |anns| ==> anns[k].start in r && anns[k].end in r
    decreases |anns|
  {
    if anns == [] then {}
    else AnnotationBounds(anns[..|anns| - 1]) + {anns[|anns| - 1].start, anns[|anns| - 1].end}
  }

  /** Every offset at which a segment starts or ends: the two ends of the text,
      every annotation offset and both ends of the pending selection. */
  function Boundaries<P>(text: seq<char>, anns: seq<Annotation<P>>, pending: Option<Selection>): (r: set<nat>)
    ensures 0 in r && |text| in r
  {
    {0, |text|} + AnnotationBounds(anns) + if pending.Some? then {pending.value.start, pending.value.end} else {}
  }

  predicate StrictlyIncreasing(s: seq<nat>)
  {
    forall i, j :: 0 <= i < j < |s| ==> s[i] < s[j]
  }

  /** `x` placed into the increasing sequence `s` at its rank. */
  function InsertSorted(s: seq<nat>, x: nat): (r: seq<nat>)
    requires StrictlyIncreasing(s) && x !in s
    ensures StrictlyIncreasing(r)
    ensures |r| == |s| + 1
    ensures forall y :: y in r <==> y in s || y == x
    decreases |s|
  {
    if s == [] then [x]
    else if x < s[0] then [x] + s
    else
      var rest := InsertSorted(s[1..], x);
      assert forall y :: y in s <==> y == s[0] || y in s[1..];
      assert forall j :: 0 <= j < |rest| ==> s[0] < rest[j] by {
        forall j | 0 <= j < |rest|
          ensures s[0] < rest[j]
        {
          assert rest[j] in rest;
          if rest[j] != x {
            var m :| 0 <= m < |s[1..]| && s[1..][m] == rest[j];
            assert s[m + 1] == rest[j];
          }
        }
      }
      [s[0]] + rest
  }

  /** `Array.from(set).sort((a, b) => a - b)`: the members of `s` in increasing
      order. */
  method SortBoundaries(s: set<nat>) returns (bs: seq<nat>)
    ensures StrictlyIncreasing(bs)
    ensures forall x :: x in bs <==> x in s
    ensures |bs| == |s|
  {
    bs := [];
    var rest := s;
    while rest != {}
      invariant StrictlyIncreasing(bs)
      invariant forall x :: x in s <==> x in bs || x in rest
      invariant forall x :: x in bs ==> x !in rest
      invariant |bs| + |rest| == |s|
      decreases |rest|
    {
      var x :| x in rest;
      bs := InsertSorted(bs, x);
      rest := rest - {x};
    }
  }

  /** Two increasing sequences with the same members are equal: the sorted
      boundary list is determined by the boundary set. */
  lemma {:induction false} SortedUnique(s: seq<nat>, t: seq<nat>)
    requires StrictlyIncreasing(s) && StrictlyIncreasing(t)
    requires forall x :: x in s <==> x in t
    ensures s == t
    decreases |s|
  {
    SameMembersEmpty(s, t);
    if s != [] && t != [] {
      assert s[0] == t[0] by {
        assert s[0] in t && t[0] in s;
      }
      forall x
        ensures x in s[1..] <==> x in t[1..]
      {
        if x in s[1..] {
          assert x in t && x > s[0];
        }
        if x in t[1..] {
          assert x in s && x > t[0];
        }
      }
      SortedUnique(s[1..], t[1..]);
      assert s == [s[0]] + s[1..] && t == [t[0]] + t[1..];
    }
  }

  lemma SameMembersEmpty<T>(s: seq<T>, t: seq<T>)
    requires forall x :: x in s <==> x in t
    ensures s == [] <==> t == []
  {
    if s != [] {
      assert s[0] in t;
    }
    if t != [] {
      assert t[0] in s;
    }
  }

  // ---------------------------------------------------------------------------
  // Segments
  // ---------------------------------------------------------------------------

  /** `annotations.filter(ann => ann.start_offset <= start && ann.end_offset >= end)`. */
  function Covering<P>(anns: seq<Annotation<P>>, start: nat, end: nat): seq<Annotation<P>>
    decreases |anns|
  {
    if anns == [] then []
    else
      var last := anns[|anns| - 1];
      Covering(anns[..|anns| - 1], start, end) + if last.start <= start && last.end >= end then [last] else []
  }

  /** The pending selection contains `[start, end)`. */
  predicate InPending(pending: Option<Selection>, start: nat, end: nat)
  {
    pending.Some? && start >= pending.value.start && end <= pending.value.end
  }

  /** The segments run from offset 0 in order, each non-empty, each starting
      where the previous one ends. */
  ghost predicate IsChain<P>(segs: seq<Segment<P>>)
  {
    && (|segs| > 0 ==> segs[0].start == 0)
    && (forall i :: 0 <= i < |segs| ==> segs[i].start < segs[i].end)
    && (forall i :: 0 <= i < |segs| - 1 ==> segs[i].end == segs[i + 1].start)
  }

  /** The segments start and end on boundaries, no boundary falls strictly
      inside a segment, and the last segment ends at the largest boundary. */
  ghost predicate OnBoundaries<P>(segs: seq<Segment<P>>, b: set<nat>)
  {
    && (forall i :: 0 <= i < |segs| ==> segs[i].start in b && segs[i].end in b)
    && (forall i, x :: 0 <= i < |segs| && x in b ==> !(segs[i].start < x < segs[i].end))
    && (|segs| > 0 ==> forall x :: x in b ==> x <= segs[|segs| - 1].end)
  }

  /** `segs` is the split of `text` at `Boundaries(text, anns, pending)`: one
      segment between each two consecutive boundaries, in order, each carrying
      its slice of the text, the annotations that cover it in their original
      order, and whether the pending selection contains it. */
  ghost predicate IsSegmentation<P>(text: seq<char>, anns: seq<Annotation<P>>, pending: Option<Selection>, segs: seq<Segment<P>>)
  {
    var b := Boundaries(text, anns, pending);
    && |segs| == |b| - 1
    && IsChain(segs)
    && OnBoundaries(segs, b)
    && forall i :: 0 <= i < |segs| ==> segs[i] == SegmentAt(text, anns, pending, segs[i].start, segs[i].end)
  }

  /** The record of the segment `[start, end)`: its slice of the text, the
      annotations covering it and whether the pending selection contains it. */
  function SegmentAt<P>(text: seq<char>, anns: seq<Annotation<P>>, pending: Option<Selection>, start: nat, end: nat): Segment<P>
  {
    Segment(start, end, ClampedSlice(text, start, end), Covering(anns, start, end), InPending(pending, start, end))
  }

  /** The segments between consecutive entries of `bs`. */
  function SegmentsOver<P>(text: seq<char>, anns: seq<Annotation<P>>, pending: Option<Selection>, bs: seq<nat>): (r: seq<Segment<P>>)
    ensures |r| == if |bs| < 2 then 0 else |bs| - 1
    decreases |bs|
  {
    if |bs| < 2 then []
    else SegmentsOver(text, anns, pending, bs[..|bs| - 1]) + [SegmentAt(text, anns, pending, bs[|bs| - 2], bs[|bs| - 1])]
  }

  lemma {:induction false} SegmentsOverAt<P>(text: seq<char>, anns: seq<Annotation<P>>, pending: Option<Selection>, bs: seq<nat>, k: nat)
    requires k + 1 < |bs|
    ensures SegmentsOver(text, anns, pending, bs)[k] == SegmentAt(text, anns, pending, bs[k], bs[k + 1])
    decreases |bs|
  {
    var init := bs[..|bs| - 1];
    if k + 2 < |bs| {
      SegmentsOverAt(text, anns, pending, init, k);
    }
  }

  /** The boundary set of `_buildSegments`, built as the code builds it. */
  method CollectBoundaries<P>(text: seq<char>, anns: seq<Annotation<P>>, pending: Option<Selection>)
    returns (boundarySet: set<nat>)
    ensures boundarySet == Boundaries(text, anns, pending)
  {
    boundarySet := {0, |text|};
    for i := 0 to |anns|
      invariant boundarySet == {0, |text|} + AnnotationBounds(anns[..i])
    {
      assert anns[..i + 1][..i] == anns[..i];
      boundarySet := boundarySet + {anns[i].start, anns[i].end};
    }
    assert anns[..|anns|] == anns;
    if pending.Some? {
      boundarySet := boundarySet + {pending.value.start, pending.value.end};
    }
  }

  /** `_buildSegments`. */
  method BuildSegments<P>(text: seq<char>, anns: seq<Annotation<P>>, pending: Option<Selection>)
    returns (segs: seq<Segment<P>>)
    ensures IsSegmentation(text, anns, pending, segs)
  {
    var boundarySet := CollectBoundaries(text, anns, pending);
    var bs := SortBoundaries(boundarySet);
    segs := SegmentsBetween(text, anns, pending, bs);
    SortedFacts(text, anns, pending, bs, boundarySet, segs);
  }

  /** The loop of `_buildSegments` over consecutive sorted boundaries. */
  method SegmentsBetween<P>(text: seq<char>, anns: seq<Annotation<P>>, pending: Option<Selection>, bs: seq<nat>)
    returns (segs: seq<Segment<P>>)
    ensures segs == SegmentsOver(text, anns, pending, bs)
  {
    segs := [];
    if |bs| == 0 {
      return;
    }
    for i := 0 to |bs| - 1
      invariant segs == SegmentsOver(text, anns, pending, bs[..i + 1])
    {
      var start, end := bs[i], bs[i + 1];
      var segmentText := ClampedSlice(text, start, end);
      var covering := Covering(anns, start, end);
      var isPending := pending.Some? && start >= pending.value.start && end <= pending.value.end;
      assert bs[..i + 2][..i + 1] == bs[..i + 1];
      segs := segs + [Segment(start, end, segmentText, covering, isPending)];
    }
    assert bs[..|bs|] == bs;
  }

  lemma SortedFacts<P>(text: seq<char>, anns: seq<Annotation<P>>, pending: Option<Selection>,
                      bs: seq<nat>, b: set<nat>, segs: seq<Segment<P>>)
    requires StrictlyIncreasing(bs) && |bs| == |b|
    requires forall x :: x in bs <==> x in b
    requires segs == SegmentsOver(text, anns, pending, bs)
    requires b == Boundaries(text, anns, pending)
    ensures IsSegmentation(text, anns, pending, segs)
  {
    assert 0 in b;
    var z := IndexOf(bs, 0);
    forall k | 0 <= k < |segs|
      ensures segs[k].start == bs[k] && segs[k].end == bs[k + 1]
      ensures segs[k] == SegmentAt(text, anns, pending, segs[k].start, segs[k].end)
    {
      SegmentsOverAt(text, anns, pending, bs, k);
    }
    ChainFacts(bs, b, segs);
  }

  /** Segments laid between consecutive entries of the sorted boundary list
      form a chain on the boundaries. */
  lemma ChainFacts<P>(bs: seq<nat>, b: set<nat>, segs: seq<Segment<P>>)
    requires StrictlyIncreasing(bs) && 0 in b
    requires forall x :: x in bs <==> x in b
    requires |bs| >= 1 && |segs| == |bs| - 1
    requires forall k :: 0 <= k < |segs| ==> segs[k].start == bs[k] && segs[k].end == bs[k + 1]
    ensures IsChain(segs) && OnBoundaries(segs, b)
  {
    SortedStartsAtZero(bs, b);
    forall i | 0 <= i < |segs|
      ensures segs[i].start < segs[i].end
    {
      assert bs[i] < bs[i + 1];
    }
    forall i | 0 <= i < |segs| - 1
      ensures segs[i].end == segs[i + 1].start
    {
      assert segs[i].end == bs[i + 1] == segs[i + 1].start;
    }
    EndsOnBoundaries(bs, b, segs);
    NothingInside(bs, b, segs);
    LastIsLargest(bs, b, segs);
  }

  lemma EndsOnBoundaries<P>(bs: seq<nat>, b: set<nat>, segs: seq<Segment<P>>)
    requires forall x :: x in bs <==> x in b
    requires |segs| < |bs|
    requires forall k :: 0 <= k < |segs| ==> segs[k].start == bs[k] && segs[k].end == bs[k + 1]
    ensures forall i :: 0 <= i < |segs| ==> segs[i].start in b && segs[i].end in b
  {
    forall i | 0 <= i < |segs|
      ensures segs[i].start in b && segs[i].end in b
    {
      assert bs[i] in bs && bs[i + 1] in bs;
    }
  }

  lemma NothingInside<P>(bs: seq<nat>, b: set<nat>, segs: seq<Segment<P>>)
    requires StrictlyIncreasing(bs)
    requires forall x :: x in b ==> x in bs
    requires |segs| < |bs|
    requires forall k :: 0 <= k < |segs| ==> segs[k].start == bs[k] && segs[k].end == bs[k + 1]
    ensures forall i, x :: 0 <= i < |segs| && x in b ==> !(segs[i].start < x < segs[i].end)
  {
    forall i, x | 0 <= i < |segs| && x in b
      ensures !(segs[i].start < x < segs[i].end)
    {
      NotBetween(bs, i, x);
    }
  }

  lemma LastIsLargest<P>(bs: seq<nat>, b: set<nat>, segs: seq<Segment<P>>)
    requires StrictlyIncreasing(bs)
    requires forall x :: x in b ==> x in bs
    requires |segs| + 1 == |bs|
    requires forall k :: 0 <= k < |segs| ==> segs[k].start == bs[k] && segs[k].end == bs[k + 1]
    ensures |segs| > 0 ==> forall x :: x in b ==> x <= segs[|segs| - 1].end
  {
    forall x | x in b && |segs| > 0
      ensures x <= segs[|segs| - 1].end
    {
      var j := IndexOf(bs, x);
      assert j == |bs| - 1 || bs[j] < bs[|bs| - 1];
    }
  }

  lemma SortedStartsAtZero(bs: seq<nat>, b: set<nat>)
    requires StrictlyIncreasing(bs) && 0 in b && |bs| >= 1
    requires forall x :: x in bs <==> x in b
    ensures bs[0] == 0
  {
    var z := IndexOf(bs, 0);
  }

  lemma NotBetween(bs: seq<nat>, i: nat, x: nat)
    requires StrictlyIncreasing(bs) && i + 1 < |bs| && x in bs
    ensures !(bs[i] < x < bs[i + 1])
  {
    var j := IndexOf(bs, x);
    if j <= i {
      assert j == i || bs[j] < bs[i];
    } else {
      assert j == i + 1 || bs[i + 1] < bs[j];
    }
  }

  lemma IndexOf(bs: seq<nat>, x: nat) returns (j: nat)
    requires x in bs
    ensures j < |bs| && bs[j] == x
  {
    j :| 0 <= j < |bs| && bs[j] == x;
  }

  // ---------------------------------------------------------------------------
  // Properties of a segmentation
  // ---------------------------------------------------------------------------

  function Texts<P>(segs: seq<Segment<P>>): seq<char>
    decreases |segs|
  {
    if segs == [] then [] else Texts(segs[..|segs| - 1]) + segs[|segs| - 1].text
  }

  lemma ClampedSliceJoin(t: seq<char>, i: nat, j: nat, k: nat)
    requires i <= j <= k
    ensures ClampedSlice(t, i, j) + ClampedSlice(t, j, k) == ClampedSlice(t, i, k)
  {
    if j >= |t| {
      assert ClampedSlice(t, j, k) == [];
      if i < |t| {
        assert ClampedSlice(t, i, j) == t[i..] == ClampedSlice(t, i, k);
      }
    } else if k <= |t| {
      assert t[i..j] + t[j..k] == t[i..k];
    } else {
      assert t[i..j] + t[j..] == t[i..];
    }
  }

  lemma {:induction false} TextsPrefix<P>(text: seq<char>, segs: seq<Segment<P>>, n: nat)
    requires 1 <= n <= |segs| && IsChain(segs)
    requires forall i :: 0 <= i < |segs| ==> segs[i].text == ClampedSlice(text, segs[i].start, segs[i].end)
    ensures Texts(segs[..n]) == ClampedSlice(text, 0, segs[n - 1].end)
    decreases n
  {
    var p := segs[..n];
    assert p[..n - 1] == segs[..n - 1];
    if n == 1 {
      assert Texts(segs[..0]) == [];
    } else {
      TextsPrefix(text, segs, n - 1);
      assert segs[n - 2].end == segs[n - 1].start;
      ClampedSliceJoin(text, 0, segs[n - 1].start, segs[n - 1].end);
    }
  }

  lemma SubsetSize<T>(a: set<T>, b: set<T>)
    requires a <= b
    ensures |a| <= |b|
  {
    assert b == a + (b - a);
  }

  /** The segment texts, joined in order, give back the whole document. */
  lemma SegmentsJoinToText<P>(text: seq<char>, anns: seq<Annotation<P>>, pending: Option<Selection>, segs: seq<Segment<P>>)
    requires IsSegmentation(text, anns, pending, segs)
    ensures Texts(segs) == text
  {
    var b := Boundaries(text, anns, pending);
    if |text| == 0 {
      if segs != [] {
        TextsPrefix(text, segs, |segs|);
        assert segs[..|segs|] == segs;
      }
    } else {
      assert {0, |text|} <= b && |{0, |text|}| == 2;
      SubsetSize({0, |text|}, b);
      TextsPrefix(text, segs, |segs|);
      assert segs[..|segs|] == segs;
    }
  }

  lemma {:induction false} CoveringMembers<P>(anns: seq<Annotation<P>>, start: nat, end: nat, a: Annotation<P>)
    ensures a in Covering(anns, start, end) <==> a in anns && a.start <= start && a.end >= end
    decreases |anns|
  {
    if anns != [] {
      var init := anns[..|anns| - 1];
      CoveringMembers(init, start, end, a);
      assert anns == init + [anns[|anns| - 1]];
    }
  }

  /** The covering list keeps the annotations' original order. */
  lemma {:induction false} CoveringInOrder<P>(anns: seq<Annotation<P>>, start: nat, end: nat)
    ensures Subsequence(Covering(anns, start, end), anns)
    decreases |anns|
  {
    if anns != [] {
      var init := anns[..|anns| - 1];
      var last := anns[|anns| - 1];
      CoveringInOrder(init, start, end);
      var c := Covering(anns, start, end);
      if last.start <= start && last.end >= end {
        assert c[..|c| - 1] == Covering(init, start, end);
      } else {
        assert c == Covering(init, start, end);
      }
    }
  }

  /** Within a segment, an annotation covers either every position or none:
      a position of the segment lies in an annotation exactly when the
      annotation is in the segment's list. */
  lemma CoverageIsUniform<P>(text: seq<char>, anns: seq<Annotation<P>>, pending: Option<Selection>,
                             segs: seq<Segment<P>>, i: nat, a: Annotation<P>, q: nat)
    requires IsSegmentation(text, anns, pending, segs)
    requires i < |segs| && segs[i].start <= q < segs[i].end && a in anns
    ensures a.start <= q < a.end <==> a in segs[i].annotations
  {
    var b := Boundaries(text, anns, pending);
    CoveringMembers(anns, segs[i].start, segs[i].end, a);
    var k :| 0 <= k < |anns| && anns[k] == a;
    assert a.start in b && a.end in b;
  }

  /** Likewise, a segment lies wholly inside or wholly outside the pending
      selection. */
  lemma PendingIsUniform<P>(text: seq<char>, anns: seq<Annotation<P>>, sel: Selection,
                            segs: seq<Segment<P>>, i: nat, q: nat)
    requires IsSegmentation(text, anns, Some(sel), segs)
    requires i < |segs| && segs[i].start <= q < segs[i].end
    ensures sel.start <= q < sel.end <==> segs[i].isPending
  {
    var b := Boundaries(text, anns, Some(sel));
    assert sel.start in b && sel.end in b;
  }

  // ---------------------------------------------------------------------------
  // Trimming a new selection
  // ---------------------------------------------------------------------------

  /** `text[k] === ' '`; past the end of the text the unit is `undefined`. */
  predicate IsSpaceAt(text: seq<char>, k: nat)
  {
    k < |text| && text[k] == ' '
  }

  /** Where the leading-space loop stops. */
  function SkipLeading(text: seq<char>, start: nat, end: nat): (r: nat)
    ensures start <= end ==> start <= r <= end
    ensures start > end ==> r == start
    ensures forall k :: start <= k < r ==> IsSpaceAt(text, k)
    ensures r < end ==> !IsSpaceAt(text, r)
    decreases end - start
  {
    if start < end && IsSpaceAt(text, start) then SkipLeading(text, start + 1, end) else start
  }

  /** Where the trailing-space loop stops. */
  function DropTrailing(text: seq<char>, start: nat, end: nat): (r: nat)
    ensures start <= end ==> start <= r <= end
    ensures start > end ==> r == end
    ensures forall k :: r <= k < end ==> IsSpaceAt(text, k)
    ensures r > start ==> !IsSpaceAt(text, r - 1)
    decreases end
  {
    if end > start && IsSpaceAt(text, end - 1) then DropTrailing(text, start, end - 1) else end
  }

  /** The selection handler's trimming: a collapsed selection is ignored;
      otherwise spaces are cut from both ends, and a selection of spaces only is
      ignored too. */
  method TrimSelection(text: seq<char>, start0: nat, end0: nat) returns (r: Option<Selection>)
    ensures r.None? <==> start0 == end0 || (start0 < end0 && forall k :: start0 <= k < end0 ==> IsSpaceAt(text, k))
    ensures r.Some? ==> r.value.start == SkipLeading(text, start0, end0) &&
                        r.value.end == DropTrailing(text, r.value.start, end0)
  {
    if start0 == end0 {
      return None;
    }
    var start: nat, end: nat := start0, end0;
    while start < end && IsSpaceAt(text, start)
      invariant start0 <= start && (start0 < end0 ==> start <= end)
      invariant SkipLeading(text, start0, end0) == SkipLeading(text, start, end)
      decreases end - start
    {
      start := start + 1;
    }
    assert start == SkipLeading(text, start0, end0);
    while end > start && IsSpaceAt(text, end - 1)
      invariant end <= end0 && (start <= end0 ==> start <= end)
      invariant DropTrailing(text, start, end0) == DropTrailing(text, start, end)
      decreases end
    {
      end := end - 1;
    }
    assert end == DropTrailing(text, start, end0);
    if start == end {
      AllSpaces(text, start0, end0);
      return None;
    }
    if start0 < end0 && forall k :: start0 <= k < end0 ==> IsSpaceAt(text, k) {
      AllSpaces(text, start0, end0);
    }
    return Some(Selection(start, end));
  }

  /** Trimming a non-collapsed selection leaves nothing exactly when it holds
      spaces only. */
  lemma AllSpaces(text: seq<char>, start: nat, end: nat)
    requires start < end
    ensures var s := SkipLeading(text, start, end);
            DropTrailing(text, s, end) == s <==> forall k :: start <= k < end ==> IsSpaceAt(text, k)
  {
  }

  /** Trimming is idempotent: a trimmed selection trims to itself. */
  lemma TrimIdempotent(text: seq<char>, start: nat, end: nat)
    requires start <= end
    ensures var s := SkipLeading(text, start, end);
            var e := DropTrailing(text, s, end);
            SkipLeading(text, s, e) == s && DropTrailing(text, s, e) == e
  {
  }

  /** Trimming removes only spaces: the trimmed text, with the cut spaces put
      back around it, is the selected text. */
  lemma TrimRemovesOnlySpaces(text: seq<char>, start: nat, end: nat)
    requires start <= end <= |text|
    ensures var s := SkipLeading(text, start, end);
            var e := DropTrailing(text, s, end);
            text[start..end] == Repeat(' ', s - start) + text[s..e] + Repeat(' ', end - e)
  {
    var s := SkipLeading(text, start, end);
    var e := DropTrailing(text, s, end);
    var rhs := Repeat(' ', s - start) + text[s..e] + Repeat(' ', end - e);
    assert |rhs| == end - start;
    forall k | 0 <= k < end - start
      ensures text[start..end][k] == rhs[k]
    {
      if k < s - start {
        RepeatAt(' ', s - start, k);
        assert IsSpaceAt(text, start + k);
      } else if k >= e - start {
        RepeatAt(' ', end - e, k - (e - start));
        assert IsSpaceAt(text, start + k);
      } else {
        assert rhs[k] == text[s..e][k - (s - start)];
      }
    }
  }

  lemma {:induction false} RepeatAt<T>(x: T, n: nat, k: nat)
    requires k < n
    ensures Repeat(x, n)[k] == x
    decreases n
  {
    if k < n - 1 {
      RepeatAt(x, n - 1, k);
    }
  }
}

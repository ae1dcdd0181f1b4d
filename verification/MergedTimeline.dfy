/** The merged timeline is ordered, disjoint and densely numbered. */
module MergedTimeline {
  import opened Prelude
  import opened Folding
  import opened Overlap
  import opened ChunkPlanner
  import opened Stitching
  import NoWordsLost
  import PlanGuarantees

  /** A segment that may stand at position `i`. */
  predicate WellPlaced(s: Segment, i: nat) {
    s.index == i && s.start < s.end && s.text != [] && Stripped(s.text)
  }

  /** Dense numbers, positive lengths, text in every segment, no two segments overlapping, and
      everything in [from, to]. */
  ghost predicate IsTimeline(t: seq<Segment>, from: real, to: real) {
    && (forall i :: 0 <= i < |t| ==> WellPlaced(t[i], i) && from <= t[i].start && t[i].end <= to)
    && (forall i, j :: 0 <= i < j < |t| ==> t[i].end <= t[j].start)
  }

  /** The provider's segments of one chunk do not overlap. */
  ghost predicate InOrder(segs: seq<ProviderSegment>) {
    forall i, j :: 0 <= i < j < |segs| ==> segs[i].end <= segs[j].start
  }

  /** Chunks as the planner makes them: each ends after the one before it. */
  ghost predicate ChunksAdvance(chunks: seq<Chunk>) {
    && (chunks != [] ==> 0.0 <= chunks[0].start < chunks[0].end)
    && forall i {:trigger Advances(chunks, i)} :: 0 < i < |chunks| ==> Advances(chunks, i)
  }

  predicate Advances(chunks: seq<Chunk>, i: int)
    requires 0 < i < |chunks|
  {
    chunks[i - 1].end < chunks[i].end
  }

  // ---------------------------------------------------------------------------------------------
  // One segment
  // ---------------------------------------------------------------------------------------------

  lemma ProductSign(a: real, b: real)
    requires b > 0.0
    ensures a > 0.0 ==> a * b > 0.0
    ensures a < 0.0 ==> a * b < 0.0
    ensures a == 0.0 ==> a * b == 0.0
  {
  }

  /** A fraction of a distance lies between nothing and the whole. */
  lemma FractionBounds(x: real, r: real, t: real, y: real)
    requires 0.0 < r <= t && y * t == x * r
    ensures x >= 0.0 ==> y >= 0.0
    ensures x < 0.0 ==> y >= x
  {
    ProductSign(x, r);
    ProductSign(y, t);
    ProductSign(x - y, t);
    assert (x - y) * t == x * t - x * r == x * (t - r);
    if t > r {
      ProductSign(x, t - r);
    }
  }

  lemma ProportionalBounds(start: real, end: real, removed: nat, total: nat)
    requires 0 < removed <= total
    ensures var p := Proportional(start, end, removed, total);
            (end >= start ==> start <= p) && (end < start ==> end <= p)
  {
    var z := (end - start) * removed as real;
    var y := z / total as real;
    assert Proportional(start, end, removed, total) == start + y;
    assert y * total as real == z;
    FractionBounds(end - start, removed as real, total as real, y);
  }

  /** A segment that is kept starts no earlier than the provider said, after the limit, and ends inside
      its chunk. */
  lemma {:induction false} PlaceKept(c: Chunk, limit: real, overlap: int, s: ProviderSegment)
    requires Keeps(Place(c, limit, overlap, s), limit)
    ensures var p := Place(c, limit, overlap, s);
            && limit <= p.start < p.end <= c.end
            && c.start + s.start <= p.start
            && p.end <= c.start + s.end
            && Stripped(p.text.text)
  {
    TrimLeadingFolds(Strip(s.text), overlap);
    ShiftedBounds(c.start + s.start, MinR(c.end, c.start + s.end), TrimLeading(Strip(s.text), overlap));
  }

  lemma ShiftedBounds(start: real, end: real, t: Trimmed)
    requires t.removed <= t.total
    ensures end > Shifted(start, end, t) ==> start <= Shifted(start, end, t)
  {
    if t.removed != 0 && t.total != 0 {
      ProportionalBounds(start, end, t.removed, t.total);
    }
  }

  lemma ProportionalBefore(start: real, end: real, removed: nat, total: nat)
    requires removed < total && start < end
    ensures Proportional(start, end, removed, total) < end
  {
    var left := total - removed;
    var x, r, l, t := end - start, removed as real, left as real, total as real;
    assert x * r + x * l == x * t;
    ProductSign(x, l);
    assert x * r / t < x by {
      var y := x * r / t;
      assert y * t == x * r;
      if y >= x {
        ProductSign(y - x, t);
      }
    }
  }

  /** `x` divides the way from `start` to `end` as `count` divides `total`. */
  predicate Divides(x: real, start: real, end: real, count: nat, total: nat) {
    (x - start) * total as real == (end - start) * count as real
  }

  lemma ProportionalDivides(start: real, end: real, removed: nat, total: nat)
    requires total > 0
    ensures Divides(Proportional(start, end, removed, total), start, end, removed, total)
  {
    var z := (end - start) * removed as real;
    assert Proportional(start, end, removed, total) - start == z / total as real;
  }

  /** A segment that loses some of its folded characters starts where their share of it ends, but not before
      the limit; a segment that is kept is appended with its next number, its times and its text. */
  lemma {:induction false} MovedExactly(c: Chunk, limit: real, done: Progress, s: ProviderSegment)
    ensures var p, after := Place(c, limit, done.remaining, s), AddSegment(c, limit, done, s);
            var x := Shifted(c.start + s.start, p.end, p.text);
            && p.start == (if x >= limit then x else limit)
            && p.end == (if c.start + s.end <= c.end then c.start + s.end else c.end)
            && p.text == TrimLeading(s.text, done.remaining)
            && (0 < done.remaining < |Fold(s.text)| ==>
                  p.text.removed == done.remaining
                  && Divides(x, c.start + s.start, p.end, done.remaining, |Fold(s.text)|))
            && after.remaining == done.remaining - p.text.removed
            && after.timeline == if Keeps(p, limit)
                                 then done.timeline + [Segment(|done.timeline|, p.start, p.end, p.text.text)]
                                 else done.timeline
  {
    var t := TrimLeading(Strip(s.text), done.remaining);
    TrimLeadingFolds(Strip(s.text), done.remaining);
    StripFacts(s.text);
    if 0 < done.remaining < t.total {
      ProportionalDivides(c.start + s.start, MinR(c.end, c.start + s.end), t.removed, t.total);
    }
  }

  /** No segment is lost: one that lies in its chunk is kept exactly when it goes on after the limit and
      some of its text is left; what is not cut away is kept as the provider gave it. */
  lemma {:induction false} KeptExactly(c: Chunk, limit: real, overlap: int, s: ProviderSegment)
    requires s.start < s.end && c.start + s.start < c.end
    ensures var p := Place(c, limit, overlap, s);
            && (Keeps(p, limit) <==> p.text.text != [] && limit < c.end && limit < c.start + s.end)
            && (overlap <= 0 ==>
                  p.text.text == Strip(s.text)
                  && p.start == MaxR(limit, c.start + s.start) && p.end == MinR(c.end, c.start + s.end))
  {
    var p := Place(c, limit, overlap, s);
    TrimLeadingFolds(Strip(s.text), overlap);
    StripFacts(s.text);
    StrippedUnchanged(Strip(s.text));
    if p.text.removed != 0 && p.text.removed < p.text.total {
      ProportionalBefore(c.start + s.start, p.end, p.text.removed, p.text.total);
    }
  }

  // ---------------------------------------------------------------------------------------------
  // One chunk
  // ---------------------------------------------------------------------------------------------

  /** The timeline after some segments of a chunk: what was there, then segments inside the chunk that
      end before any later provider segment starts. */
  ghost predicate Extends(before: seq<Segment>, t: seq<Segment>, c: Chunk, limit: real,
                          segs: seq<ProviderSegment>, n: nat)
    requires n <= |segs|
  {
    && |before| <= |t| && t[..|before|] == before
    && (forall i :: |before| <= i < |t| ==> limit <= t[i].start && t[i].end <= c.end)
    && (forall i, k :: |before| <= i < |t| && n <= k < |segs| ==> t[i].end <= c.start + segs[k].start)
  }

  lemma AppendToTimeline(t: seq<Segment>, from: real, to: real, start: real, end: real, text: Text)
    requires IsTimeline(t, from, to)
    requires from <= start < end && text != [] && Stripped(text)
    requires forall i :: 0 <= i < |t| ==> t[i].end <= start
    ensures IsTimeline(Append(t, start, end, text), from, MaxR(to, end))
  {
  }

  lemma TimelineWithin(t: seq<Segment>, from: real, to: real, to': real)
    requires IsTimeline(t, from, to)
    requires forall i :: 0 <= i < |t| ==> t[i].end <= to'
    ensures IsTimeline(t, from, to')
  {
  }

  lemma {:induction false} AddSegmentsOrdered(c: Chunk, limit: real, overlap: int, segs: seq<ProviderSegment>, n: nat,
                                              before: seq<Segment>)
    requires n <= |segs| && InOrder(segs)
    requires 0.0 <= limit <= c.end && IsTimeline(before, 0.0, limit)
    ensures var t := AddSegments(c, limit, overlap, segs, n, before).timeline;
            IsTimeline(t, 0.0, c.end) && Extends(before, t, c, limit, segs, n)
  {
    if n == 0 {
      TimelineWithin(before, 0.0, limit, c.end);
      assert before[..|before|] == before;
    } else {
      AddSegmentsOrdered(c, limit, overlap, segs, n - 1, before);
      var done := AddSegments(c, limit, overlap, segs, n - 1, before);
      var p := Place(c, limit, done.remaining, segs[n - 1]);
      if Keeps(p, limit) {
        PlaceKept(c, limit, done.remaining, segs[n - 1]);
        SegmentFits(c, limit, segs, n, before, done.timeline, p);
      }
    }
  }

  /** A kept segment goes after everything that is already there. */
  lemma SegmentFits(c: Chunk, limit: real, segs: seq<ProviderSegment>, n: nat, before: seq<Segment>,
                    t: seq<Segment>, p: Placed)
    requires 0 < n <= |segs| && InOrder(segs)
    requires IsTimeline(before, 0.0, limit) && IsTimeline(t, 0.0, c.end)
    requires Extends(before, t, c, limit, segs, n - 1)
    requires 0.0 <= limit <= p.start < p.end <= c.end
    requires c.start + segs[n - 1].start <= p.start && p.end <= c.start + segs[n - 1].end
    requires p.text.text != [] && Stripped(p.text.text)
    ensures var r := Append(t, p.start, p.end, p.text.text);
            IsTimeline(r, 0.0, c.end) && Extends(before, r, c, limit, segs, n)
  {
    forall i | 0 <= i < |t|
      ensures t[i].end <= p.start
    {
      if i < |before| {
        assert t[i] == before[i];
      }
    }
    AppendToTimeline(t, 0.0, c.end, p.start, p.end, p.text.text);
    var r := Append(t, p.start, p.end, p.text.text);
    assert r[..|before|] == before;
  }

  // ---------------------------------------------------------------------------------------------
  // All chunks
  // ---------------------------------------------------------------------------------------------

  ghost predicate ProvidersInOrder(results: seq<ChunkResult>) {
    forall i :: 0 <= i < |results| ==> InOrder(results[i].segments)
  }

  /** The segments that chunk `i` adds lie between the end of the chunk before it and its own end. */
  ghost predicate PlacedInChunk(before: seq<Segment>, after: seq<Segment>, chunks: seq<Chunk>, i: nat)
    requires i < |chunks|
  {
    && |before| <= |after| && after[..|before|] == before
    && forall k :: |before| <= k < |after| ==>
         NonOverlapStart(chunks, i) <= after[k].start && after[k].end <= chunks[i].end
  }

  /** Provider segments of one chunk on a timeline that ends before them. */
  lemma {:induction false} SegmentsPlaced(chunks: seq<Chunk>, i: nat, overlap: int, segs: seq<ProviderSegment>,
                                          before: seq<Segment>)
    requires i < |chunks| && InOrder(segs)
    requires 0.0 <= NonOverlapStart(chunks, i) < chunks[i].end
    requires IsTimeline(before, 0.0, NonOverlapStart(chunks, i))
    ensures var after := AddSegments(chunks[i], NonOverlapStart(chunks, i), overlap, segs, |segs|, before).timeline;
            IsTimeline(after, 0.0, chunks[i].end) && PlacedInChunk(before, after, chunks, i)
  {
    AddSegmentsOrdered(chunks[i], NonOverlapStart(chunks, i), overlap, segs, |segs|, before);
  }

  /** One segment in place of those a provider did not give. */
  lemma {:induction false} TextPlaced(chunks: seq<Chunk>, i: nat, text: Text, before: seq<Segment>)
    requires i < |chunks| && Stripped(text)
    requires 0.0 <= NonOverlapStart(chunks, i) < chunks[i].end
    requires IsTimeline(before, 0.0, NonOverlapStart(chunks, i))
    ensures IsTimeline(before, 0.0, chunks[i].end) && PlacedInChunk(before, before, chunks, i)
    ensures text != [] ==>
              var after := Append(before, NonOverlapStart(chunks, i), chunks[i].end, text);
              IsTimeline(after, 0.0, chunks[i].end) && PlacedInChunk(before, after, chunks, i)
  {
    var limit := NonOverlapStart(chunks, i);
    TimelineWithin(before, 0.0, limit, chunks[i].end);
    assert before[..|before|] == before;
    if text != [] {
      AppendToTimeline(before, 0.0, limit, limit, chunks[i].end, text);
      assert Append(before, limit, chunks[i].end, text)[..|before|] == before;
    }
  }

  lemma {:induction false} ChunkPlaced(chunks: seq<Chunk>, results: seq<ChunkResult>, policy: Policy, i: nat, n: nat)
    requires i < n == i + 1 <= |chunks| == |results| && ChunksAdvance(chunks) && ProvidersInOrder(results)
    requires 0.0 <= NonOverlapStart(chunks, i) < chunks[i].end
    requires IsTimeline(Timeline(chunks, results, policy, i), 0.0, NonOverlapStart(chunks, i))
    ensures IsTimeline(Timeline(chunks, results, policy, n), 0.0, chunks[i].end)
    ensures PlacedInChunk(Timeline(chunks, results, policy, i), Timeline(chunks, results, policy, n), chunks, i)
  {
    var before := Timeline(chunks, results, policy, i);
    var st, result := Stitch(results, i), results[i];
    NoWordsLost.ContextIsSuffix(results, i);
    NoWordsLost.ContributionFolds(st, result.fullText);
    TextPlaced(chunks, i, Contribution(st, result.fullText).text, before);
    if result.segments != [] {
      var overlap := OverlapCharacters(chunks, i, st.context, result.segments);
      SegmentsPlaced(chunks, i, overlap, result.segments, before);
    }
    assert Timeline(chunks, results, policy, n) == AddChunk(chunks, i, st, result, policy, before);
  }

  /** After each chunk the timeline ends by the end of that chunk. */
  lemma {:induction false} TimelineUpTo(chunks: seq<Chunk>, results: seq<ChunkResult>, policy: Policy, n: nat)
    requires n < |chunks| == |results| && ChunksAdvance(chunks) && ProvidersInOrder(results)
    ensures 0.0 <= NonOverlapStart(chunks, n) < chunks[n].end
    ensures IsTimeline(Timeline(chunks, results, policy, n), 0.0, NonOverlapStart(chunks, n))
  {
    if n > 0 {
      TimelineUpTo(chunks, results, policy, n - 1);
      ChunkPlaced(chunks, results, policy, n - 1, n);
      assert Advances(chunks, n);
    }
  }

  /** Every segment of chunk `i` lies in [end of chunk i-1, end of chunk i], and the whole timeline is
      ordered, disjoint, positive and densely numbered. */
  lemma {:induction false} MergedInOrder(chunks: seq<Chunk>, results: seq<ChunkResult>, policy: Policy)
    requires chunks != [] && |chunks| == |results| && ChunksAdvance(chunks) && ProvidersInOrder(results)
    ensures IsTimeline(Timeline(chunks, results, policy, |chunks|), 0.0, chunks[|chunks| - 1].end)
    ensures forall i: nat :: i < |chunks| ==>
              PlacedInChunk(Timeline(chunks, results, policy, i), Timeline(chunks, results, policy, i + 1), chunks, i)
  {
    forall i: nat | i < |chunks|
      ensures PlacedInChunk(Timeline(chunks, results, policy, i), Timeline(chunks, results, policy, i + 1), chunks, i)
    {
      TimelineUpTo(chunks, results, policy, i);
      ChunkPlaced(chunks, results, policy, i, i + 1);
    }
    TimelineUpTo(chunks, results, policy, |chunks| - 1);
    ChunkPlaced(chunks, results, policy, |chunks| - 1, |chunks|);
  }

  /** Planned chunks advance. */
  lemma PlannedChunksAdvance(q: Request, plan: seq<Chunk>)
    requires q.Configured() && q.duration > 0.0 && q.IsPlan(plan)
    ensures ChunksAdvance(plan) && plan != [] && plan[|plan| - 1].end == q.duration
  {
    if q.duration <= q.maximum {
      PlanGuarantees.ShortAudioUncut(q, plan);
    } else {
      PlanGuarantees.PlanShape(q, plan);
      assert PlanGuarantees.Long(q, plan[0]);
    }
  }
}

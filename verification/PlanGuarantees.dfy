/** What every plan guarantees, from the local rules of its cuts. */
module PlanGuarantees {
  import opened Prelude
  import opened ChunkPlanner

  ghost predicate Long(q: Request, c: Chunk) {
    0.0 <= c.start && q.maximum / 2.0 <= c.end - c.start <= q.maximum
  }

  lemma {:induction false} StartsReach(q: Request, plan: seq<Chunk>, i: nat)
    requires q.Configured() && q.duration > q.maximum && q.IsPlan(plan)
    requires i < |plan|
    ensures Reach(q.maximum / 2.0 - q.overlap, i) <= plan[i].start
    ensures plan[i].start <= q.duration - q.maximum / 2.0
    ensures 0.0 <= plan[i].start
  {
    if i > 0 {
      assert q.Link(plan, i - 1);
      StartsReach(q, plan, i - 1);
      CutBounds(q, plan[i - 1]);
    }
  }

  /** The plan covers the audio from 0 to the end, consecutive chunks overlap by exactly the
      configured amount, ends increase, and no chunk is longer than the maximum or shorter than half
      of it, the last one included. */
  lemma PlanShape(q: Request, plan: seq<Chunk>)
    requires q.Configured() && q.duration > q.maximum && q.IsPlan(plan)
    ensures |plan| >= 2
    ensures plan[0].start == 0.0 && plan[|plan| - 1].end == q.duration
    ensures forall i :: 0 <= i < |plan| ==> Long(q, plan[i])
    ensures forall i :: 0 < i < |plan| ==>
              plan[i].start == plan[i - 1].end - q.overlap && plan[i - 1].end < plan[i].end
  {
    forall i | 0 <= i < |plan|
      ensures Long(q, plan[i])
    {
      StartsReach(q, plan, i);
      if i < |plan| - 1 {
        assert q.Link(plan, i);
        CutBounds(q, plan[i]);
      }
    }
    forall i | 0 < i < |plan|
      ensures plan[i].start == plan[i - 1].end - q.overlap && plan[i - 1].end < plan[i].end
    {
      assert q.Link(plan, i - 1);
      assert Long(q, plan[i]);
    }
  }

  /** Audio that fits in one request is not cut. */
  lemma ShortAudioUncut(q: Request, plan: seq<Chunk>)
    requires q.duration <= q.maximum && q.IsPlan(plan)
    ensures plan == [Chunk(0.0, q.duration, Final)]
  {
    assert |plan| > 1 ==> q.Link(plan, 0);
  }

  lemma LastCutInReach(q: Request, plan: seq<Chunk>)
    requires q.Configured() && q.duration > q.maximum && q.IsPlan(plan)
    ensures |plan| >= 2
    ensures Reach(q.maximum / 2.0 - q.overlap, |plan| - 2) < q.duration - q.maximum
  {
    PlanShape(q, plan);
    assert q.Link(plan, |plan| - 2);
    StartsReach(q, plan, |plan| - 2);
  }

  /** Fewer than 2 + (duration - M) / (M/2 - o) chunks. */
  lemma ChunkCount(q: Request, plan: seq<Chunk>)
    requires q.Configured() && q.duration > q.maximum && q.IsPlan(plan)
    ensures (|plan| - 2) as real * (q.maximum / 2.0 - q.overlap) < q.duration - q.maximum
  {
    LastCutInReach(q, plan);
    ReachIsProduct(q.maximum / 2.0 - q.overlap, |plan| - 2);
  }

  /** A cut moved because of a short tail is the last cut. Without a usable silence it splits what is
      left into two chunks of the same length, within the limits the code clamps to. */
  lemma TailClosesPlan(q: Request, plan: seq<Chunk>, i: int)
    requires q.Configured() && q.duration > q.maximum && q.IsPlan(plan)
    requires 0 <= i < |plan| - 1 && q.Tailed(plan[i].start)
    ensures i == |plan| - 2
    ensures plan[i].cut == Hard ==>
              var left := q.duration - plan[i].start;
              && plan[i].end - plan[i].start == (left + q.overlap) / 2.0
              && plan[i + 1].end - plan[i + 1].start == (left + q.overlap) / 2.0
              && plan[i].start + q.maximum / 2.0 < plan[i].end < plan[i].start + q.maximum
  {
    PlanShape(q, plan);
    StartsReach(q, plan, i);
    assert q.Link(plan, i);
    CutBounds(q, plan[i]);
    assert i + 1 < |plan| - 1 ==> q.Link(plan, i + 1);
    var end, cut :| q.NaturalCut(plan[i].start, end, cut) && q.ShortTail(end);
  }

  lemma CutUnique(q: Request, c: Chunk, c': Chunk)
    requires c.start == c'.start && q.IsCut(c) && q.IsCut(c')
    ensures c == c'
  {
    if q.Tailed(c.start) {
      var lo, hi := c.start + q.maximum / 2.0, MinR(c.start + q.maximum, q.duration + q.overlap - q.maximum / 2.0);
      if q.LatestCut(c.end, c.cut, lo, hi) && q.LatestCut(c'.end, c'.cut, lo, hi) {
        LatestCutUnique(q, c.end, c.cut, c'.end, c'.cut, lo, hi);
      }
    } else {
      NaturalCutUnique(q, c.start, c.end, c.cut, c'.end, c'.cut);
    }
  }

  lemma {:induction false} SameChunks(q: Request, plan: seq<Chunk>, other: seq<Chunk>, n: nat)
    requires q.IsPlan(plan) && q.IsPlan(other)
    requires n < |plan| && n < |other|
    ensures plan[..n] == other[..n] && plan[n].start == other[n].start
  {
    if n > 0 {
      SameChunks(q, plan, other, n - 1);
      assert q.Link(plan, n - 1) && q.Link(other, n - 1);
      CutUnique(q, plan[n - 1], other[n - 1]);
      assert plan[..n] == plan[..n - 1] + [plan[n - 1]];
      assert other[..n] == other[..n - 1] + [other[n - 1]];
    }
  }

  lemma NotShorter(q: Request, plan: seq<Chunk>, other: seq<Chunk>)
    requires q.IsPlan(plan) && q.IsPlan(other) && |plan| <= |other|
    ensures plan == other
  {
    var n := |plan| - 1;
    SameChunks(q, plan, other, n);
    assert n < |other| - 1 ==> q.Link(other, n);
    assert plan == plan[..n] + [plan[n]];
    assert other[..n + 1] == other[..n] + [other[n]];
  }

  /** The rules leave no choice: a request has exactly one plan. */
  lemma PlanUnique(q: Request, plan: seq<Chunk>, other: seq<Chunk>)
    requires q.IsPlan(plan) && q.IsPlan(other)
    ensures plan == other
  {
    if |plan| <= |other| {
      NotShorter(q, plan, other);
    } else {
      NotShorter(q, other, plan);
    }
  }

  /** Cuts in silence carry the midpoint and the length of one of the given silences, as far as it lies
      inside the audio; the hard cuts are those where no such midpoint is in reach or, for a short tail,
      none that leaves half a chunk. */
  lemma CutKinds(q: Request, plan: seq<Chunk>, i: int)
    requires q.Configured() && q.duration > q.maximum && q.IsPlan(plan)
    requires 0 <= i < |plan| - 1
    ensures plan[i].cut.Vad? ==>
              exists k :: 0 <= k < |q.silences|
                          && q.Clipped(q.silences[k]) == Some(Point(plan[i].end, plan[i].cut.silence))
    ensures plan[i].cut == Hard ==>
              forall k :: 0 <= k < |q.silences| && q.Clipped(q.silences[k]).Some? ==>
                var mid := q.Clipped(q.silences[k]).value.at;
                plan[i].start + q.maximum / 2.0 <= mid <= plan[i].start + q.maximum ==>
                  q.Tailed(plan[i].start) && q.duration - (mid - q.overlap) < q.maximum / 2.0
    ensures plan[i].cut != Final
  {
    var c := plan[i];
    assert q.Link(plan, i);
    if c.cut == Hard {
      forall k | 0 <= k < |q.silences| && q.Clipped(q.silences[k]).Some?
        ensures var mid := q.Clipped(q.silences[k]).value.at;
                c.start + q.maximum / 2.0 <= mid <= c.start + q.maximum ==>
                  q.Tailed(c.start) && q.duration - (mid - q.overlap) < q.maximum / 2.0
      {
        var p := q.Clipped(q.silences[k]).value;
        assert q.IsPoint(p);
        assert q.Between(p, p.at, p.at);
        if !q.Tailed(c.start) {
          assert !q.Between(p, c.start + q.maximum / 2.0, c.start + q.maximum);
        } else {
          assert !q.Between(p, c.start + q.maximum / 2.0,
                            MinR(c.start + q.maximum, q.duration + q.overlap - q.maximum / 2.0));
        }
      }
    } else {
      assert q.IsPoint(Point(c.end, c.cut.silence));
    }
  }

  // ---------------------------------------------------------------------------------------------
  // Every cut in numbers
  // ---------------------------------------------------------------------------------------------

  /** What counts of a silence is its part inside the audio: the point stands in its middle and carries its
      length, and there is none when no instant is inside both. */
  lemma ClippedIsInside(q: Request, s: Interval, t: real)
    ensures var c := q.Clipped(s);
            0.0 < t < q.duration && s.start < t < s.end <==>
            c.Some? && c.value.at - c.value.length / 2.0 < t < c.value.at + c.value.length / 2.0
    ensures q.Clipped(s).Some? ==> q.Clipped(s).value.length > 0.0
  {
  }

  /** Silence `k` has its midpoint between half a chunk and a whole chunk after `start`, and leaves at least
      half a chunk behind it. */
  ghost predicate Usable(q: Request, start: real, k: int) {
    && 0 <= k < |q.silences| && q.Clipped(q.silences[k]).Some?
    && var mid := q.Clipped(q.silences[k]).value.at;
    && start + q.maximum / 2.0 <= mid <= start + q.maximum
    && q.duration - (mid - q.overlap) >= q.maximum / 2.0
  }

  /** A chunk is the last one exactly when what is left fits in it. */
  lemma LastExactly(q: Request, plan: seq<Chunk>, i: int)
    requires q.Configured() && q.IsPlan(plan) && 0 <= i < |plan|
    ensures i == |plan| - 1 <==> q.duration - plan[i].start <= q.maximum
  {
    assert i < |plan| - 1 ==> q.Link(plan, i);
  }

  /** Every other cut is decided: it is the midpoint of the latest usable silence, with the length of the
      longest silence there; without one it is the longest chunk, or the middle of what is left when that
      would leave too little. */
  lemma CutsDecided(q: Request, plan: seq<Chunk>, i: int)
    requires q.Configured() && q.duration > q.maximum && q.IsPlan(plan) && 0 <= i < |plan| - 1
    ensures plan[i].cut.Vad? <==> exists k :: Usable(q, plan[i].start, k)
    ensures plan[i].cut.Vad? ==>
              && (exists k :: Usable(q, plan[i].start, k)
                              && q.Clipped(q.silences[k]) == Some(Point(plan[i].end, plan[i].cut.silence)))
              && (forall k :: Usable(q, plan[i].start, k) ==>
                    var p := q.Clipped(q.silences[k]).value;
                    p.at < plan[i].end || (p.at == plan[i].end && p.length <= plan[i].cut.silence))
    ensures !plan[i].cut.Vad? ==>
              && plan[i].cut == Hard
              && plan[i].end == if q.duration - (plan[i].start + q.maximum - q.overlap) >= q.maximum / 2.0
                                then plan[i].start + q.maximum
                                else plan[i].start + (q.duration - plan[i].start + q.overlap) / 2.0
  {
    var c := plan[i];
    assert q.Link(plan, i);
    CutBounds(q, c);
    var lo := c.start + q.maximum / 2.0;
    var hi := MinR(c.start + q.maximum, q.duration + q.overlap - q.maximum / 2.0);
    LatestUsable(q, c, lo, hi);
  }

  lemma LatestUsable(q: Request, c: Chunk, lo: real, hi: real)
    requires q.Configured() && c.start + q.maximum < q.duration && q.IsCut(c)
    requires lo == c.start + q.maximum / 2.0
    requires hi == MinR(c.start + q.maximum, q.duration + q.overlap - q.maximum / 2.0)
    ensures forall k :: Usable(q, c.start, k) ==> q.Between(q.Clipped(q.silences[k]).value, lo, hi)
    ensures forall p :: q.Between(p, lo, hi) ==>
              exists k :: Usable(q, c.start, k) && q.Clipped(q.silences[k]) == Some(p)
    ensures q.LatestCut(c.end, c.cut, lo, hi) || (c.cut == Hard && q.NoneBetween(lo, hi))
    ensures c.cut == Hard ==>
              c.end == if q.duration - (c.start + q.maximum - q.overlap) >= q.maximum / 2.0
                       then c.start + q.maximum
                       else c.start + (q.duration - c.start + q.overlap) / 2.0
  {
    forall p | q.Between(p, lo, hi)
      ensures exists k :: Usable(q, c.start, k) && q.Clipped(q.silences[k]) == Some(p)
    {
      var k :| 0 <= k < |q.silences| && q.Clipped(q.silences[k]) == Some(p);
      assert Usable(q, c.start, k);
    }
    CutBounds(q, c);
    if q.Tailed(c.start) {
      var end, cut :| q.NaturalCut(c.start, end, cut) && q.ShortTail(end);
      assert end <= c.start + q.maximum;
    } else {
      assert forall p :: q.Between(p, lo, hi) ==> q.Between(p, lo, c.start + q.maximum);
      assert !q.ShortTail(c.end);
    }
  }

  /** Behind a cut in silence no later silence is in reach: none at all when the cut was not moved for a
      short tail, and otherwise none that leaves half a chunk. */
  lemma NoLaterSilence(q: Request, plan: seq<Chunk>, i: int, k: int)
    requires q.Configured() && q.duration > q.maximum && q.IsPlan(plan) && 0 <= i < |plan| - 1
    requires plan[i].cut.Vad? && 0 <= k < |q.silences| && q.Clipped(q.silences[k]).Some?
    ensures var mid := q.Clipped(q.silences[k]).value.at;
            && (!q.Tailed(plan[i].start) ==> !(plan[i].end < mid <= plan[i].start + q.maximum))
            && !(plan[i].end < mid
                 && mid <= MinR(plan[i].start + q.maximum, q.duration + q.overlap - q.maximum / 2.0))
            && (mid == plan[i].end ==> q.Clipped(q.silences[k]).value.length <= plan[i].cut.silence)
  {
    var p := q.Clipped(q.silences[k]).value;
    assert q.Link(plan, i);
    CutBounds(q, plan[i]);
    CutsDecided(q, plan, i);
    assert q.IsPoint(p);
    if !q.Tailed(plan[i].start) {
      var lo, hi := plan[i].start + q.maximum / 2.0, plan[i].start + q.maximum;
      assert q.LatestCut(plan[i].end, plan[i].cut, lo, hi);
      assert lo <= p.at <= hi ==> q.Between(p, lo, hi);
    }
    var hi := MinR(plan[i].start + q.maximum, q.duration + q.overlap - q.maximum / 2.0);
    assert plan[i].end <= p.at <= hi ==> Usable(q, plan[i].start, k);
  }
}

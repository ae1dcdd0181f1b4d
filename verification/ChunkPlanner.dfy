/** Greedy planning of overlapping chunks, with a preference for cuts in silence. */
module ChunkPlanner {
  import opened Prelude

  datatype Cut = Final | Hard | Vad(silence: real)

  datatype Chunk = Chunk(start: real, end: real, cut: Cut)

  /** The midpoint of a silence, with the length of that silence. */
  datatype Point = Point(at: real, length: real)

  predicate NotAfter(p: Point, q: Point) {
    p.at < q.at || (p.at == q.at && p.length <= q.length)
  }

  /** A planning request; the settings are limited as the task configuration limits them. */
  datatype Request = Request(duration: real, maximum: real, overlap: real, silences: seq<Interval>) {

    predicate Configured() {
      5.0 <= maximum <= 600.0 && 0.0 <= overlap <= 10.0 && overlap < maximum / 2.0
    }

    function MinimumAdvance(): real {
      MaxR(1.0, maximum * 0.5)
    }

    /** The part of a silence that lies in the audio, as a possible cut. */
    function Clipped(s: Interval): Option<Point> {
      var start, end := MaxR(0.0, s.start), MinR(duration, s.end);
      if start < end && end > 0.0 && start < duration
      then Some(Point((start + end) / 2.0, end - start))
      else None
    }

    function Points(n: nat): (r: seq<Point>)
      requires n <= |silences|
      ensures forall p :: p in r <==> exists i :: 0 <= i < n && Clipped(silences[i]) == Some(p)
    {
      if n == 0 then [] else
      var c := Clipped(silences[n - 1]);
      Points(n - 1) + if c.Some? then [c.value] else []
    }

    // -------------------------------------------------------------------------------------------
    // What a plan is, stated without lists of candidates
    // -------------------------------------------------------------------------------------------

    ghost predicate IsPoint(p: Point) {
      exists i :: 0 <= i < |silences| && Clipped(silences[i]) == Some(p)
    }

    ghost predicate Between(p: Point, lo: real, hi: real) {
      IsPoint(p) && lo <= p.at <= hi
    }

    /** The latest silence midpoint in the window, the longest silence if several share it. */
    ghost predicate Latest(p: Point, lo: real, hi: real) {
      Between(p, lo, hi) && forall q :: Between(q, lo, hi) ==> NotAfter(q, p)
    }

    ghost predicate LatestCut(end: real, cut: Cut, lo: real, hi: real) {
      cut.Vad? && Latest(Point(end, cut.silence), lo, hi)
    }

    ghost predicate NoneBetween(lo: real, hi: real) {
      forall q :: !Between(q, lo, hi)
    }

    /** A cut at `end` leaves less than half a chunk for the last one. */
    predicate ShortTail(end: real) {
      duration - (end - overlap) < maximum / 2.0
    }

    /** The cut that looks only at the current chunk. */
    ghost predicate NaturalCut(start: real, end: real, cut: Cut) {
      var lo, hi := start + maximum / 2.0, start + maximum;
      LatestCut(end, cut, lo, hi) || (cut == Hard && end == hi && NoneBetween(lo, hi))
    }

    /** The cut that replaces it when the tail would be short. */
    ghost predicate TailCut(start: real, end: real, cut: Cut) {
      var lo, hi := start + maximum / 2.0, MinR(start + maximum, duration + overlap - maximum / 2.0);
      || LatestCut(end, cut, lo, hi)
      || (cut == Hard && end == (start + duration + overlap) / 2.0 && NoneBetween(lo, hi))
    }

    ghost predicate Tailed(start: real) {
      exists end, cut :: NaturalCut(start, end, cut) && ShortTail(end)
    }

    ghost predicate IsCut(c: Chunk) {
      if Tailed(c.start) then TailCut(c.start, c.end, c.cut) else NaturalCut(c.start, c.end, c.cut)
    }

    /** Chunk `i` is cut before the audio ends, and the next chunk starts one overlap earlier. */
    ghost predicate Link(plan: seq<Chunk>, i: int)
      requires 0 <= i < |plan| - 1
    {
      && plan[i].start + maximum < duration
      && IsCut(plan[i])
      && plan[i + 1].start == plan[i].end - overlap
    }

    /** A plan whose next chunk, not yet made, starts at `next`. */
    ghost predicate IsPartialPlan(plan: seq<Chunk>, next: real) {
      && (plan == [] ==> next == 0.0)
      && (plan != [] ==> plan[0].start == 0.0)
      && (forall i {:trigger Link(plan, i)} :: 0 <= i < |plan| - 1 ==> Link(plan, i))
      && (plan != [] ==>
            var last := plan[|plan| - 1];
            last.start + maximum < duration && IsCut(last) && next == last.end - overlap)
    }

    ghost predicate IsPlan(plan: seq<Chunk>) {
      && plan != []
      && plan[0].start == 0.0
      && (forall i {:trigger Link(plan, i)} :: 0 <= i < |plan| - 1 ==> Link(plan, i))
      && plan[|plan| - 1] == Chunk(plan[|plan| - 1].start, duration, Final)
      && plan[|plan| - 1].start + maximum >= duration
    }
  }

  // -----------------------------------------------------------------------------------------------
  // The planner
  // -----------------------------------------------------------------------------------------------

  predicate Sorted(s: seq<Point>) {
    forall i, j :: 0 <= i < j < |s| ==> NotAfter(s[i], s[j])
  }

  function Insert(p: Point, s: seq<Point>): (r: seq<Point>)
    ensures forall q :: q in r <==> q == p || q in s
    ensures Sorted(s) ==> Sorted(r)
  {
    if s == [] || NotAfter(p, s[0]) then [p] + s else
    var rest := Insert(p, s[1..]);
    assert forall i :: 0 <= i < |rest| ==> rest[i] in rest;
    [s[0]] + rest
  }

  function Sort(s: seq<Point>): (r: seq<Point>)
    ensures forall q :: q in r <==> q in s
    ensures Sorted(r)
  {
    if s == [] then [] else
    assert s == [s[0]] + s[1..];
    Insert(s[0], Sort(s[1..]))
  }

  /** The candidates for which `keep` holds, in order. */
  function Filter(s: seq<Point>, keep: Point -> bool): (r: seq<Point>)
    ensures forall q :: q in r <==> q in s && keep(q)
    ensures Sorted(s) ==> Sorted(r)
  {
    if s == [] then [] else
    assert s == [s[0]] + s[1..];
    var rest := Filter(s[1..], keep);
    assert forall i :: 0 <= i < |rest| ==> rest[i] in s[1..];
    if keep(s[0]) then [s[0]] + rest else rest
  }

  /** The cut that keeps the last chunk from being short. */
  method AvoidShortTail(q: Request, eligible: seq<Point>, start: real) returns (selected: Option<Point>, end: real)
    requires q.Configured() && 0.0 <= start && start + q.maximum < q.duration
    requires q.duration + q.overlap - start < q.maximum * 1.5
    requires Sorted(eligible)
    requires forall p :: p in eligible <==> q.Between(p, start + q.maximum / 2.0, start + q.maximum)
    ensures selected.Some? ==> selected.value.at == end
    ensures q.TailCut(start, end, CutChunk(start, end, selected).cut)
  {
    var minimumAdvance := q.MinimumAdvance();
    var safe := Filter(eligible, (p: Point) => q.duration - MaxR(0.0, p.at - q.overlap) >= minimumAdvance);
    LastIsLatest(q, safe, start + q.maximum / 2.0,
                 MinR(start + q.maximum, q.duration + q.overlap - q.maximum / 2.0));
    if safe != [] {
      selected := Some(safe[|safe| - 1]);
      end := selected.value.at;
    } else {
      selected := None;
      var balancedEnd := (start + q.duration + q.overlap) / 2.0;
      end := MinR(start + q.maximum, MaxR(start + minimumAdvance, balancedEnd));
    }
  }

  /** Where to cut the chunk that starts at `start`, when more than one chunk of audio is left. */
  method ChooseCut(q: Request, points: seq<Point>, start: real) returns (chunk: Chunk)
    requires q.Configured() && 0.0 <= start && start + q.maximum < q.duration
    requires Sorted(points) && forall p :: p in points <==> q.IsPoint(p)
    ensures chunk.start == start && q.IsCut(chunk)
  {
    var minimumAdvance := q.MinimumAdvance();
    var hardEnd := start + q.maximum;
    var eligible := Filter(points, (p: Point) => start + minimumAdvance <= p.at <= hardEnd);
    var selected: Option<Point> := if eligible != [] then Some(eligible[|eligible| - 1]) else None;
    var end := if selected.Some? then selected.value.at else hardEnd;
    ghost var natural := CutChunk(start, end, selected);
    LastIsLatest(q, eligible, start + q.maximum / 2.0, start + q.maximum);
    assert q.NaturalCut(start, natural.end, natural.cut);

    var tailDuration := q.duration - MaxR(0.0, end - q.overlap);
    if tailDuration < minimumAdvance {
      selected, end := AvoidShortTail(q, eligible, start);
    }
    chunk := CutChunk(start, end, selected);
    CutDecided(q, natural, chunk);
  }

  function CutChunk(start: real, end: real, selected: Option<Point>): Chunk {
    Chunk(start, end, if selected.Some? then Vad(selected.value.length) else Hard)
  }

  method PlanAudioChunks(q: Request) returns (plan: seq<Chunk>)
    requires q.Configured()
    ensures q.IsPlan(plan)
  {
    if q.duration <= q.maximum {
      return [Chunk(0.0, q.duration, Final)];
    }
    var points := Sort(q.Points(|q.silences|));
    plan := [];
    var start := 0.0;
    ghost var advances := EnoughAdvances(q.duration, q.maximum / 2.0 - q.overlap);
    while start < q.duration
      invariant 0.0 <= start < q.duration
      invariant q.IsPartialPlan(plan, start)
      invariant q.duration - start <= Reach(q.maximum / 2.0 - q.overlap, advances)
      decreases advances
    {
      var hardEnd := MinR(q.duration, start + q.maximum);
      if hardEnd >= q.duration {
        FinishPlan(q, plan, start);
        plan := plan + [Chunk(start, q.duration, Final)];
        return;
      }
      var chunk := ChooseCut(q, points, start);
      CutBounds(q, chunk);
      var nextStart := MaxR(0.0, chunk.end - q.overlap);
      if nextStart <= start {
        nextStart := chunk.end;
      }
      ExtendPlan(q, plan, chunk, nextStart);
      plan := plan + [chunk];
      start := nextStart;
      advances := advances - 1;
    }
  }

  lemma ExtendPlan(q: Request, plan: seq<Chunk>, c: Chunk, next: real)
    requires q.IsPartialPlan(plan, c.start)
    requires c.start + q.maximum < q.duration && q.IsCut(c) && next == c.end - q.overlap
    ensures q.IsPartialPlan(plan + [c], next)
  {
    KeepsLinks(q, plan, c);
  }

  lemma KeepsLinks(q: Request, plan: seq<Chunk>, c: Chunk)
    requires q.IsPartialPlan(plan, c.start)
    ensures forall i {:trigger q.Link(plan + [c], i)} :: 0 <= i < |plan| ==> q.Link(plan + [c], i)
  {
    forall i | 0 <= i < |plan|
      ensures q.Link(plan + [c], i)
    {
      if i < |plan| - 1 {
        assert q.Link(plan, i);
      }
    }
  }

  lemma FinishPlan(q: Request, plan: seq<Chunk>, start: real)
    requires q.IsPartialPlan(plan, start) && start + q.maximum >= q.duration
    ensures q.IsPlan(plan + [Chunk(start, q.duration, Final)])
  {
    KeepsLinks(q, plan, Chunk(start, q.duration, Final));
  }

  /** How far `n` advances of one step reach; the termination measure counts advances. */
  ghost function Reach(step: real, n: nat): real {
    if n == 0 then 0.0 else step + Reach(step, n - 1)
  }

  lemma {:induction false} ReachIsProduct(step: real, n: nat)
    ensures Reach(step, n) == n as real * step
  {
    if n > 0 {
      ReachIsProduct(step, n - 1);
    }
  }

  lemma NonNegative(a: real, b: real)
    requires a >= 0.0 && b >= 0.0
    ensures a * b >= 0.0
  {
  }

  lemma EnoughAdvances(length: real, step: real) returns (n: nat)
    requires length > 0.0 && step > 0.0
    ensures length <= Reach(step, n)
  {
    var x := length / step;
    assert x * step == length;
    if x < 0.0 {
      NonNegative(-x, step);
    }
    n := x.Floor + 1;
    ReachIsProduct(step, n);
    NonNegative(n as real - x, step);
  }

  /** The last candidate in order is the latest silence of the window the candidates were taken from. */
  lemma LastIsLatest(q: Request, candidates: seq<Point>, lo: real, hi: real)
    requires Sorted(candidates)
    requires forall p :: p in candidates <==> q.Between(p, lo, hi)
    ensures candidates == [] <==> q.NoneBetween(lo, hi)
    ensures candidates != [] ==> q.Latest(candidates[|candidates| - 1], lo, hi)
  {
    if candidates != [] {
      var last := candidates[|candidates| - 1];
      assert last in candidates;
      forall p | q.Between(p, lo, hi)
        ensures NotAfter(p, last)
      {
        var i :| 0 <= i < |candidates| && candidates[i] == p;
      }
    }
  }

  lemma LatestCutUnique(q: Request, e: real, c: Cut, e': real, c': Cut, lo: real, hi: real)
    requires q.LatestCut(e, c, lo, hi) && q.LatestCut(e', c', lo, hi)
    ensures e == e' && c == c'
  {
    assert NotAfter(Point(e, c.silence), Point(e', c'.silence));
    assert NotAfter(Point(e', c'.silence), Point(e, c.silence));
  }

  lemma NaturalCutUnique(q: Request, start: real, e: real, c: Cut, e': real, c': Cut)
    requires q.NaturalCut(start, e, c) && q.NaturalCut(start, e', c')
    ensures e == e' && c == c'
  {
    var lo, hi := start + q.maximum / 2.0, start + q.maximum;
    if q.LatestCut(e, c, lo, hi) && q.LatestCut(e', c', lo, hi) {
      LatestCutUnique(q, e, c, e', c', lo, hi);
    }
  }

  lemma CutDecided(q: Request, natural: Chunk, c: Chunk)
    requires natural.start == c.start
    requires q.NaturalCut(c.start, natural.end, natural.cut)
    requires if q.ShortTail(natural.end) then q.TailCut(c.start, c.end, c.cut) else c == natural
    ensures q.IsCut(c)
    ensures q.Tailed(c.start) <==> q.ShortTail(natural.end)
  {
    if q.Tailed(c.start) {
      var end, cut :| q.NaturalCut(c.start, end, cut) && q.ShortTail(end);
      NaturalCutUnique(q, c.start, end, cut, natural.end, natural.cut);
    }
  }

  /** Every cut keeps both this chunk and what is left at least half a chunk long. */
  lemma CutBounds(q: Request, c: Chunk)
    requires q.Configured() && c.start + q.maximum < q.duration && q.IsCut(c)
    ensures c.start + q.maximum / 2.0 <= c.end <= c.start + q.maximum
    ensures q.duration - (c.end - q.overlap) >= q.maximum / 2.0
    ensures q.Tailed(c.start) ==> c.end - q.overlap + q.maximum >= q.duration
  {
    if q.Tailed(c.start) {
      var end, cut :| q.NaturalCut(c.start, end, cut) && q.ShortTail(end);
    } else {
      assert q.NaturalCut(c.start, c.end, c.cut);
    }
  }
}

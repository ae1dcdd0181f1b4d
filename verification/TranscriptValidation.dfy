/** The independent check of a stored timeline, and why a planned and merged one passes it. */
module TranscriptValidation {
  import opened Prelude
  import opened Folding
  import opened ChunkPlanner
  import opened Stitching
  import opened MergedTimeline

  datatype Code = Reversed | OutOfBounds | Overlapped | Empty

  datatype Severity = Error | Warning

  /** A finding about the segment with this number. */
  datatype Finding = Finding(code: Code, severity: Severity, index: nat)

  const TOLERANCE := 0.05

  function Report(findings: seq<Finding>, broken: bool, f: Finding): (r: seq<Finding>)
    ensures forall g :: g in r <==> g in findings || (broken && g == f)
  {
    if broken then findings + [f] else findings
  }

  predicate IsOutOfBounds(s: Segment, duration: Option<real>) {
    s.start < 0.0 || (duration.Some? && s.end > duration.value + TOLERANCE)
  }

  predicate IsOverlapped(previous: Option<Segment>, s: Segment) {
    previous.Some? && s.start < previous.value.end - TOLERANCE
  }

  /** The checks of one segment, given the one before it. */
  function Check(findings: seq<Finding>, previous: Option<Segment>, s: Segment, duration: Option<real>)
    : seq<Finding>
  {
    var f1 := Report(findings, s.end <= s.start, Finding(Reversed, Error, s.index));
    var f2 := Report(f1, IsOutOfBounds(s, duration), Finding(OutOfBounds, Error, s.index));
    var f3 := Report(f2, IsOverlapped(previous, s), Finding(Overlapped, Warning, s.index));
    Report(f3, Strip(s.text) == [], Finding(Empty, Warning, s.index))
  }

  function Previous(ordered: seq<Segment>, k: nat): Option<Segment>
    requires k <= |ordered|
  {
    if k == 0 then None else Some(ordered[k - 1])
  }

  function Findings(ordered: seq<Segment>, duration: Option<real>, n: nat): seq<Finding>
    requires n <= |ordered|
  {
    if n == 0 then [] else
    Check(Findings(ordered, duration, n - 1), Previous(ordered, n - 1), ordered[n - 1], duration)
  }

  /** Insertion by segment number, after segments with the same number. */
  function Insert(s: Segment, t: seq<Segment>): seq<Segment> {
    if t == [] then [s]
    else if s.index < t[|t| - 1].index then Insert(s, t[..|t| - 1]) + [t[|t| - 1]]
    else t + [s]
  }

  function SortByIndex(segments: seq<Segment>): seq<Segment> {
    if segments == [] then [] else
    Insert(segments[|segments| - 1], SortByIndex(segments[..|segments| - 1]))
  }

  method ValidateTimeline(segments: seq<Segment>, duration: Option<real>) returns (findings: seq<Finding>)
    ensures var ordered := SortByIndex(segments);
            findings == Findings(ordered, duration, |ordered|)
  {
    findings := [];
    var ordered := SortByIndex(segments);
    var previous: Option<Segment> := None;
    for k := 0 to |ordered|
      invariant previous == Previous(ordered, k)
      invariant findings == Findings(ordered, duration, k)
    {
      var s := ordered[k];
      if s.end <= s.start {
        findings := findings + [Finding(Reversed, Error, s.index)];
      }
      if s.start < 0.0 || (duration.Some? && s.end > duration.value + TOLERANCE) {
        findings := findings + [Finding(OutOfBounds, Error, s.index)];
      }
      if previous.Some? && s.start < previous.value.end - TOLERANCE {
        findings := findings + [Finding(Overlapped, Warning, s.index)];
      }
      if Strip(s.text) == [] {
        findings := findings + [Finding(Empty, Warning, s.index)];
      }
      previous := Some(s);
    }
  }

  // ---------------------------------------------------------------------------------------------
  // The order of the segments
  // ---------------------------------------------------------------------------------------------

  ghost predicate Ascending(t: seq<Segment>) {
    forall i, j :: 0 <= i < j < |t| ==> t[i].index <= t[j].index
  }

  /** The segments with one number, in their order. */
  function Numbered(t: seq<Segment>, index: nat): seq<Segment> {
    if t == [] then [] else
    Numbered(t[..|t| - 1], index) + if t[|t| - 1].index == index then [t[|t| - 1]] else []
  }

  lemma {:induction false} NumberedLast(t: seq<Segment>, s: Segment, index: nat)
    ensures Numbered(t + [s], index) == Numbered(t, index) + if s.index == index then [s] else []
  {
    assert (t + [s])[..|t|] == t;
  }

  lemma {:induction false} FrontAndLast(t: seq<Segment>)
    requires t != []
    ensures t == t[..|t| - 1] + [t[|t| - 1]]
  {
  }

  lemma {:induction false} InsertElements(s: Segment, t: seq<Segment>)
    ensures multiset(Insert(s, t)) == multiset(t) + multiset{s}
  {
    if t != [] && s.index < t[|t| - 1].index {
      InsertElements(s, t[..|t| - 1]);
      FrontAndLast(t);
    }
  }

  ghost predicate UpTo(t: seq<Segment>, bound: nat) {
    forall i :: 0 <= i < |t| ==> t[i].index <= bound
  }

  lemma {:induction false} AppendAscends(t: seq<Segment>, last: Segment)
    requires Ascending(t) && UpTo(t, last.index)
    ensures Ascending(t + [last])
  {
  }

  lemma {:induction false} InsertUpTo(s: Segment, t: seq<Segment>, bound: nat)
    requires UpTo(t, bound) && s.index <= bound
    ensures UpTo(Insert(s, t), bound)
  {
    if t != [] && s.index < t[|t| - 1].index {
      InsertUpTo(s, t[..|t| - 1], bound);
    }
  }

  lemma {:induction false} InsertAscends(s: Segment, t: seq<Segment>)
    requires Ascending(t)
    ensures Ascending(Insert(s, t))
  {
    if t != [] && s.index < t[|t| - 1].index {
      var front, last := t[..|t| - 1], t[|t| - 1];
      InsertAscends(s, front);
      InsertUpTo(s, front, last.index);
      AppendAscends(Insert(s, front), last);
    }
  }

  lemma {:induction false} InsertIsStable(s: Segment, t: seq<Segment>, index: nat)
    ensures Numbered(Insert(s, t), index) == Numbered(t, index) + if s.index == index then [s] else []
  {
    if t == [] {
      assert [s][..0] == [];
    } else if s.index < t[|t| - 1].index {
      var front, last := t[..|t| - 1], t[|t| - 1];
      InsertIsStable(s, front, index);
      NumberedLast(Insert(s, front), last, index);
      assert s.index != index || last.index != index;
    } else {
      NumberedLast(t, s, index);
    }
  }

  /** The segments are checked in ascending order of their numbers, each as often as it is stored, and
      those with one number in the order in which they are stored. */
  lemma {:induction false} SortedByIndex(segments: seq<Segment>, index: nat)
    ensures var ordered := SortByIndex(segments);
            && Ascending(ordered)
            && multiset(ordered) == multiset(segments)
            && Numbered(ordered, index) == Numbered(segments, index)
  {
    if segments == [] {
    } else {
      var front, last := segments[..|segments| - 1], segments[|segments| - 1];
      SortedByIndex(front, index);
      InsertAscends(last, SortByIndex(front));
      InsertElements(last, SortByIndex(front));
      InsertIsStable(last, SortByIndex(front), index);
      FrontAndLast(segments);
    }
  }

  // ---------------------------------------------------------------------------------------------
  // What the findings mean
  // ---------------------------------------------------------------------------------------------

  predicate Breaks(ordered: seq<Segment>, k: nat, code: Code, duration: Option<real>)
    requires k < |ordered|
  {
    var s := ordered[k];
    match code
    case Reversed => s.end <= s.start
    case OutOfBounds => s.start < 0.0 || (duration.Some? && s.end - 0.05 > duration.value)
    case Overlapped => k > 0 && s.start + 0.05 < ordered[k - 1].end
    case Empty => forall i :: 0 <= i < |s.text| ==> s.text[i].space
  }

  function SeverityOf(code: Code): Severity {
    if code == Reversed || code == OutOfBounds then Error else Warning
  }

  lemma {:induction false} CheckExact(findings: seq<Finding>, ordered: seq<Segment>, k: nat, duration: Option<real>,
                                      f: Finding)
    requires k < |ordered|
    ensures f in Check(findings, Previous(ordered, k), ordered[k], duration)
       <==> f in findings || Broken(ordered, duration, f, k)
  {
    StripFacts(ordered[k].text);
  }

  /** Segment `k` has the number of the finding and breaks its rule. */
  predicate Broken(ordered: seq<Segment>, duration: Option<real>, f: Finding, k: nat) {
    && k < |ordered| && ordered[k].index == f.index && f.severity == SeverityOf(f.code)
    && Breaks(ordered, k, f.code, duration)
  }

  /** A finding is reported exactly when a segment with that number breaks that rule. */
  lemma {:induction false} FindingsExact(ordered: seq<Segment>, duration: Option<real>, n: nat, f: Finding)
    requires n <= |ordered|
    ensures f in Findings(ordered, duration, n) <==> exists k: nat :: k < n && Broken(ordered, duration, f, k)
  {
    if n == 0 {
    } else {
      var m := n - 1;
      FindingsExact(ordered, duration, m, f);
      CheckExact(Findings(ordered, duration, m), ordered, m, duration, f);
    }
  }

  /** The order in which the rules are checked. */
  function Rank(code: Code): nat {
    match code
    case Reversed => 0
    case OutOfBounds => 1
    case Overlapped => 2
    case Empty => 3
  }

  /** Finding `i` is about segment `origins[i]`. */
  predicate Originates(ordered: seq<Segment>, duration: Option<real>, findings: seq<Finding>, origins: seq<nat>,
                       n: nat, i: nat)
    requires i < |findings| == |origins|
  {
    origins[i] < n && Broken(ordered, duration, findings[i], origins[i])
  }

  /** Findings `i` and `j` are about the segments in their order, and about one segment in that of the rules. */
  predicate Follows(findings: seq<Finding>, origins: seq<nat>, i: nat, j: nat)
    requires i < |findings| == |origins| && j < |findings|
  {
    origins[i] < origins[j] || (origins[i] == origins[j] && Rank(findings[i].code) < Rank(findings[j].code))
  }

  ghost predicate InCheckingOrder(ordered: seq<Segment>, duration: Option<real>, findings: seq<Finding>,
                                  origins: seq<nat>, n: nat) {
    && |origins| == |findings|
    && (forall i: nat :: i < |findings| ==> Originates(ordered, duration, findings, origins, n, i))
    && forall i: nat, j: nat :: i < j < |findings| ==> Follows(findings, origins, i, j)
  }

  ghost predicate ReportedFor(findings: seq<Finding>, origins: seq<nat>, f: Finding, k: nat)
    requires |origins| == |findings|
  {
    exists i: nat :: i < |findings| && findings[i] == f && origins[i] == k
  }

  /** The findings about segment `k` are of the first `r` rules. */
  ghost predicate OfFirstRules(findings: seq<Finding>, origins: seq<nat>, k: nat, r: nat)
    requires |origins| == |findings|
  {
    forall i: nat :: i < |findings| && origins[i] == k ==> Rank(findings[i].code) < r
  }

  /** Nothing is reported yet about segment `k`. */
  lemma {:induction false} NothingYet(ordered: seq<Segment>, duration: Option<real>, findings: seq<Finding>,
                                      origins: seq<nat>, k: nat, n: nat)
    requires k < n == k + 1 <= |ordered| && InCheckingOrder(ordered, duration, findings, origins, k)
    ensures InCheckingOrder(ordered, duration, findings, origins, n) && OfFirstRules(findings, origins, k, 0)
  {
    forall i: nat | i < |findings|
      ensures Originates(ordered, duration, findings, origins, n, i) && origins[i] != k
    {
      assert Originates(ordered, duration, findings, origins, k, i);
    }
  }

  function FindingOf(ordered: seq<Segment>, k: nat, code: Code): Finding
    requires k < |ordered|
  {
    Finding(code, SeverityOf(code), ordered[k].index)
  }

  /** One rule: its finding comes after those of the rules before it. */
  lemma {:induction false} ReportInOrder(ordered: seq<Segment>, duration: Option<real>, findings: seq<Finding>,
                                         origins: seq<nat>, k: nat, n: nat, code: Code)
    requires k < n == k + 1 <= |ordered| && InCheckingOrder(ordered, duration, findings, origins, n)
    requires OfFirstRules(findings, origins, k, Rank(code))
    ensures var f := FindingOf(ordered, k, code);
            Breaks(ordered, k, code, duration) ==>
              InCheckingOrder(ordered, duration, findings + [f], origins + [k], n)
  {
    var f := FindingOf(ordered, k, code);
    if Breaks(ordered, k, code, duration) {
      var fs, os := findings + [f], origins + [k];
      forall i: nat | i < |fs|
        ensures Originates(ordered, duration, fs, os, n, i)
      {
        assert i < |findings| ==> Originates(ordered, duration, findings, origins, n, i);
      }
      forall i: nat, j: nat | i < j < |fs|
        ensures Follows(fs, os, i, j)
      {
        assert j < |findings| ==> Follows(findings, origins, i, j);
        assert i < |findings| && Originates(ordered, duration, findings, origins, n, i);
      }
    }
  }

  lemma {:induction false} RulesInTurn(findings: seq<Finding>, ordered: seq<Segment>, k: nat, duration: Option<real>)
    requires k < |ordered|
    ensures var f1 := Report(findings, Breaks(ordered, k, Reversed, duration), FindingOf(ordered, k, Reversed));
            var f2 := Report(f1, Breaks(ordered, k, OutOfBounds, duration), FindingOf(ordered, k, OutOfBounds));
            var f3 := Report(f2, Breaks(ordered, k, Overlapped, duration), FindingOf(ordered, k, Overlapped));
            Check(findings, Previous(ordered, k), ordered[k], duration) ==
            Report(f3, Breaks(ordered, k, Empty, duration), FindingOf(ordered, k, Empty))
  {
    StripFacts(ordered[k].text);
  }

  /** What is reported for a segment stays reported. */
  ghost predicate StillReported(findings: seq<Finding>, origins: seq<nat>, fs: seq<Finding>, os: seq<nat>)
    requires |origins| == |findings| && |os| == |fs|
  {
    forall f: Finding, j: nat :: ReportedFor(findings, origins, f, j) ==> ReportedFor(fs, os, f, j)
  }

  /** The findings of segment `k` come after those of the segments before it, one for each rule it breaks. */
  lemma {:induction false} CheckInOrder(ordered: seq<Segment>, duration: Option<real>, findings: seq<Finding>,
                                        before: seq<nat>, k: nat, n: nat) returns (origins: seq<nat>)
    requires k < n == k + 1 <= |ordered| && InCheckingOrder(ordered, duration, findings, before, k)
    ensures var all := Check(findings, Previous(ordered, k), ordered[k], duration);
            && InCheckingOrder(ordered, duration, all, origins, n)
            && StillReported(findings, before, all, origins)
            && forall f: Finding :: Broken(ordered, duration, f, k) ==> ReportedFor(all, origins, f, k)
  {
    NothingYet(ordered, duration, findings, before, k, n);
    RulesInTurn(findings, ordered, k, duration);
    var f1, o1 := NextRule(ordered, duration, findings, before, k, n, Reversed);
    var f2, o2 := NextRule(ordered, duration, f1, o1, k, n, OutOfBounds);
    var f3, o3 := NextRule(ordered, duration, f2, o2, k, n, Overlapped);
    var f4, o4 := NextRule(ordered, duration, f3, o3, k, n, Empty);
    origins := o4;
    forall f: Finding | Broken(ordered, duration, f, k)
      ensures ReportedFor(f4, o4, f, k)
    {
      assert f == FindingOf(ordered, k, f.code);
      match f.code
      case Reversed => assert ReportedFor(f1, o1, f, k);
      case OutOfBounds => assert ReportedFor(f2, o2, f, k);
      case Overlapped => assert ReportedFor(f3, o3, f, k);
      case Empty =>
    }
  }

  lemma {:induction false} NextRule(ordered: seq<Segment>, duration: Option<real>, findings: seq<Finding>,
                                    origins: seq<nat>, k: nat, n: nat, code: Code)
    returns (fs: seq<Finding>, os: seq<nat>)
    requires k < n == k + 1 <= |ordered| && InCheckingOrder(ordered, duration, findings, origins, n)
    requires OfFirstRules(findings, origins, k, Rank(code))
    ensures InCheckingOrder(ordered, duration, fs, os, n)
    ensures fs == Report(findings, Breaks(ordered, k, code, duration), FindingOf(ordered, k, code))
    ensures StillReported(findings, origins, fs, os)
    ensures Breaks(ordered, k, code, duration) ==> ReportedFor(fs, os, FindingOf(ordered, k, code), k)
    ensures OfFirstRules(fs, os, k, Rank(code) + 1)
  {
    fs, os := findings, origins;
    if Breaks(ordered, k, code, duration) {
      ReportInOrder(ordered, duration, findings, origins, k, n, code);
      fs, os := findings + [FindingOf(ordered, k, code)], origins + [k];
      assert fs[|findings|] == FindingOf(ordered, k, code) && os[|findings|] == k;
      forall f: Finding, j: nat | ReportedFor(findings, origins, f, j)
        ensures ReportedFor(fs, os, f, j)
      {
        var i: nat :| i < |findings| && findings[i] == f && origins[i] == j;
        assert fs[i] == f && os[i] == j;
      }
    }
  }

  /** The findings are reported segment by segment and, for each, rule by rule, and no rule twice for one
      segment: there is a segment to each of them, in order. Together with `FindingsExact` that is the list. */
  lemma {:induction false} FindingsInOrder(ordered: seq<Segment>, duration: Option<real>, n: nat)
    returns (origins: seq<nat>)
    requires n <= |ordered|
    ensures InCheckingOrder(ordered, duration, Findings(ordered, duration, n), origins, n)
    ensures forall k: nat, f: Finding :: k < n && Broken(ordered, duration, f, k) ==>
              ReportedFor(Findings(ordered, duration, n), origins, f, k)
  {
    if n == 0 {
      origins := [];
    } else {
      var m := n - 1;
      var before := FindingsInOrder(ordered, duration, m);
      var front := Findings(ordered, duration, m);
      origins := CheckInOrder(ordered, duration, front, before, m, n);
      forall k: nat, f: Finding | k < n && Broken(ordered, duration, f, k)
        ensures ReportedFor(Findings(ordered, duration, n), origins, f, k)
      {
        assert k < m ==> ReportedFor(front, before, f, k);
      }
    }
  }

  lemma {:induction false} DenseIsSorted(t: seq<Segment>)
    requires forall i :: 0 <= i < |t| ==> t[i].index == i
    ensures SortByIndex(t) == t
  {
    if t != [] {
      DenseIsSorted(t[..|t| - 1]);
    }
  }

  /** A timeline in order, within the audio as the library knows it, has no finding. */
  lemma {:induction false} TimelinePasses(t: seq<Segment>, to: real, duration: Option<real>, n: nat)
    requires IsTimeline(t, 0.0, to) && n <= |t|
    requires duration.Some? ==> to <= duration.value + TOLERANCE
    ensures Findings(t, duration, n) == []
  {
    if n > 0 {
      TimelinePasses(t, to, duration, n - 1);
      StrippedUnchanged(t[n - 1].text);
      assert WellPlaced(t[n - 1], n - 1);
    }
  }

  /** End to end: whatever the silences and the transcripts, the timeline merged from a plan passes
      validation, as long as each chunk's provider segments do not overlap and the stored duration is not
      shorter than the probed one by more than the tolerance. */
  lemma {:induction false} PlannedMergeValidates(q: Request, plan: seq<Chunk>, results: seq<ChunkResult>,
                                                 policy: Policy, stored: Option<real>)
    requires q.Configured() && q.duration > 0.0 && q.IsPlan(plan)
    requires |plan| == |results| && ProvidersInOrder(results)
    requires stored.Some? ==> q.duration <= stored.value + 0.05
    ensures var t := SortByIndex(Timeline(plan, results, policy, |plan|));
            Findings(t, stored, |t|) == []
  {
    PlannedChunksAdvance(q, plan);
    MergedInOrder(plan, results, policy);
    var t := Timeline(plan, results, policy, |plan|);
    assert forall i :: 0 <= i < |t| ==> WellPlaced(t[i], i);
    DenseIsSorted(t);
    TimelinePasses(t, q.duration, stored, |t|);
  }
}

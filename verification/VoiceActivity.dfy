/** The two-threshold voice activity automaton over 32 ms frames. */
module VoiceActivity {
  import opened Prelude

  /** First sample of frame `k`: 512 samples a frame. */
  function FrameStart(k: int): int {
    k * 512
  }

  datatype Samples = Samples(start: int, end: int)

  /** A stretch of activity: closed by a quiet run that starts at frame `quiet` and becomes long
      enough at frame `close`, or still open when the frames run out. */
  datatype Burst = Closed(first: nat, quiet: nat, close: nat) | Open(first: nat)

  /** The arguments of one detection; the two minimum lengths are in milliseconds. */
  datatype Detection = Detection(p: seq<real>, count: int, threshold: real, speechMs: int, silenceMs: int) {

    function Negative(): real {
      MaxR(0.01, threshold - 0.15)
    }

    function MinimumSpeech(): int {
      speechMs * 16000 / 1000
    }

    function MinimumSilence(): int {
      silenceMs * 16000 / 1000
    }

    predicate Loud(k: int) {
      0 <= k < |p| && p[k] >= threshold
    }

    predicate Quiet(k: int) {
      0 <= k < |p| && p[k] < threshold && p[k] < Negative()
    }

    function FrameEnd(k: int): int {
      MinI(count, FrameStart(k) + 512)
    }

    /** The frames cover exactly the decoded samples. */
    predicate Aligned() {
      FrameStart(|p| - 1) < count <= FrameStart(|p|)
    }

    /** No frame in [from, to) is at the threshold. */
    ghost predicate NoLoud(from: int, to: int) {
      forall k :: from <= k < to ==> !Loud(k)
    }

    /** Frame `l` is the last at-threshold frame before `s`, and nothing quiet lies between them. */
    ghost predicate Hangs(l: int, s: int) {
      Loud(l) && forall k :: l < k < s ==> !Loud(k) && !Quiet(k)
    }

    /** In activity begun at `a`, frame `s` is the first quiet frame after an at-threshold one. */
    ghost predicate QuietFrom(a: int, s: int) {
      Quiet(s) && exists l :: a <= l < s && Hangs(l, s)
    }

    /** The quiet run from `s` to `j` is long enough to end activity begun at `a`. */
    ghost predicate Closes(a: int, s: int, j: int) {
      && s <= j
      && QuietFrom(a, s)
      && NoLoud(s, j + 1)
      && Quiet(j)
      && FrameEnd(j) - FrameStart(s) >= MinimumSilence()
    }

    ghost predicate StaysOpen(a: int, before: int) {
      forall s, j :: j < before ==> !Closes(a, s, j)
    }

    /** Where the search for the next burst begins. */
    static function Resume(bursts: seq<Burst>): nat {
      if bursts == [] || bursts[|bursts| - 1].Open? then 0 else bursts[|bursts| - 1].close + 1
    }

    /** Burst `b` starts at the first at-threshold frame from `from` on, and it closes as early as it
        can. */
    ghost predicate BurstFrom(from: int, b: Burst) {
      && from <= b.first
      && Loud(b.first)
      && NoLoud(from, b.first)
      && match b
         case Closed(first, quiet, close) =>
           Closes(first, quiet, close) && StaysOpen(first, close)
         case Open(first) =>
           StaysOpen(first, |p|)
    }

    /** Burst `i` is the first one after the previous burst closed. */
    ghost predicate BurstAt(bursts: seq<Burst>, i: int)
      requires 0 <= i < |bursts|
    {
      && (i > 0 ==> bursts[i - 1].Closed?)
      && BurstFrom(Resume(bursts[..i]), bursts[i])
    }

    /** The bursts of the whole recording, stated without the automaton. */
    ghost predicate IsSegmentation(bursts: seq<Burst>) {
      && (forall i {:trigger BurstAt(bursts, i)} :: 0 <= i < |bursts| ==> BurstAt(bursts, i))
      && (bursts == [] || bursts[|bursts| - 1].Closed? ==> NoLoud(Resume(bursts), |p|))
    }

    function Span(b: Burst): Samples {
      match b
      case Closed(first, quiet, _) => Samples(FrameStart(first), FrameStart(quiet))
      case Open(first) => Samples(FrameStart(first), count)
    }

    predicate Kept(b: Burst) {
      Span(b).end - Span(b).start >= MinimumSpeech()
    }

    function Spans(bursts: seq<Burst>): seq<Samples> {
      if bursts == [] then [] else
      var n := |bursts| - 1;
      Spans(bursts[..n]) + if Kept(bursts[n]) then [Span(bursts[n])] else []
    }

    function Speech(bursts: seq<Burst>): seq<Interval> {
      Seconds(Spans(bursts))
    }
  }

  function InSeconds(samples: int): real {
    samples as real / 16000.0
  }

  function ToInterval(s: Samples): Interval {
    Interval(InSeconds(s.start), InSeconds(s.end))
  }

  /** Positive spans only, converted to seconds. */
  function Seconds(spans: seq<Samples>): seq<Interval> {
    if spans == [] then [] else
    var n := |spans| - 1;
    Seconds(spans[..n]) + if spans[n].end > spans[n].start then [ToInterval(spans[n])] else []
  }

  /** What the automaton remembers before frame `f`: whether activity is open since frame `a`, and
      whether a quiet run has been going on since frame `s`. */
  datatype Marks = Idle | Active(a: nat) | Fading(a: nat, s: nat) {

    function SpeechStart(): Option<int> {
      if Idle? then None else Some(FrameStart(a))
    }

    function SilenceStart(): Option<int> {
      if Fading? then Some(FrameStart(s)) else None
    }
  }

  ghost predicate Tracks(d: Detection, bursts: seq<Burst>, m: Marks, f: int) {
    && AllClosed(d, bursts)
    && match m
       case Idle => Waiting(d, bursts, f)
       case Active(a) => Begun(d, bursts, a, f) && exists l :: a <= l < f && d.Hangs(l, f)
       case Fading(a, s) => Begun(d, bursts, a, f) && QuietSince(d, a, s, f)
  }

  ghost predicate Waiting(d: Detection, bursts: seq<Burst>, f: int) {
    Detection.Resume(bursts) <= f && d.NoLoud(Detection.Resume(bursts), f)
  }

  ghost predicate AllClosed(d: Detection, bursts: seq<Burst>) {
    && (bursts != [] ==> bursts[|bursts| - 1].Closed?)
    && forall i {:trigger d.BurstAt(bursts, i)} :: 0 <= i < |bursts| ==> d.BurstAt(bursts, i)
  }

  ghost predicate Begun(d: Detection, bursts: seq<Burst>, a: int, f: int) {
    && Detection.Resume(bursts) <= a < f
    && d.Loud(a)
    && d.NoLoud(Detection.Resume(bursts), a)
    && d.StaysOpen(a, f)
  }

  ghost predicate QuietSince(d: Detection, a: int, s: int, f: int) {
    s < f && d.QuietFrom(a, s) && d.NoLoud(s, f)
  }

  /** The automaton itself: closed speech so far, and where open speech began. */
  method ScanFrames(d: Detection)
    returns (speech: seq<Samples>, speechStart: Option<int>, ghost bursts: seq<Burst>, ghost m: Marks)
    ensures speech == d.Spans(bursts)
    ensures Tracks(d, bursts, m, |d.p|) && speechStart == m.SpeechStart()
  {
    speech, speechStart, bursts, m := [], None, [], Idle;
    var silenceStart: Option<int> := None;
    for f := 0 to |d.p|
      invariant speech == d.Spans(bursts)
      invariant Tracks(d, bursts, m, f)
      invariant speechStart == m.SpeechStart() && silenceStart == m.SilenceStart()
    {
      var frameStart := FrameStart(f);
      var frameEnd := MinI(d.count, frameStart + 512);
      if d.p[f] >= d.threshold {
        LoudFrame(d, bursts, m, f);
        m := Active(if m.Idle? then f else m.a);
        if speechStart.None? {
          speechStart := Some(frameStart);
        }
        silenceStart := None;
        continue;
      }
      if speechStart.None? || d.p[f] >= d.Negative() {
        NoChange(d, bursts, m, f);
        continue;
      }
      if m.Fading? {
        QuietGoesOn(d, m.a, m.s, f);
      } else {
        QuietBegins(d, m.a, f);
      }
      m := Fading(m.a, if m.Fading? then m.s else f);
      if silenceStart.None? {
        silenceStart := Some(frameStart);
      }
      if frameEnd - silenceStart.value < d.MinimumSilence() {
        GoesOn(d, bursts, m.a, m.s, f);
        continue;
      }
      GoesQuiet(d, bursts, m, f);
      if silenceStart.value - speechStart.value >= d.MinimumSpeech() {
        speech := speech + [Samples(speechStart.value, silenceStart.value)];
      }
      AppendSpan(d, bursts, Closed(m.a, m.s, f));
      bursts, m := bursts + [Closed(m.a, m.s, f)], Idle;
      speechStart := None;
      silenceStart := None;
    }
  }

  method ProbabilitiesToSpeechIntervals(d: Detection) returns (result: seq<Interval>)
    ensures d.count <= 0 ==> result == []
    ensures d.count > 0 ==>
              exists bursts :: d.IsSegmentation(bursts) && result == d.Speech(bursts)
  {
    if d.count <= 0 {
      return [];
    }
    var speech, speechStart;
    ghost var bursts, m;
    speech, speechStart, bursts, m := ScanFrames(d);
    if speechStart.Some? {
      if d.count - speechStart.value >= d.MinimumSpeech() {
        speech := speech + [Samples(speechStart.value, d.count)];
      }
      AppendSpan(d, bursts, Open(m.a));
      ExtendBursts(d, bursts, Open(m.a));
      bursts := bursts + [Open(m.a)];
    }
    assert speech == d.Spans(bursts);
    result := PositiveSeconds(speech);
    assert d.IsSegmentation(bursts) && result == d.Speech(bursts);
  }

  /** The comprehension that builds the result. */
  method PositiveSeconds(speech: seq<Samples>) returns (result: seq<Interval>)
    ensures result == Seconds(speech)
  {
    result := [];
    for i := 0 to |speech|
      invariant result == Seconds(speech[..i])
    {
      assert speech[..i + 1][..i] == speech[..i];
      if speech[i].end > speech[i].start {
        result := result + [ToInterval(speech[i])];
      }
    }
    assert speech[..|speech|] == speech;
  }

  /** A quiet run has only one possible starting frame. */
  lemma QuietFromUnique(d: Detection, a: int, s: int, s': int, f: int)
    requires QuietSince(d, a, s, f) && QuietSince(d, a, s', f)
    ensures s == s'
  {
    var l :| a <= l < s && d.Hangs(l, s);
    var l' :| a <= l' < s' && d.Hangs(l', s');
  }

  lemma StaysOpenStep(d: Detection, a: int, f: int)
    requires d.StaysOpen(a, f)
    requires forall s :: !d.Closes(a, s, f)
    ensures d.StaysOpen(a, f + 1)
  {
    forall s, j | j < f + 1
      ensures !d.Closes(a, s, j)
    {
      assert j < f || j == f;
    }
  }

  lemma LoudFrame(d: Detection, bursts: seq<Burst>, m: Marks, f: nat)
    requires Tracks(d, bursts, m, f) && d.Loud(f)
    ensures Tracks(d, bursts, Active(if m.Idle? then f else m.a), f + 1)
  {
    assert d.Hangs(f, f + 1);
    if !m.Idle? {
      StaysOpenStep(d, m.a, f);
    }
  }

  lemma NoChange(d: Detection, bursts: seq<Burst>, m: Marks, f: nat)
    requires Tracks(d, bursts, m, f) && !d.Loud(f) && (m.Idle? || !d.Quiet(f))
    ensures Tracks(d, bursts, m, f + 1)
  {
    if !m.Idle? {
      StaysOpenStep(d, m.a, f);
      if m.Active? {
        var l :| m.a <= l < f && d.Hangs(l, f);
        assert d.Hangs(l, f + 1);
      }
    }
  }

  lemma QuietBegins(d: Detection, a: int, f: nat)
    requires exists l :: a <= l < f && d.Hangs(l, f)
    requires d.Quiet(f)
    ensures QuietSince(d, a, f, f + 1)
  {
  }

  lemma QuietGoesOn(d: Detection, a: int, s: int, f: nat)
    requires QuietSince(d, a, s, f) && d.Quiet(f)
    ensures QuietSince(d, a, s, f + 1)
  {
  }

  /** A quiet run that is still too short does not end the burst. */
  lemma GoesOn(d: Detection, bursts: seq<Burst>, a: nat, q: nat, f: nat)
    requires AllClosed(d, bursts) && Begun(d, bursts, a, f) && QuietSince(d, a, q, f + 1)
    requires d.FrameEnd(f) - FrameStart(q) < d.MinimumSilence()
    ensures Tracks(d, bursts, Fading(a, q), f + 1)
  {
    forall s
      ensures !d.Closes(a, s, f)
    {
      if QuietSince(d, a, s, f + 1) {
        QuietFromUnique(d, a, q, s, f + 1);
      }
    }
    StaysOpenStep(d, a, f);
  }

  /** A long enough quiet run ends the burst where the run began. */
  lemma GoesQuiet(d: Detection, bursts: seq<Burst>, m: Marks, f: nat)
    requires m.Fading? && AllClosed(d, bursts) && Begun(d, bursts, m.a, f) && QuietSince(d, m.a, m.s, f + 1)
    requires d.Quiet(f) && d.FrameEnd(f) - FrameStart(m.s) >= d.MinimumSilence()
    ensures Tracks(d, bursts + [Closed(m.a, m.s, f)], Idle, f + 1)
  {
    var b := Closed(m.a, m.s, f);
    assert d.Closes(m.a, m.s, f);
    assert d.BurstFrom(Detection.Resume(bursts), b);
    ExtendBursts(d, bursts, b);
  }

  lemma ExtendBursts(d: Detection, bursts: seq<Burst>, b: Burst)
    requires AllClosed(d, bursts)
    requires d.BurstFrom(Detection.Resume(bursts), b)
    ensures forall i {:trigger d.BurstAt(bursts + [b], i)} :: 0 <= i <= |bursts| ==> d.BurstAt(bursts + [b], i)
  {
    assert (bursts + [b])[..|bursts|] == bursts;
    forall i | 0 <= i < |bursts|
      ensures d.BurstAt(bursts + [b], i)
    {
      assert d.BurstAt(bursts, i);
      assert (bursts + [b])[..i] == bursts[..i];
    }
  }

  lemma AppendSpan(d: Detection, bursts: seq<Burst>, b: Burst)
    ensures d.Spans(bursts + [b]) == d.Spans(bursts) + if d.Kept(b) then [d.Span(b)] else []
  {
    assert (bursts + [b])[..|bursts|] == bursts;
  }

  // ---------------------------------------------------------------------------------------------
  // What the segmentation says about the recording
  // ---------------------------------------------------------------------------------------------

  /** Two segmentations of the same frames agree burst by burst. */
  lemma {:induction false} SamePrefix(d: Detection, b: seq<Burst>, c: seq<Burst>, n: nat)
    requires d.IsSegmentation(b) && d.IsSegmentation(c)
    requires n <= |b| && n <= |c|
    ensures b[..n] == c[..n]
  {
    if n > 0 {
      SamePrefix(d, b, c, n - 1);
      assert d.BurstAt(b, n - 1) && d.BurstAt(c, n - 1);
      var x, y := b[n - 1], c[n - 1];
      assert x.first == y.first;
      if x.Closed? && y.Closed? {
        assert x.close == y.close;
        QuietFromUnique(d, x.first, x.quiet, y.quiet, x.close + 1);
      }
      assert b[..n] == b[..n - 1] + [x];
      assert c[..n] == c[..n - 1] + [y];
    }
  }

  /** A further burst means a further at-threshold frame. */
  lemma MoreBursts(d: Detection, c: seq<Burst>, n: nat)
    requires d.IsSegmentation(c) && n < |c|
    ensures n > 0 ==> c[n - 1].Closed?
    ensures !d.NoLoud(Detection.Resume(c[..n]), |d.p|)
  {
    assert d.BurstAt(c, n);
    assert d.Loud(c[n].first);
  }

  lemma SameLength(d: Detection, b: seq<Burst>, c: seq<Burst>)
    requires d.IsSegmentation(b) && d.IsSegmentation(c)
    requires |b| <= |c| && c[..|b|] == b
    ensures b == c
  {
    if |b| < |c| {
      MoreBursts(d, c, |b|);
    }
  }

  /** The segmentation determines the detected speech: there is exactly one for every input. */
  lemma SegmentationUnique(d: Detection, b: seq<Burst>, c: seq<Burst>)
    requires d.IsSegmentation(b) && d.IsSegmentation(c)
    ensures b == c
  {
    assert b[..|b|] == b && c[..|c|] == c;
    if |b| <= |c| {
      SamePrefix(d, b, c, |b|);
      SameLength(d, b, c);
    } else {
      SamePrefix(d, c, b, |c|);
      SameLength(d, c, b);
    }
  }

  lemma {:induction false} BurstsInOrder(d: Detection, bursts: seq<Burst>, m: nat, n: nat)
    requires d.IsSegmentation(bursts)
    requires m < n < |bursts|
    ensures bursts[m].Closed? && bursts[m].close < bursts[n].first
    decreases n
  {
    assert d.BurstAt(bursts, n);
    if m < n - 1 {
      BurstsInOrder(d, bursts, m, n - 1);
      assert d.BurstAt(bursts, n - 1);
    }
  }

  predicate Emitted(d: Detection, b: Burst) {
    d.Kept(b) && d.Span(b).start < d.Span(b).end
  }

  /** The numbers of the bursts among the first `n` that become detected speech. */
  ghost function Sources(d: Detection, bursts: seq<Burst>, n: nat): (r: seq<nat>)
    requires n <= |bursts|
    ensures forall i :: 0 <= i < |r| ==> r[i] < n && Emitted(d, bursts[r[i]])
    ensures forall i, j :: 0 <= i < j < |r| ==> r[i] < r[j]
    ensures forall m :: 0 <= m < n && Emitted(d, bursts[m]) ==> m in r
  {
    if n == 0 then [] else
    Sources(d, bursts, n - 1) + if Emitted(d, bursts[n - 1]) then [n - 1] else []
  }

  /** Detected speech is exactly the kept bursts, in order. */
  lemma {:induction false} SpeechFromBursts(d: Detection, bursts: seq<Burst>, n: nat)
    requires n <= |bursts|
    ensures var s, r := d.Speech(bursts[..n]), Sources(d, bursts, n);
            && |s| == |r|
            && forall i :: 0 <= i < |s| ==> s[i] == ToInterval(d.Span(bursts[r[i]]))
  {
    if n == 0 {
      assert bursts[..n] == [];
    } else {
      SpeechFromBursts(d, bursts, n - 1);
      AppendSpan(d, bursts[..n - 1], bursts[n - 1]);
      assert bursts[..n] == bursts[..n - 1] + [bursts[n - 1]];
      var spans := d.Spans(bursts[..n - 1]);
      var last := d.Span(bursts[n - 1]);
      assert (spans + [last])[..|spans|] == spans;
      assert Seconds(spans + [last]) == Seconds(spans) + if last.end > last.start then [ToInterval(last)] else [];
      if !d.Kept(bursts[n - 1]) {
        assert d.Spans(bursts[..n]) == spans;
      } else {
        assert d.Spans(bursts[..n]) == spans + [last];
      }
    }
  }

  /** Frame `k` lies inside a detected interval. */
  ghost predicate InsideSpeech(d: Detection, s: seq<Interval>, k: int) {
    exists i :: 0 <= i < |s| && s[i].start <= InSeconds(FrameStart(k)) < s[i].end
  }

  /** Frame `k` lies inside a burst that was too short to be speech. */
  ghost predicate InsideDroppedBurst(d: Detection, bursts: seq<Burst>, k: int) {
    exists n :: 0 <= n < |bursts| && TooShort(d, d.Span(bursts[n]))
                && d.Span(bursts[n]).start <= FrameStart(k) < d.Span(bursts[n]).end
  }

  /** Less than the minimum speech, at 16 samples a millisecond. */
  predicate TooShort(d: Detection, s: Samples) {
    s.end - s.start < d.speechMs * 16
  }

  /** The threshold is missed by 0.15 or more precisely: the frame is below it, and below the lower one, which
      is 0.15 less but not less than 0.01. */
  predicate BelowBoth(d: Detection, k: int) {
    && 0 <= k < |d.p| && d.p[k] < d.threshold
    && (d.p[k] < d.threshold - 0.15 || d.p[k] < 0.01)
  }

  lemma QuietExactly(d: Detection, k: int)
    ensures d.Quiet(k) <==> BelowBoth(d, k)
  {
  }

  /** Quiet frames `s` and `j` with no at-threshold frame from the one to the other, which together last as long
      as the minimum silence within the samples. */
  ghost predicate Pause(d: Detection, s: int, j: int) {
    && s <= j && BelowBoth(d, s) && BelowBoth(d, j) && (forall k :: s <= k <= j ==> d.p[k] < d.threshold)
    && MinI(d.count, (j + 1) * 512) - s * 512 >= d.silenceMs * 16
  }

  /** An interval in seconds that is at least the minimum speech long, starts on an at-threshold frame and
      ends where a long enough pause begins or with the audio. */
  ghost predicate IsSpeech(d: Detection, x: Interval) {
    && 0.0 <= x.start < x.end
    && x.end - x.start >= d.speechMs as real / 1000.0
    && (exists k :: 0 <= k < |d.p| && d.p[k] >= d.threshold && x.start == k as real * 0.032)
    && (x.end == d.count as real / 16000.0 || exists k, j :: Pause(d, k, j) && x.end == k as real * 0.032)
  }

  lemma BurstIsSpeech(d: Detection, bursts: seq<Burst>, n: int)
    requires d.IsSegmentation(bursts) && 0 <= n < |bursts| && Emitted(d, bursts[n])
    ensures IsSpeech(d, ToInterval(d.Span(bursts[n])))
  {
    var b := bursts[n];
    assert d.BurstAt(bursts, n);
    assert d.Loud(b.first);
    FrameInSeconds(b.first);
    SamplesToSeconds(d.Span(b).start, d.Span(b).end, d.speechMs);
    if b.Closed? {
      ClosedByPause(d, bursts, n);
      FrameInSeconds(b.quiet);
    }
  }

  lemma ClosedByPause(d: Detection, bursts: seq<Burst>, n: int)
    requires d.IsSegmentation(bursts) && 0 <= n < |bursts| && bursts[n].Closed?
    ensures Pause(d, bursts[n].quiet, bursts[n].close)
  {
    var b := bursts[n];
    assert d.BurstAt(bursts, n);
    assert d.Closes(b.first, b.quiet, b.close);
    QuietExactly(d, b.quiet);
    QuietExactly(d, b.close);
    forall k | b.quiet <= k <= b.close
      ensures d.p[k] < d.threshold
    {
      assert !d.Loud(k);
    }
  }

  lemma SamplesToSeconds(a: int, b: int, ms: int)
    requires b - a >= ms * 16
    ensures InSeconds(b) - InSeconds(a) >= ms as real / 1000.0
  {
  }

  lemma BurstsApart(d: Detection, bursts: seq<Burst>, m: int, n: int)
    requires d.IsSegmentation(bursts) && 0 <= m < n < |bursts|
    ensures var x, y := ToInterval(d.Span(bursts[m])), ToInterval(d.Span(bursts[n]));
            y.start - x.end >= d.silenceMs as real / 1000.0 && x.end < y.start
  {
    BurstsInOrder(d, bursts, m, n);
    assert d.BurstAt(bursts, m);
    var b := bursts[m];
    assert d.Closes(b.first, b.quiet, b.close);
    assert FrameStart(b.close) + 512 <= FrameStart(bursts[n].first);
    SamplesToSeconds(FrameStart(b.quiet), FrameStart(bursts[n].first), d.silenceMs);
  }

  /** Ordered intervals with gaps of at least the minimum silence, each at least the minimum speech
      long, each starting on an at-threshold frame and ending on a quiet frame or with the audio. */
  lemma DetectedSpeech(d: Detection, bursts: seq<Burst>)
    requires d.count > 0 && d.IsSegmentation(bursts)
    ensures var s := d.Speech(bursts);
            && (forall i :: 0 <= i < |s| ==>
                  IsSpeech(d, s[i]) && (d.Aligned() ==> s[i].end <= InSeconds(d.count)))
            && (forall i, j :: 0 <= i < j < |s| ==>
                  s[j].start - s[i].end >= d.silenceMs as real / 1000.0
                  && s[i].end < s[j].start)
  {
    var s := d.Speech(bursts);
    var r := Sources(d, bursts, |bursts|);
    assert bursts[..|bursts|] == bursts;
    SpeechFromBursts(d, bursts, |bursts|);
    forall i | 0 <= i < |s|
      ensures IsSpeech(d, s[i]) && (d.Aligned() ==> s[i].end <= InSeconds(d.count))
    {
      BurstIsSpeech(d, bursts, r[i]);
      assert d.BurstAt(bursts, r[i]);
    }
    forall i, j | 0 <= i < j < |s|
      ensures s[j].start - s[i].end >= d.silenceMs as real / 1000.0
      ensures s[i].end < s[j].start
    {
      BurstsApart(d, bursts, r[i], r[j]);
    }
  }

  lemma SpeechInOrder(d: Detection, bursts: seq<Burst>)
    requires d.count > 0 && d.IsSegmentation(bursts)
    ensures var s := d.Speech(bursts);
            && (forall i :: 0 <= i < |s| ==> 0.0 <= s[i].start < s[i].end)
            && (forall i, j :: 0 <= i < j < |s| ==> s[i].end < s[j].start)
            && (d.Aligned() ==> forall i :: 0 <= i < |s| ==> s[i].end <= InSeconds(d.count))
  {
    DetectedSpeech(d, bursts);
    var s := d.Speech(bursts);
    assert forall i :: 0 <= i < |s| ==> IsSpeech(d, s[i]);
  }

  lemma FrameInSeconds(k: int)
    ensures InSeconds(FrameStart(k)) == k as real * 0.032
  {
  }

  lemma PauseIsQuiet(d: Detection, s: int, j: int)
    requires Pause(d, s, j)
    ensures d.Quiet(s) && d.Quiet(j) && d.NoLoud(s, j + 1)
    ensures d.FrameEnd(j) - FrameStart(s) >= d.MinimumSilence()
  {
    QuietExactly(d, s);
    QuietExactly(d, j);
  }

  lemma BurstAvoidsPause(d: Detection, bursts: seq<Burst>, s: int, j: int, n: int)
    requires d.IsSegmentation(bursts) && 0 <= n < |bursts| && Pause(d, s, j)
    ensures (bursts[n].Closed? && bursts[n].quiet <= s) || bursts[n].first > j
  {
    var b := bursts[n];
    assert d.BurstAt(bursts, n);
    assert d.Loud(b.first);
    PauseIsQuiet(d, s, j);
    if b.first < s {
      PauseCloses(d, b.first, s, j);
      if b.Closed? {
        assert d.Closes(b.first, b.quiet, b.close) && b.close <= j;
        PauseBeginsQuiet(d, b.first, s, j, b.quiet);
      }
    } else {
      assert b.first <= j ==> !d.Loud(b.first);
    }
  }

  /** No speech interval reaches into a long enough pause, also one with frames between the two thresholds:
      nothing but shorter pauses is bridged. */
  lemma PauseIsSilent(d: Detection, bursts: seq<Burst>, s: int, j: int, i: int)
    requires d.count > 0 && d.IsSegmentation(bursts) && Pause(d, s, j)
    requires 0 <= i < |d.Speech(bursts)|
    ensures d.Speech(bursts)[i].end <= s as real * 0.032 || d.Speech(bursts)[i].start > j as real * 0.032
  {
    var r := Sources(d, bursts, |bursts|);
    assert bursts[..|bursts|] == bursts;
    SpeechFromBursts(d, bursts, |bursts|);
    var b := bursts[r[i]];
    BurstAvoidsPause(d, bursts, s, j, r[i]);
    FrameInSeconds(if b.Closed? then b.quiet else 0);
    FrameInSeconds(b.first);
  }

  /** A pause is entered with its first quiet frame. */
  lemma PauseBeginsQuiet(d: Detection, a: int, s: int, j: int, q: int)
    requires q <= j && d.QuietFrom(a, q) && d.Quiet(s) && d.NoLoud(s, j + 1)
    ensures q <= s
  {
    var l :| a <= l < q && d.Hangs(l, q);
    assert s <= l ==> !d.Loud(l);
    assert l < s < q ==> !d.Quiet(s);
  }

  /** Activity that is still going on at frame `s` is closed by the pause, as of a frame not after `s`. */
  lemma PauseCloses(d: Detection, a: int, s: int, j: int)
    requires 0 <= a < s <= j && d.Loud(a) && d.Quiet(s) && d.Quiet(j) && d.NoLoud(s, j + 1)
    requires d.FrameEnd(j) - FrameStart(s) >= d.MinimumSilence()
    ensures exists q :: a < q <= s && d.Closes(a, q, j)
  {
    var l := LastLoud(d, a, s);
    var q := FirstQuiet(d, l, s);
    assert d.Hangs(l, q);
    assert d.QuietFrom(a, q);
    forall k | q <= k < j + 1
      ensures !d.Loud(k)
    {
    }
    assert d.NoLoud(q, j + 1);
    assert d.Closes(a, q, j);
  }

  lemma LastLoud(d: Detection, a: int, s: int) returns (l: int)
    requires a < s && d.Loud(a)
    ensures a <= l < s && d.Loud(l) && d.NoLoud(l + 1, s)
    decreases s - a
  {
    l := a;
    if k :| a < k < s && d.Loud(k) {
      l := LastLoud(d, k, s);
    }
  }

  lemma FirstQuiet(d: Detection, l: int, s: int) returns (q: int)
    requires l < s && d.Quiet(s) && d.NoLoud(l + 1, s)
    ensures l < q <= s && d.Quiet(q) && forall k :: l < k < q ==> !d.Loud(k) && !d.Quiet(k)
    decreases s - l
  {
    q := s;
    if k :| l < k < s && d.Quiet(k) {
      q := FirstQuiet(d, l, k);
    }
  }

  ghost predicate InsideBurst(d: Detection, b: Burst, k: int) {
    b.first <= k && (b.Closed? ==> k < b.quiet)
  }

  lemma {:induction false} LoudFrameBeforeResume(d: Detection, bursts: seq<Burst>, n: nat, k: int)
    requires d.IsSegmentation(bursts)
    requires n <= |bursts| && (n > 0 ==> bursts[n - 1].Closed?)
    requires d.Loud(k) && k < Detection.Resume(bursts[..n])
    ensures exists m :: 0 <= m < n && InsideBurst(d, bursts[m], k)
  {
    assert n > 0 && d.BurstAt(bursts, n - 1);
    if k < Detection.Resume(bursts[..n - 1]) {
      LoudFrameBeforeResume(d, bursts, n - 1, k);
    } else {
      assert InsideBurst(d, bursts[n - 1], k);
    }
  }

  lemma FrameInsideSpan(d: Detection, b: Burst, k: int)
    requires d.Loud(k) && InsideBurst(d, b, k) && FrameStart(k) < d.count
    ensures d.Span(b).start <= FrameStart(k) < d.Span(b).end
  {
  }

  /** No at-threshold frame is lost: each one that begins within the samples is in detected speech or in a
      burst too short to count. */
  lemma LoudFramesCovered(d: Detection, bursts: seq<Burst>, k: int)
    requires d.IsSegmentation(bursts)
    requires d.Loud(k) && FrameStart(k) < d.count
    ensures InsideSpeech(d, d.Speech(bursts), k) || InsideDroppedBurst(d, bursts, k)
  {
    var n := |bursts|;
    assert bursts[..n] == bursts;
    if n == 0 || bursts[n - 1].Closed? {
      LoudFrameBeforeResume(d, bursts, n, k);
    } else {
      assert d.BurstAt(bursts, n - 1);
      if k < Detection.Resume(bursts[..n - 1]) {
        LoudFrameBeforeResume(d, bursts, n - 1, k);
      } else {
        assert InsideBurst(d, bursts[n - 1], k);
      }
    }
    var m :| 0 <= m < n && InsideBurst(d, bursts[m], k);
    FrameInsideSpan(d, bursts[m], k);
    if d.Kept(bursts[m]) {
      SpeechFromBursts(d, bursts, n);
      var s, r := d.Speech(bursts), Sources(d, bursts, n);
      var i :| 0 <= i < |r| && r[i] == m;
      assert s[i] == ToInterval(d.Span(bursts[m]));
      assert s[i].start <= InSeconds(FrameStart(k)) < s[i].end;
    }
  }
}

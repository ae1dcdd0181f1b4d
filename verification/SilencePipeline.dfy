/** From frame probabilities to the cuts of the plan. */
module SilencePipeline {
  import opened Prelude
  import opened VoiceActivity
  import opened Silence
  import opened ChunkPlanner
  import PlanGuarantees

  datatype VadError = NoSamples | InvalidDuration

  /** The length that both the probe and the decoder vouch for. */
  function EffectiveDuration(d: Detection, duration: real): real {
    MinR(duration, InSeconds(d.count))
  }

  ghost predicate IsSilenceOf(d: Detection, duration: real, bursts: seq<Burst>, silence: seq<Interval>) {
    d.IsSegmentation(bursts) && silence == Complement(d.Speech(bursts), 0.0, EffectiveDuration(d, duration))
  }

  method DetectSilenceIntervals(d: Detection, duration: real) returns (r: Result<seq<Interval>, VadError>)
    ensures d.p == [] || d.count <= 0 <==> r == Err(NoSamples)
    ensures d.p != [] && d.count > 0 && duration <= 0.0 <==> r == Err(InvalidDuration)
    ensures r.Ok? ==> exists bursts :: IsSilenceOf(d, duration, bursts, r.value)
  {
    if d.p == [] || d.count <= 0 {
      return Err(NoSamples);
    }
    var speech := ProbabilitiesToSpeechIntervals(d);
    ghost var bursts :| d.IsSegmentation(bursts) && speech == d.Speech(bursts);
    var effective := EffectiveDuration(d, duration);
    if effective <= 0.0 {
      return Err(InvalidDuration);
    }
    var silence := SpeechToSilenceIntervals(speech, effective);
    assert IsSilenceOf(d, duration, bursts, silence);
    r := Ok(silence);
  }

  /** Within both the probed and the decoded length the silence is what the speech leaves; beyond the shorter
      one there is none. */
  lemma SilenceExactly(d: Detection, duration: real, bursts: seq<Burst>, silence: seq<Interval>, t: real)
    requires d.count > 0 && duration > 0.0 && IsSilenceOf(d, duration, bursts, silence)
    ensures 0.0 <= t < duration && t < d.count as real / 16000.0 ==>
              (Covers(silence, t) <==> !Covers(d.Speech(bursts), t))
    ensures t >= duration || t >= d.count as real / 16000.0 || t < 0.0 ==> !Covers(silence, t)
  {
    var length := EffectiveDuration(d, duration);
    SpeechInOrder(d, bursts);
    SilenceOrdered(d.Speech(bursts), 0.0, length);
    if 0.0 <= t < length {
      SilenceTiles(d.Speech(bursts), 0.0, length, t);
    }
  }

  /** An instant strictly inside a silence is strictly outside every positive speech interval. */
  lemma InsideSilenceOutsideSpeech(speech: seq<Interval>, d: real, k: int, m: real, j: int)
    requires SortedStarts(speech) && 0.0 < d
    requires 0 <= j < |speech| && speech[j].start < speech[j].end
    requires var s := Complement(speech, 0.0, d); 0 <= k < |s| && s[k].start < m < s[k].end
    ensures m < speech[j].start || speech[j].end < m
  {
    var s := Complement(speech, 0.0, d)[k];
    SilenceOrdered(speech, 0.0, d);
    var a, b := speech[j].start, speech[j].end;
    if a <= m <= b {
      var t := if m < b then m else MaxR(a, (s.start + m) / 2.0);
      assert a <= t < b && s.start <= t < s.end;
      SilenceTiles(speech, 0.0, d, t);
    }
  }

  /** End to end: every cut labelled as silence is the midpoint of a detected silence, carries its
      length, and lies strictly outside every detected speech interval. */
  lemma VadCutsAvoidSpeech(d: Detection, bursts: seq<Burst>, q: Request, plan: seq<Chunk>, i: int)
    requires d.count > 0 && q.Configured() && q.duration > q.maximum
    requires IsSilenceOf(d, q.duration, bursts, q.silences)
    requires q.IsPlan(plan) && 0 <= i < |plan| && plan[i].cut.Vad?
    ensures exists k :: 0 <= k < |q.silences|
                        && plan[i].end == (q.silences[k].start + q.silences[k].end) / 2.0
                        && plan[i].cut.silence == q.silences[k].end - q.silences[k].start > 0.0
    ensures forall j :: 0 <= j < |d.Speech(bursts)| ==>
              plan[i].end < d.Speech(bursts)[j].start || d.Speech(bursts)[j].end < plan[i].end
  {
    var speech := d.Speech(bursts);
    var length := EffectiveDuration(d, q.duration);
    SpeechInOrder(d, bursts);
    SilenceOrdered(speech, 0.0, length);
    PlanGuarantees.CutKinds(q, plan, i);
    var k :| 0 <= k < |q.silences|
             && plan[i].end == (q.silences[k].start + q.silences[k].end) / 2.0
             && plan[i].cut.silence == q.silences[k].end - q.silences[k].start;
    forall j | 0 <= j < |speech|
      ensures plan[i].end < speech[j].start || speech[j].end < plan[i].end
    {
      InsideSilenceOutsideSpeech(speech, length, k, plan[i].end, j);
    }
  }

  /** The silence handed to the planner determines the detected speech, up to the end of what probe and
      decoder vouch for: its own silence is that speech. With the whole decoded length nothing is cut. */
  lemma SilenceDeterminesSpeech(d: Detection, duration: real, bursts: seq<Burst>, silence: seq<Interval>)
    requires d.count > 0 && duration > 0.0 && IsSilenceOf(d, duration, bursts, silence)
    ensures var length := EffectiveDuration(d, duration);
            && Complement(silence, 0.0, length) == Clip(d.Speech(bursts), length)
            && (d.Aligned() && InSeconds(d.count) <= duration ==> Clip(d.Speech(bursts), length) == d.Speech(bursts))
  {
    var s, length := d.Speech(bursts), EffectiveDuration(d, duration);
    var e := DetectedSeparated(d, bursts);
    ComplementTwiceClips(s, e, length);
    if d.Aligned() && InSeconds(d.count) <= duration {
      ClipWhole(s, length);
    }
  }

  lemma DetectedSeparated(d: Detection, bursts: seq<Burst>) returns (e: real)
    requires d.count > 0 && d.IsSegmentation(bursts)
    ensures var s := d.Speech(bursts);
            && Separated(s, 0.0, e) && SortedStarts(s)
            && (d.Aligned() ==> forall i :: 0 <= i < |s| ==> s[i].start < s[i].end <= InSeconds(d.count))
  {
    var s := d.Speech(bursts);
    SpeechInOrder(d, bursts);
    e := if s == [] then 0.0 else s[|s| - 1].end;
    assert forall i, j :: 0 <= i < j < |s| ==> s[i].end < s[j].start;
    SpeechSeparated(s, e);
  }

  lemma SpeechSeparated(s: seq<Interval>, d: real)
    requires forall i :: 0 <= i < |s| ==> 0.0 <= s[i].start < s[i].end <= d
    requires forall i, j :: 0 <= i < j < |s| ==> s[i].end < s[j].start
    ensures Separated(s, 0.0, d)
  {
    if s != [] {
      RestSeparated(s[1..], s[0].end, d);
    }
  }

  lemma {:induction false} RestSeparated(s: seq<Interval>, after: real, d: real)
    requires forall i :: 0 <= i < |s| ==> after < s[i].start < s[i].end <= d
    requires forall i, j :: 0 <= i < j < |s| ==> s[i].end < s[j].start
    ensures SeparatedAfter(s, after, d)
  {
    if s != [] {
      RestSeparated(s[1..], s[0].end, d);
    }
  }
}

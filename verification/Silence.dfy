/** Silence as the complement of detected speech within the audio. */
module Silence {
  import opened Prelude

  /** The silence from `cursor` on. */
  function Complement(speech: seq<Interval>, cursor: real, d: real): seq<Interval> {
    if speech == [] then
      if cursor < d then [Interval(cursor, d)] else []
    else
      var start := MinR(d, MaxR(cursor, speech[0].start));
      var end := MinR(d, MaxR(start, speech[0].end));
      (if start > cursor then [Interval(cursor, start)] else []) + Complement(speech[1..], MaxR(cursor, end), d)
  }

  method SpeechToSilenceIntervals(speech: seq<Interval>, duration: real) returns (silence: seq<Interval>)
    ensures silence == if duration <= 0.0 then [] else Complement(speech, 0.0, duration)
  {
    if duration <= 0.0 {
      return [];
    }
    silence := [];
    var cursor := 0.0;
    for i := 0 to |speech|
      invariant Complement(speech, 0.0, duration) == silence + Complement(speech[i..], cursor, duration)
    {
      var start := MinR(duration, MaxR(cursor, speech[i].start));
      var end := MinR(duration, MaxR(start, speech[i].end));
      assert speech[i..][1..] == speech[i + 1..];
      if start > cursor {
        silence := silence + [Interval(cursor, start)];
      }
      cursor := MaxR(cursor, end);
    }
    if cursor < duration {
      silence := silence + [Interval(cursor, duration)];
    }
  }

  ghost predicate Covers(s: seq<Interval>, t: real) {
    exists i :: 0 <= i < |s| && s[i].start <= t < s[i].end
  }

  ghost predicate SortedStarts(s: seq<Interval>) {
    forall i, j :: 0 <= i < j < |s| ==> s[i].start <= s[j].start
  }

  /** Positive intervals inside [from, d], each ending before the next one starts. */
  predicate Separated(s: seq<Interval>, from: real, d: real) {
    s == [] || (from <= s[0].start < s[0].end <= d && SeparatedAfter(s[1..], s[0].end, d))
  }

  predicate SeparatedAfter(s: seq<Interval>, after: real, d: real) {
    s == [] || (after < s[0].start < s[0].end <= d && SeparatedAfter(s[1..], s[0].end, d))
  }

  function Total(s: seq<Interval>): real {
    if s == [] then 0.0 else s[0].end - s[0].start + Total(s[1..])
  }

  ghost predicate Ordered(s: seq<Interval>, from: real, d: real) {
    && (forall i :: 0 <= i < |s| ==> from <= s[i].start < s[i].end <= d)
    && (forall i, j :: 0 <= i < j < |s| ==> s[i].end <= s[j].start)
  }

  lemma OrderedPrepend(x: Interval, rest: seq<Interval>, from: real, after: real, d: real)
    requires from <= x.start < x.end <= d && x.end <= after && Ordered(rest, after, d)
    ensures Ordered([x] + rest, from, d)
  {
  }

  /** Whatever the detector reports, silence comes out ordered, positive and inside the audio. */
  lemma {:induction false} SilenceOrdered(speech: seq<Interval>, cursor: real, d: real)
    ensures Ordered(Complement(speech, cursor, d), cursor, d)
  {
    if speech == [] {
    } else {
      var start := MinR(d, MaxR(cursor, speech[0].start));
      var end := MinR(d, MaxR(start, speech[0].end));
      var rest := Complement(speech[1..], MaxR(cursor, end), d);
      SilenceOrdered(speech[1..], MaxR(cursor, end), d);
      if start > cursor {
        OrderedPrepend(Interval(cursor, start), rest, cursor, MaxR(cursor, end), d);
        assert Complement(speech, cursor, d) == [Interval(cursor, start)] + rest;
      } else {
        assert Complement(speech, cursor, d) == rest;
      }
    }
  }

  lemma CoversConcat(a: seq<Interval>, b: seq<Interval>, t: real)
    ensures Covers(a + b, t) <==> Covers(a, t) || Covers(b, t)
  {
    var s := a + b;
    if Covers(a, t) {
      var i :| 0 <= i < |a| && a[i].start <= t < a[i].end;
      assert s[i] == a[i];
    }
    if Covers(b, t) {
      var i :| 0 <= i < |b| && b[i].start <= t < b[i].end;
      assert s[|a| + i] == b[i];
    }
  }

  /** Every instant is silent exactly when no speech covers it, also for overlapping or empty speech
      intervals, as long as they are in order of their starts. */
  lemma {:induction false} SilenceTiles(speech: seq<Interval>, cursor: real, d: real, t: real)
    requires SortedStarts(speech)
    requires cursor <= t < d
    ensures Covers(Complement(speech, cursor, d), t) <==> !Covers(speech, t)
  {
    if speech == [] {
      assert Complement(speech, cursor, d)[0] == Interval(cursor, d);
    } else {
      var start := MinR(d, MaxR(cursor, speech[0].start));
      var end := MinR(d, MaxR(start, speech[0].end));
      var head := if start > cursor then [Interval(cursor, start)] else [];
      var rest := Complement(speech[1..], MaxR(cursor, end), d);
      assert Complement(speech, cursor, d) == head + rest;
      CoversConcat(head, rest, t);
      CoversConcat([speech[0]], speech[1..], t);
      assert [speech[0]] + speech[1..] == speech;
      assert Covers([speech[0]], t) <==> speech[0].start <= t < speech[0].end by {
        assert [speech[0]][0] == speech[0];
      }
      assert Covers(head, t) <==> t < start by {
        if start > cursor {
          assert head[0] == Interval(cursor, start);
        }
      }
      SilenceOrdered(speech[1..], MaxR(cursor, end), d);
      if t >= MaxR(cursor, end) {
        SilenceTiles(speech[1..], MaxR(cursor, end), d, t);
      } else {
        assert !Covers(rest, t);
        if t < start {
          assert forall i :: 0 <= i < |speech| ==> t < speech[i].start;
          assert !Covers(speech, t);
        }
      }
    }
  }

  /** Speech and silence lengths add up to the audio. */
  lemma {:induction false} LengthsAddUp(speech: seq<Interval>, cursor: real, d: real)
    requires Separated(speech, cursor, d) && cursor <= d
    ensures Total(speech) + Total(Complement(speech, cursor, d)) == d - cursor
  {
    if speech == [] {
      assert cursor < d ==> Complement(speech, cursor, d)[1..] == [];
    } else {
      var a, b := speech[0].start, speech[0].end;
      assert Separated(speech[1..], b, d);
      LengthsAddUp(speech[1..], b, d);
      if a > cursor {
        assert ([Interval(cursor, a)] + Complement(speech[1..], b, d))[1..] == Complement(speech[1..], b, d);
      } else {
        assert [] + Complement(speech[1..], b, d) == Complement(speech[1..], b, d);
      }
    }
  }

  lemma {:induction false} ComplementAgain(speech: seq<Interval>, a: real, b: real, d: real)
    requires a < b <= d && SeparatedAfter(speech, b, d)
    ensures Complement(Complement(speech, b, d), a, d) == [Interval(a, b)] + speech
  {
    if speech == [] {
      if b < d {
        assert [Interval(b, d)][1..] == [];
      }
    } else {
      var first := speech[0];
      var rest := Complement(speech[1..], first.end, d);
      ComplementAgain(speech[1..], first.start, first.end, d);
      assert Complement(speech, b, d) == [Interval(b, first.start)] + rest;
      assert ([Interval(b, first.start)] + rest)[1..] == rest;
      assert speech == [first] + speech[1..];
    }
  }

  /** Taking the complement twice gives back separated speech. */
  lemma ComplementTwice(speech: seq<Interval>, d: real)
    requires d > 0.0 && Separated(speech, 0.0, d)
    ensures Complement(Complement(speech, 0.0, d), 0.0, d) == speech
  {
    if speech == [] {
      assert [Interval(0.0, d)][1..] == [];
    } else {
      var first := speech[0];
      var rest := Complement(speech[1..], first.end, d);
      ComplementAgain(speech[1..], first.start, first.end, d);
      assert speech == [first] + speech[1..];
      if first.start > 0.0 {
        assert Complement(speech, 0.0, d) == [Interval(0.0, first.start)] + rest;
        assert ([Interval(0.0, first.start)] + rest)[1..] == rest;
      } else {
        assert [] + rest == rest;
      }
    }
  }

  /** The part of each interval before `d`. */
  function Clip(speech: seq<Interval>, d: real): seq<Interval> {
    if speech == [] || speech[0].start >= d then []
    else [Interval(speech[0].start, MinR(d, speech[0].end))] + Clip(speech[1..], d)
  }

  lemma {:induction false} NothingAfter(speech: seq<Interval>, cursor: real, d: real)
    requires SortedStarts(speech) && (speech != [] ==> d <= speech[0].start) && cursor <= d
    ensures Complement(speech, cursor, d) == Complement([], cursor, d)
  {
    if speech == [] {
    } else {
      assert forall i :: 0 <= i < |speech[1..]| ==> speech[1..][i] == speech[i + 1];
      NothingAfter(speech[1..], d, d);
      assert [] + Complement(speech[1..], d, d) == [];
    }
  }

  /** Only the speech before the end matters to the silence. */
  lemma {:induction false} ComplementOfClip(speech: seq<Interval>, cursor: real, d: real)
    requires SortedStarts(speech) && cursor <= d
    ensures Complement(speech, cursor, d) == Complement(Clip(speech, d), cursor, d)
  {
    if speech == [] {
    } else if speech[0].start >= d {
      NothingAfter(speech, cursor, d);
    } else {
      var rest := Clip(speech[1..], d);
      var start := MinR(d, MaxR(cursor, speech[0].start));
      var end := MinR(d, MaxR(start, speech[0].end));
      assert forall i :: 0 <= i < |speech[1..]| ==> speech[1..][i] == speech[i + 1];
      ComplementOfClip(speech[1..], MaxR(cursor, end), d);
      assert Clip(speech, d)[1..] == rest;
    }
  }

  lemma {:induction false} ClipSeparatedAfter(speech: seq<Interval>, after: real, e: real, d: real)
    requires SeparatedAfter(speech, after, e)
    ensures SeparatedAfter(Clip(speech, d), after, d)
  {
    if speech == [] || speech[0].start >= d {
    } else {
      var x := speech[0];
      var rest := Clip(speech[1..], d);
      ClipSeparatedAfter(speech[1..], x.end, e, d);
      assert Clip(speech, d)[1..] == rest;
      if x.end >= d {
        assert speech[1..] == [] || speech[1..][0].start > d;
        assert rest == [];
      }
    }
  }

  lemma {:induction false} ClipSeparated(speech: seq<Interval>, e: real, d: real)
    requires Separated(speech, 0.0, e)
    ensures Separated(Clip(speech, d), 0.0, d)
  {
    if speech == [] || speech[0].start >= d {
    } else {
      var x := speech[0];
      var rest := Clip(speech[1..], d);
      ClipSeparatedAfter(speech[1..], x.end, e, d);
      assert Clip(speech, d)[1..] == rest;
      if x.end >= d {
        assert speech[1..] == [] || speech[1..][0].start > d;
        assert rest == [];
      }
    }
  }

  lemma {:induction false} ClipWhole(speech: seq<Interval>, d: real)
    requires forall i :: 0 <= i < |speech| ==> speech[i].start < speech[i].end <= d
    ensures Clip(speech, d) == speech
  {
    if speech == [] {
    } else {
      assert forall i :: 0 <= i < |speech[1..]| ==> speech[1..][i] == speech[i + 1];
      ClipWhole(speech[1..], d);
      assert speech == [speech[0]] + speech[1..];
    }
  }

  /** Taking the complement twice within `d` gives back the part of separated speech before `d`. */
  lemma ComplementTwiceClips(speech: seq<Interval>, e: real, d: real)
    requires d > 0.0 && Separated(speech, 0.0, e) && SortedStarts(speech)
    ensures Complement(Complement(speech, 0.0, d), 0.0, d) == Clip(speech, d)
  {
    ComplementOfClip(speech, 0.0, d);
    ClipSeparated(speech, e, d);
    ComplementTwice(Clip(speech, d), d);
  }
}

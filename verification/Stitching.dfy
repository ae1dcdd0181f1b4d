/** Merging the transcripts of overlapping chunks, with formatting off. */
module Stitching {
  import opened Prelude
  import opened Folding
  import opened Overlap
  import opened ChunkPlanner

  datatype Policy = Off | Preferred | Required

  /** A segment as the provider returns it, in seconds from the start of its chunk. */
  datatype ProviderSegment = ProviderSegment(start: real, end: real, text: Text)

  datatype ChunkResult = ChunkResult(fullText: Text, segments: seq<ProviderSegment>)

  /** A segment on the timeline of the whole audio. */
  datatype Segment = Segment(index: nat, start: real, end: real, text: Text)

  datatype Transcript = Transcript(fullText: Text, segments: seq<Segment>)

  const CONTEXT_CHARACTERS := 8000
  const TIMESTAMP_TOLERANCE := 0.75

  function Join(separator: Text, parts: seq<Text>): Text {
    if parts == [] then []
    else if |parts| == 1 then parts[0]
    else Join(separator, parts[..|parts| - 1]) + separator + parts[|parts| - 1]
  }

  // ---------------------------------------------------------------------------------------------
  // Full text
  // ---------------------------------------------------------------------------------------------

  /** The parts of the full text so far, and the end of it that the next chunk is compared with. */
  datatype TextState = TextState(parts: seq<Text>, context: Text)

  function LastCharacters(s: Text, n: nat): Text {
    if |s| <= n then s else LastCharacters(s[1..], n)
  }

  lemma {:induction false} LastCharactersIsSlice(s: Text, n: nat)
    requires |s| > n
    ensures LastCharacters(s, n) == s[|s| - n..]
  {
    if |s| - 1 > n {
      LastCharactersIsSlice(s[1..], n);
    }
  }

  function Contribution(st: TextState, fullText: Text): Trimmed {
    var raw := Strip(fullText);
    if st.parts != [] then Overlapping(st.context, raw) else Trimmed(raw, 0, |Fold(raw)|)
  }

  function AddText(st: TextState, text: Text): TextState {
    if text == [] then st
    else TextState(st.parts + [text], LStrip(LastCharacters(st.context + [NEWLINE] + text, CONTEXT_CHARACTERS)))
  }

  function Stitch(results: seq<ChunkResult>, n: nat): TextState
    requires n <= |results|
  {
    if n == 0 then TextState([], []) else
    var st := Stitch(results, n - 1);
    AddText(st, Contribution(st, results[n - 1].fullText).text)
  }

  function FullText(results: seq<ChunkResult>, n: nat): Text
    requires n <= |results|
  {
    Join([NEWLINE], Stitch(results, n).parts)
  }

  // ---------------------------------------------------------------------------------------------
  // Timeline
  // ---------------------------------------------------------------------------------------------

  function NonOverlapStart(chunks: seq<Chunk>, i: nat): real
    requires i < |chunks|
  {
    if i > 0 then chunks[i - 1].end else chunks[i].start
  }

  function StrippedTexts(segs: seq<ProviderSegment>): seq<Text> {
    seq(|segs|, i requires 0 <= i < |segs| => Strip(segs[i].text))
  }

  /** How many folded characters of the chunk's segments repeat the previous text. */
  function OverlapCharacters(chunks: seq<Chunk>, i: nat, previous: Text, segs: seq<ProviderSegment>): nat
    requires i < |chunks| && segs != []
  {
    var limit := NonOverlapStart(chunks, i);
    var overlap := MaxR(0.0, limit - chunks[i].start);
    if i > 0 && chunks[i].start + segs[0].start < limit + MinR(overlap, TIMESTAMP_TOLERANCE)
    then Overlapping(previous, Join([SPACE], StrippedTexts(segs))).removed
    else 0
  }

  /** A start moved towards the end in proportion to the characters removed. */
  function Proportional(start: real, end: real, removed: nat, total: nat): real
    requires total > 0
  {
    start + (end - start) * removed as real / total as real
  }

  function Shifted(start: real, end: real, t: Trimmed): real {
    if t.removed != 0 && t.total != 0 then Proportional(start, end, t.removed, t.total) else start
  }

  /** Where a provider segment falls on the timeline, and its text, without `overlap` characters. */
  datatype Placed = Placed(start: real, end: real, text: Trimmed)

  function Place(c: Chunk, limit: real, overlap: int, s: ProviderSegment): Placed {
    var end := MinR(c.end, c.start + s.end);
    var text := TrimLeading(Strip(s.text), overlap);
    Placed(MaxR(limit, Shifted(c.start + s.start, end, text)), end, text)
  }

  predicate Keeps(p: Placed, limit: real) {
    p.end > limit && p.end > p.start && p.text.text != []
  }

  /** The overlap characters still to be removed, and the timeline so far. */
  datatype Progress = Progress(remaining: int, timeline: seq<Segment>)

  function Append(timeline: seq<Segment>, start: real, end: real, text: Text): seq<Segment> {
    timeline + [Segment(|timeline|, start, end, text)]
  }

  function AddSegment(c: Chunk, limit: real, done: Progress, s: ProviderSegment): Progress {
    var p := Place(c, limit, done.remaining, s);
    Progress(done.remaining - p.text.removed,
             if Keeps(p, limit) then Append(done.timeline, p.start, p.end, p.text.text) else done.timeline)
  }

  /** The timeline after the first `n` segments of a chunk. */
  function AddSegments(c: Chunk, limit: real, overlap: int, segs: seq<ProviderSegment>, n: nat,
                       before: seq<Segment>): Progress
    requires n <= |segs|
  {
    if n == 0 then Progress(overlap, before)
    else AddSegment(c, limit, AddSegments(c, limit, overlap, segs, n - 1, before), segs[n - 1])
  }

  function AddChunk(chunks: seq<Chunk>, i: nat, st: TextState, result: ChunkResult, policy: Policy,
                    before: seq<Segment>): seq<Segment>
    requires i < |chunks|
  {
    var limit := NonOverlapStart(chunks, i);
    if policy.Off? then before
    else if result.segments != [] then
      var overlap := OverlapCharacters(chunks, i, st.context, result.segments);
      AddSegments(chunks[i], limit, overlap, result.segments, |result.segments|, before).timeline
    else
      var text := Contribution(st, result.fullText).text;
      if text != [] then Append(before, limit, chunks[i].end, text) else before
  }

  function Timeline(chunks: seq<Chunk>, results: seq<ChunkResult>, policy: Policy, n: nat): seq<Segment>
    requires n <= |chunks| == |results|
  {
    if n == 0 then [] else
    AddChunk(chunks, n - 1, Stitch(results, n - 1), results[n - 1], policy,
             Timeline(chunks, results, policy, n - 1))
  }

  /** Text and timeline after the first `n` chunks. */
  predicate MergedUpTo(chunks: seq<Chunk>, results: seq<ChunkResult>, policy: Policy, n: nat, st: TextState,
                       segments: seq<Segment>)
    requires n <= |chunks| == |results|
  {
    && st.parts == Stitch(results, n).parts && st.context == Stitch(results, n).context
    && segments == Timeline(chunks, results, policy, n)
  }

  lemma {:induction false} StitchNext(results: seq<ChunkResult>, i: nat, n: nat)
    requires i < n == i + 1 <= |results|
    ensures var st := Stitch(results, i);
            Stitch(results, n) == AddText(st, Contribution(st, results[i].fullText).text)
  {
  }

  lemma {:induction false} TimelineNext(chunks: seq<Chunk>, results: seq<ChunkResult>, policy: Policy, i: nat, n: nat)
    requires i < n == i + 1 <= |chunks| == |results|
    ensures Timeline(chunks, results, policy, n)
         == AddChunk(chunks, i, Stitch(results, i), results[i], policy, Timeline(chunks, results, policy, i))
  {
  }

  lemma {:induction false} MergedNext(chunks: seq<Chunk>, results: seq<ChunkResult>, policy: Policy, i: nat, n: nat,
                                      st: TextState, before: seq<Segment>, after: seq<Segment>)
    requires i < n == i + 1 <= |chunks| == |results|
    requires MergedUpTo(chunks, results, policy, i, st, before)
    requires after == AddChunk(chunks, i, st, results[i], policy, before)
    ensures MergedUpTo(chunks, results, policy, n, AddText(st, Contribution(st, results[i].fullText).text), after)
  {
    assert st == Stitch(results, i);
    StitchNext(results, i, n);
    TimelineNext(chunks, results, policy, i, n);
  }

  // ---------------------------------------------------------------------------------------------
  // The merge
  // ---------------------------------------------------------------------------------------------

  method MergeChunkResults(chunks: seq<Chunk>, results: seq<ChunkResult>, policy: Policy)
    returns (t: Transcript)
    requires |chunks| == |results|
    ensures t.fullText == FullText(results, |results|)
    ensures t.segments == Timeline(chunks, results, policy, |chunks|)
  {
    var textParts: seq<Text> := [];
    var textContext := [];
    var segments: seq<Segment> := [];
    for i := 0 to |chunks|
      invariant MergedUpTo(chunks, results, policy, i, TextState(textParts, textContext), segments)
    {
      ghost var st, before := TextState(textParts, textContext), segments;
      textParts, textContext, segments := MergeChunk(chunks, i, results[i], policy, textParts, textContext, segments);
      MergedNext(chunks, results, policy, i, i + 1, st, before, segments);
    }
    var fullText := JoinParts(textParts);
    t := Transcript(fullText, segments);
  }

  /** The body of the loop over the chunks. */
  method MergeChunk(chunks: seq<Chunk>, i: nat, result: ChunkResult, policy: Policy, parts: seq<Text>, context: Text,
                    before: seq<Segment>)
    returns (textParts: seq<Text>, textContext: Text, segments: seq<Segment>)
    requires i < |chunks|
    ensures var st := TextState(parts, context);
            && TextState(textParts, textContext) == AddText(st, Contribution(st, result.fullText).text)
            && segments == AddChunk(chunks, i, st, result, policy, before)
  {
    var text;
    textParts, textContext, text := MergeText(parts, context, result.fullText);
    segments := MergeTimeline(chunks, i, context, text, result, policy, before, TextState(parts, context));
  }

  /** What one chunk adds to the timeline. */
  method MergeTimeline(chunks: seq<Chunk>, i: nat, previousText: Text, text: Text, result: ChunkResult, policy: Policy,
                       before: seq<Segment>, ghost st: TextState)
    returns (segments: seq<Segment>)
    requires i < |chunks| && previousText == st.context && text == Contribution(st, result.fullText).text
    ensures segments == AddChunk(chunks, i, st, result, policy, before)
  {
    segments := before;
    if policy.Off? {
      return;
    }
    var nonOverlapStart := NonOverlapStart(chunks, i);
    if result.segments != [] {
      segments := MergeSegments(chunks, i, previousText, result.segments, segments);
    } else if text != [] {
      segments := Append(segments, nonOverlapStart, chunks[i].end, text);
    }
  }

  method MergeText(parts: seq<Text>, context: Text, fullText: Text)
    returns (textParts: seq<Text>, textContext: Text, text: Text)
    ensures text == Contribution(TextState(parts, context), fullText).text
    ensures TextState(textParts, textContext) == AddText(TextState(parts, context), text)
  {
    textParts, textContext := parts, context;
    var rawText := Strip(fullText);
    text := rawText;
    if textParts != [] {
      var trimmed := TrimOverlap(context, rawText);
      text := trimmed.text;
    }
    if text != [] {
      textParts := textParts + [text];
      var extended := textContext + [NEWLINE] + text;
      if |extended| > CONTEXT_CHARACTERS {
        LastCharactersIsSlice(extended, CONTEXT_CHARACTERS);
        extended := extended[|extended| - CONTEXT_CHARACTERS..];
      }
      textContext := LStrip(extended);
    }
  }

  method JoinParts(textParts: seq<Text>) returns (fullText: Text)
    ensures fullText == Join([NEWLINE], textParts)
  {
    fullText := [];
    if textParts != [] {
      fullText := textParts[0];
      for k := 1 to |textParts|
        invariant fullText == Join([NEWLINE], textParts[..k])
      {
        assert textParts[..k + 1][..k] == textParts[..k];
        fullText := fullText + [NEWLINE] + textParts[k];
      }
      assert textParts[..|textParts|] == textParts;
    }
  }

  /** The segments of one chunk, appended to those of the chunks before it. */
  method MergeSegments(chunks: seq<Chunk>, i: nat, previousText: Text, segs: seq<ProviderSegment>, before: seq<Segment>)
    returns (segments: seq<Segment>)
    requires i < |chunks| && segs != []
    ensures segments == AddSegments(chunks[i], NonOverlapStart(chunks, i),
                                    OverlapCharacters(chunks, i, previousText, segs), segs, |segs|, before).timeline
  {
    var chunk := chunks[i];
    var nonOverlapStart := NonOverlapStart(chunks, i);
    var overlapCharacters: int := CountOverlapCharacters(chunks, i, previousText, segs);
    ghost var overlap := overlapCharacters;

    segments := before;
    for k := 0 to |segs|
      invariant Progress(overlapCharacters, segments)
             == AddSegments(chunk, nonOverlapStart, overlap, segs, k, before)
    {
      overlapCharacters, segments := MergeSegment(chunk, nonOverlapStart, overlapCharacters, segs[k], segments);
    }
  }

  method MergeSegment(chunk: Chunk, nonOverlapStart: real, overlapCharacters: int, segment: ProviderSegment,
                      before: seq<Segment>)
    returns (remaining: int, segments: seq<Segment>)
    ensures Progress(remaining, segments)
         == AddSegment(chunk, nonOverlapStart, Progress(overlapCharacters, before), segment)
  {
    segments := before;
    var rawStart := chunk.start + segment.start;
    var end := MinR(chunk.end, chunk.start + segment.end);
    var trimmed := TrimLeadingCharacters(Strip(segment.text), overlapCharacters);
    remaining := overlapCharacters - trimmed.removed;
    if trimmed.removed != 0 && trimmed.total != 0 {
      rawStart := Proportional(rawStart, end, trimmed.removed, trimmed.total);
    }
    if end <= nonOverlapStart {
      return;
    }
    var start := MaxR(nonOverlapStart, rawStart);
    if end <= start {
      return;
    }
    if trimmed.text == [] {
      return;
    }
    segments := Append(segments, start, end, trimmed.text);
  }

  method CountOverlapCharacters(chunks: seq<Chunk>, i: nat, previousText: Text, segs: seq<ProviderSegment>)
    returns (overlapCharacters: nat)
    requires i < |chunks| && segs != []
    ensures overlapCharacters == OverlapCharacters(chunks, i, previousText, segs)
  {
    overlapCharacters := 0;
    var nonOverlapStart := NonOverlapStart(chunks, i);
    var overlapDuration := MaxR(0.0, nonOverlapStart - chunks[i].start);
    var firstSegmentStart := chunks[i].start + segs[0].start;
    var deduplicationEnd := nonOverlapStart + MinR(overlapDuration, TIMESTAMP_TOLERANCE);
    if i > 0 && firstSegmentStart < deduplicationEnd {
      var trimmed := TrimOverlap(previousText, Join([SPACE], StrippedTexts(segs)));
      overlapCharacters := trimmed.removed;
    }
  }
}

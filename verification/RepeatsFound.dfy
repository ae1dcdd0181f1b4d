/** The text that a chunk repeats is looked for, found and removed. */
module RepeatsFound {
  import opened Prelude
  import opened Folding
  import opened Overlap
  import opened ChunkPlanner
  import opened Stitching
  import opened NoWordsLost

  // ---------------------------------------------------------------------------------------------
  // The context is the end of the full text
  // ---------------------------------------------------------------------------------------------

  lemma {:induction false} LastDropsFront(a: Text, s: Text, n: nat)
    requires |s| >= n
    ensures LastCharacters(a + s, n) == LastCharacters(s, n)
  {
    if a == [] {
      assert a + s == s;
    } else {
      assert (a + s)[1..] == a[1..] + s;
      LastDropsFront(a[1..], s, n);
    }
  }

  lemma {:induction false} LastOfLast(a: Text, b: Text, n: nat)
    ensures LastCharacters(a + b, n) == LastCharacters(LastCharacters(a, n) + b, n)
  {
    if |a| > n {
      assert (a + b)[1..] == a[1..] + b;
      LastOfLast(a[1..], b, n);
    }
  }

  /** White space in front of a text does not show in the stripped end of it. */
  lemma {:induction false} SpaceInFront(front: Text, s: Text, n: nat)
    requires forall i :: 0 <= i < |front| ==> front[i].space
    ensures LStrip(LastCharacters(front + s, n)) == LStrip(LastCharacters(s, n))
  {
    if front == [] {
      assert front + s == s;
    } else {
      assert (front + s)[1..] == front[1..] + s && (front + s)[0] == front[0];
      SpaceInFront(front[1..], s, n);
    }
  }

  /** The end of a text that the next chunk is compared with. */
  function Tail(full: Text): Text {
    LStrip(LastCharacters(full, 8000))
  }

  lemma {:induction false} SliceOfSlice(s: Text, m: nat, front: Text, rest: Text)
    requires m <= |s| && s[m..] == front + rest
    ensures rest == s[m + |front|..] && forall i :: 0 <= i < |front| ==> front[i] == s[m + i]
  {
    assert rest == s[m..][|front|..];
    assert forall i :: 0 <= i < |front| ==> front[i] == s[m..][i];
  }

  /** It is what stands after the last 8000 characters' leading white space, and the whole of a stripped text
      that is not longer. */
  lemma {:induction false} TailExactly(full: Text) returns (k: nat)
    ensures k <= |full| && Tail(full) == full[k..] && |full| - k <= 8000
    ensures Tail(full) != [] ==> !Tail(full)[0].space
    ensures forall i :: 0 <= i < k && |full| - 8000 <= i ==> full[i].space
    ensures |full| <= 8000 && (full == [] || !full[0].space) ==> Tail(full) == full
  {
    var last := LastCharacters(full, 8000);
    var front := DropLeadingFacts(last, false);
    if |full| > 8000 {
      LastCharactersIsSlice(full, 8000);
      k := |full| - 8000 + |front|;
      SliceOfSlice(full, |full| - 8000, front, Tail(full));
    } else {
      k := |front|;
    }
  }

  lemma {:induction false} TailLonger(full: Text, text: Text)
    ensures Tail(full + [NEWLINE] + text) == LStrip(LastCharacters(Tail(full) + [NEWLINE] + text, 8000))
  {
    var last, added := LastCharacters(full, 8000), [NEWLINE] + text;
    LastOfLast(full, added, 8000);
    var front := DropLeadingFacts(last, false);
    assert full + [NEWLINE] + text == full + added;
    assert last + added == front + (Tail(full) + added);
    assert Tail(full) + added == Tail(full) + [NEWLINE] + text;
    SpaceInFront(front, Tail(full) + added, 8000);
  }

  lemma {:induction false} TailOfFirst(text: Text)
    ensures LStrip(LastCharacters([] + [NEWLINE] + text, 8000)) == Tail(text)
  {
    assert [] + [NEWLINE] + text == [NEWLINE] + text;
    SpaceInFront([NEWLINE], text, 8000);
  }

  lemma {:induction false} JoinGrows(parts: seq<Text>, text: Text)
    ensures Join([NEWLINE], parts + [text]) ==
            if parts == [] then text else Join([NEWLINE], parts) + [NEWLINE] + text
  {
    assert (parts + [text])[..|parts|] == parts;
  }

  /** The full text after one more chunk: the chunk's remaining text on a new line, if there is any. */
  lemma {:induction false} FullTextGrows(results: seq<ChunkResult>, i: nat, n: nat)
    requires i < n == i + 1 <= |results|
    ensures var text := Contribution(Stitch(results, i), results[i].fullText).text;
            && FullText(results, n) == (if text == [] then FullText(results, i)
                                        else if FullText(results, i) == [] then text
                                        else FullText(results, i) + [NEWLINE] + text)
            && (Stitch(results, n).parts == [] <==> FullText(results, n) == [])
  {
    PartsAndText(results, i);
    var st := Stitch(results, i);
    JoinGrows(st.parts, Contribution(st, results[i].fullText).text);
  }

  lemma {:induction false} PartsAndText(results: seq<ChunkResult>, n: nat)
    requires n <= |results|
    ensures Stitch(results, n).parts == [] <==> FullText(results, n) == []
  {
    if n == 0 {
    } else {
      var st := Stitch(results, n - 1);
      PartsAndText(results, n - 1);
      JoinGrows(st.parts, Contribution(st, results[n - 1].fullText).text);
    }
  }

  lemma {:induction false} AddTextKeepsTail(st: TextState, full: Text, text: Text)
    requires st.context == Tail(full)
    ensures AddText(st, text).context ==
            Tail(if text == [] then full else if full == [] then text else full + [NEWLINE] + text)
  {
    TailLonger(full, text);
    TailOfFirst(text);
    assert full == [] ==> Tail(full) == [];
  }

  /** What the next chunk is compared with is the end of the full text so far. */
  lemma {:induction false} ContextIsTail(results: seq<ChunkResult>, n: nat)
    requires n <= |results|
    ensures Stitch(results, n).context == Tail(FullText(results, n))
  {
    if n == 0 {
    } else {
      var i := n - 1;
      ContextIsTail(results, i);
      FullTextGrows(results, i, n);
      var st := Stitch(results, i);
      AddTextKeepsTail(st, FullText(results, i), Contribution(st, results[i].fullText).text);
    }
  }

  lemma {:induction false} FullTextStripped(results: seq<ChunkResult>, n: nat)
    requires n <= |results|
    ensures Stripped(FullText(results, n))
  {
    if n == 0 {
    } else {
      var i := n - 1;
      FullTextStripped(results, i);
      FullTextGrows(results, i, n);
      ContextIsSuffix(results, i);
      ContributionFolds(Stitch(results, i), results[i].fullText);
    }
  }

  // ---------------------------------------------------------------------------------------------
  // What is matched
  // ---------------------------------------------------------------------------------------------

  lemma {:induction false} TailStripped(full: Text)
    requires Stripped(full)
    ensures Stripped(Tail(full))
  {
    var k := TailExactly(full);
  }

  /** The text that chunk `i` repeats is found: what is removed of it is the largest admissible overlap with
      the end of the full text so far, which is the whole full text up to 8000 characters. Nothing is
      removed before there is any text. */
  lemma {:induction false} RepeatFound(results: seq<ChunkResult>, i: nat)
    requires i < |results|
    ensures LargestOverlap(Tail(FullText(results, i)), Strip(results[i].fullText), Matched(results, i))
    ensures |FullText(results, i)| <= 8000 ==> Tail(FullText(results, i)) == FullText(results, i)
    ensures FullText(results, i) == [] ==>
              Contribution(Stitch(results, i), results[i].fullText).text == Strip(results[i].fullText)
  {
    var full, raw := FullText(results, i), Strip(results[i].fullText);
    ContextIsTail(results, i);
    PartsAndText(results, i);
    FullTextStripped(results, i);
    TailStripped(full);
    var k := TailExactly(full);
    StrippedUnchanged(Tail(full));
    StripFacts(results[i].fullText);
    StrippedUnchanged(raw);
    OverlapSizeIsLargest(Tail(full), raw, Matched(results, i));
    if full == [] {
      NothingBefore(raw);
    }
  }

  lemma {:induction false} NothingBefore(current: Text)
    ensures OverlapSize([], current) == 0
  {
    assert Fold([]) == [];
  }

  lemma {:induction false} SegmentsAdded(chunks: seq<Chunk>, results: seq<ChunkResult>, policy: Policy, i: nat, n: nat)
    requires i < n == i + 1 <= |chunks| == |results| && policy != Off && results[i].segments != []
    ensures var segs := results[i].segments;
            Timeline(chunks, results, policy, n) ==
            AddSegments(chunks[i], NonOverlapStart(chunks, i),
                        OverlapCharacters(chunks, i, Stitch(results, i).context, segs), segs, |segs|,
                        Timeline(chunks, results, policy, i)).timeline
  {
  }

  lemma {:induction false} SearchedInTail(results: seq<ChunkResult>, i: nat, joined: Text, count: nat)
    requires i < |results|
    ensures LargestOverlap(Tail(FullText(results, i)), Strip(joined), count) <==>
            count == Overlapping(Stitch(results, i).context, joined).removed
  {
    ContextIsTail(results, i);
    FullTextStripped(results, i);
    TailStripped(FullText(results, i));
    StrippedUnchanged(Tail(FullText(results, i)));
    OverlapSizeIsLargest(Tail(FullText(results, i)), Strip(joined), count);
  }

  /** A chunk with provider segments adds them to the timeline without `count` folded characters at their
      front. That is the largest admissible overlap of their joined texts with the same end of the full text,
      if the first segment starts before the earlier chunk's end or within the tolerance after it; it is zero
      otherwise and for the first chunk. */
  lemma {:induction false} TimelineRepeatFound(chunks: seq<Chunk>, results: seq<ChunkResult>, policy: Policy,
                                               i: nat, n: nat)
    returns (count: nat)
    requires i < n == i + 1 <= |chunks| == |results| && policy != Off && results[i].segments != []
    ensures var segs := results[i].segments;
            var start := if i == 0 then chunks[i].start else chunks[i - 1].end;
            Timeline(chunks, results, policy, n) ==
            AddSegments(chunks[i], start, count, segs, |segs|, Timeline(chunks, results, policy, i)).timeline
    ensures i == 0 ==> count == 0
    ensures i > 0 ==>
              var segs := results[i].segments;
              var before, first := chunks[i - 1].end, chunks[i].start + segs[0].start;
              var width := if before - chunks[i].start <= 0.0 then 0.0
                           else if before - chunks[i].start >= 0.75 then 0.75
                           else before - chunks[i].start;
              if first < before + width
              then LargestOverlap(Tail(FullText(results, i)), Strip(Join([SPACE], StrippedTexts(segs))), count)
              else count == 0
  {
    var segs := results[i].segments;
    count := OverlapCharacters(chunks, i, Stitch(results, i).context, segs);
    SegmentsAdded(chunks, results, policy, i, n);
    SearchedInTail(results, i, Join([SPACE], StrippedTexts(segs)), count);
  }

  // ---------------------------------------------------------------------------------------------
  // What counts as a repeat
  // ---------------------------------------------------------------------------------------------

  predicate Word(c: char) {
    'a' <= c <= 'z' || 'A' <= c <= 'Z' || '0' <= c <= '9' || c == '_'
  }

  /** Source character `a` yields folded character number `j` of the text. */
  ghost predicate Yields(s: Text, a: nat, j: nat) {
    a < |s| && |Fold(s[..a])| <= j < |Fold(s[..a + 1])|
  }

  /** Source characters `i` and `i + 1` do not both belong to an ASCII word. */
  predicate NoWordAcross(s: Text, i: int) {
    0 <= i < |s| - 1 ==> !(Word(s[i].code) && Word(s[i + 1].code))
  }

  /** Folded character number `j` begins, or ends, at a word boundary of the text. */
  ghost predicate BeginsAtBoundary(s: Text, j: nat) {
    forall a: nat :: Yields(s, a, j) ==> NoWordAcross(s, a - 1)
  }

  ghost predicate EndsAtBoundary(s: Text, j: nat) {
    forall a: nat :: Yields(s, a, j) ==> NoWordAcross(s, a)
  }

  /** The last `size` folded characters of the one text are the first `size` of the other; there are between
      2 and 2000 of them, at least 4 if all are ASCII; and they begin and end at word boundaries. */
  ghost predicate Repeats(previous: Text, current: Text, size: nat) {
    && SameRun(Fold(previous), Fold(current), size)
    && BeginsAtBoundary(previous, |Fold(previous)| - size) && EndsAtBoundary(current, size - 1)
  }

  predicate SameRun(p: string, c: string, size: nat) {
    && 2 <= size <= 2000 && size <= |p| && size <= |c|
    && p[|p| - size..] == c[..size]
    && (size >= 4 || exists i :: 0 <= i < size && c[i] as int >= 128)
  }

  lemma {:induction false} YieldsExactly(s: Text, j: nat, a: nat)
    requires j < |Fold(s)|
    ensures Yields(s, a, j) <==> a == SourceIndex(s, j)
  {
    if a < |s| {
      SourceIndexCharacterised(s, j, a);
    }
  }

  lemma {:induction false} BoundariesExactly(s: Text, j: nat)
    requires j < |Fold(s)|
    ensures BeginsAtBoundary(s, j) <==> NoWordAcross(s, SourceIndex(s, j) - 1)
    ensures EndsAtBoundary(s, j) <==> NoWordAcross(s, SourceIndex(s, j))
  {
    forall a: nat
      ensures Yields(s, a, j) <==> a == SourceIndex(s, j)
    {
      YieldsExactly(s, j, a);
    }
    assert Yields(s, SourceIndex(s, j), j);
  }

  lemma {:induction false} SameBoundary(previous: Text, current: Text, a: nat, b: nat)
    requires a < |previous| && b < |current|
    ensures IsOverlapBoundary(previous, current, a, b) <==> NoWordAcross(previous, a - 1) && NoWordAcross(current, b)
  {
  }

  lemma {:induction false} SameRunExactly(p: string, c: string, size: nat)
    ensures SameRun(p, c, size) <==>
            && 2 <= size <= MinI(MinI(|p|, |c|), MAXIMUM_OVERLAP)
            && (size >= 4 || exists i :: 0 <= i < size && !IsAscii(c[i]))
            && Without(p, |p| - size) == c[..size]
  {
    if size <= |p| {
      WithoutIsSlice(p, |p| - size);
    }
    assert forall i :: 0 <= i < |c| ==> (IsAscii(c[i]) <==> c[i] as int < 128);
  }

  lemma {:induction false} AdmissibleExactly(previous: Text, current: Text, size: nat)
    ensures Admissible(previous, current, size) <==> Repeats(previous, current, size)
  {
    SameRunExactly(Fold(previous), Fold(current), size);
    if SameRun(Fold(previous), Fold(current), size) {
      var from, to := |Fold(previous)| - size, size - 1;
      BoundariesExactly(previous, from);
      BoundariesExactly(current, to);
      SameBoundary(previous, current, SourceIndex(previous, from), SourceIndex(current, to));
    }
  }

  /** The overlap found is a repeat or nothing, and no longer repeat was missed. */
  lemma {:induction false} LongestRepeat(previous: Text, current: Text, size: nat)
    ensures LargestOverlap(previous, current, size) <==>
            && (size == 0 || Repeats(previous, current, size))
            && forall k: nat :: k > size ==> !Repeats(previous, current, k)
  {
    AdmissibleExactly(previous, current, size);
    forall k: nat
      ensures Admissible(previous, current, k) <==> Repeats(previous, current, k)
    {
      AdmissibleExactly(previous, current, k);
    }
  }

  /** `cut` stands behind the source character of folded character number `j`, and behind the white space
      and punctuation that follow it. */
  ghost predicate CutBehind(v: Text, j: nat, cut: nat) {
    && cut <= |v|
    && (forall a: nat :: Yields(v, a, j) ==> a < cut && Separators(v, a + 1, cut))
    && (cut < |v| ==> !v[cut].space && !v[cut].punctuation)
  }

  predicate Separators(v: Text, from: int, to: int) {
    0 <= from <= to <= |v| && forall i :: from <= i < to ==> v[i].space || v[i].punctuation
  }

  lemma {:induction false} AfterSeparators(v: Text, a: nat) returns (cut: nat)
    requires a < |v|
    ensures a < cut <= |v| && Separators(v, a + 1, cut) && (cut < |v| ==> !v[cut].space && !v[cut].punctuation)
    ensures SkipSeparators(v[a + 1..]) == v[cut..]
  {
    var rest := v[a + 1..];
    var front := DropLeadingFacts(rest, true);
    cut := a + 1 + |front|;
    assert v[cut..] == rest[|front|..];
    assert forall i :: a + 1 <= i < cut ==> v[i] == rest[i - a - 1] == front[i - a - 1];
    assert cut < |v| ==> v[cut] == SkipSeparators(rest)[0];
  }

  /** What trimming leaves of a stripped text: all of it, nothing, or what stands behind the cut. */
  lemma {:induction false} CutExactly(value: Text, count: int)
    ensures var v, r := Strip(value), TrimLeading(value, count);
            && (count <= 0 ==> r.text == v)
            && (count > 0 && count >= |Fold(v)| && Fold(v) != [] ==> r.text == [])
            && (0 < count < |Fold(v)| ==> exists cut: nat :: CutBehind(v, count - 1, cut) && r.text == v[cut..])
  {
    var v := Strip(value);
    if 0 < count < |Fold(v)| {
      var j := count - 1;
      var a := SourceIndex(v, j);
      forall k: nat
        ensures Yields(v, k, j) <==> k == a
      {
        YieldsExactly(v, j, k);
      }
      AfterFoldedIsSuffix(v, count);
      var cut := AfterSeparators(v, a);
      assert CutBehind(v, j, cut);
    }
  }

  // ---------------------------------------------------------------------------------------------
  // Timelines without provider segments
  // ---------------------------------------------------------------------------------------------

  function Texts(t: seq<Segment>): seq<Text> {
    seq(|t|, i requires 0 <= i < |t| => t[i].text)
  }

  lemma {:induction false} TextsGrow(t: seq<Segment>, s: Segment)
    ensures Texts(t + [s]) == Texts(t) + [s.text]
  {
  }

  /** A chunk for which the provider gave no segments adds one that spans it from the end of the chunk before,
      with the text it adds to the full text, if any. */
  lemma {:induction false} ChunkAsSegment(chunks: seq<Chunk>, results: seq<ChunkResult>, policy: Policy, i: nat, n: nat)
    requires i < n == i + 1 <= |chunks| == |results| && policy != Off && results[i].segments == []
    ensures var text := Contribution(Stitch(results, i), results[i].fullText).text;
            var before := Timeline(chunks, results, policy, i);
            Timeline(chunks, results, policy, n) ==
            if text == [] then before
            else var start := if i == 0 then chunks[i].start else chunks[i - 1].end;
                 before + [Segment(|before|, start, chunks[i].end, text)]
  {
  }

  /** What the chunk adds to the texts of the timeline is what it adds to the full text. */
  lemma {:induction false} ChunkAddsText(chunks: seq<Chunk>, results: seq<ChunkResult>, policy: Policy, i: nat, n: nat)
    requires i < n == i + 1 <= |chunks| == |results| && policy != Off && results[i].segments == []
    ensures var text := Contribution(Stitch(results, i), results[i].fullText).text;
            Texts(Timeline(chunks, results, policy, n)) ==
            Texts(Timeline(chunks, results, policy, i)) + if text == [] then [] else [text]
  {
    ChunkAsSegment(chunks, results, policy, i, n);
    var before, after := Timeline(chunks, results, policy, i), Timeline(chunks, results, policy, n);
    if after != before {
      TextsGrow(before, after[|before|]);
    }
  }

  lemma {:induction false} PartsGrow(results: seq<ChunkResult>, i: nat, n: nat)
    requires i < n == i + 1 <= |results|
    ensures var text := Contribution(Stitch(results, i), results[i].fullText).text;
            Stitch(results, n).parts == Stitch(results, i).parts + if text == [] then [] else [text]
  {
  }

  lemma {:induction false} TimelineTexts(chunks: seq<Chunk>, results: seq<ChunkResult>, policy: Policy, n: nat)
    requires n <= |chunks| == |results| && policy != Off && forall i :: 0 <= i < n ==> results[i].segments == []
    ensures Texts(Timeline(chunks, results, policy, n)) == Stitch(results, n).parts
  {
    if n == 0 {
    } else {
      var i := n - 1;
      TimelineTexts(chunks, results, policy, i);
      ChunkAddsText(chunks, results, policy, i, n);
      PartsGrow(results, i, n);
    }
  }

  lemma {:induction false} NoTimeline(chunks: seq<Chunk>, results: seq<ChunkResult>, n: nat)
    requires n <= |chunks| == |results|
    ensures Timeline(chunks, results, Off, n) == []
  {
    if n == 0 {
    } else {
      NoTimeline(chunks, results, n - 1);
    }
  }

  /** Without provider segments the texts of the timeline are the full text, line by line; without timestamps
      there is no timeline. */
  lemma {:induction false} TimelineSpellsFullText(chunks: seq<Chunk>, results: seq<ChunkResult>, policy: Policy)
    requires |chunks| == |results|
    ensures policy == Off ==> Timeline(chunks, results, policy, |chunks|) == []
    ensures policy != Off && (forall i :: 0 <= i < |results| ==> results[i].segments == []) ==>
              Join([NEWLINE], Texts(Timeline(chunks, results, policy, |chunks|))) == FullText(results, |results|)
  {
    if policy == Off {
      NoTimeline(chunks, results, |chunks|);
    } else if forall i :: 0 <= i < |results| ==> results[i].segments == [] {
      TimelineTexts(chunks, results, policy, |chunks|);
    }
  }
}

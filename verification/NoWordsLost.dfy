/** Stitching keeps every chunk's words. */
module NoWordsLost {
  import opened Prelude
  import opened Folding
  import opened Overlap
  import opened Stitching

  /** The letters and digits of the full text assembled from the first `n` chunks. */
  function Assembled(results: seq<ChunkResult>, n: nat): string
    requires n <= |results|
  {
    Fold(FullText(results, n))
  }

  function Spoken(result: ChunkResult): string {
    Fold(result.fullText)
  }

  /** The overlap found for chunk `i`, in folded characters. */
  function Matched(results: seq<ChunkResult>, i: nat): nat
    requires i < |results|
  {
    Contribution(Stitch(results, i), results[i].fullText).removed
  }

  lemma {:induction false} FoldJoin(separator: Text, parts: seq<Text>, last: Text)
    requires Fold(separator) == []
    ensures Fold(Join(separator, parts + [last])) == Fold(Join(separator, parts)) + Fold(last)
  {
    if parts == [] {
      assert Fold(Join(separator, parts)) == [];
      assert Join(separator, [] + [last]) == last;
      assert [] + Fold(last) == Fold(last);
    } else {
      var front := Join(separator, parts);
      assert (parts + [last])[..|parts|] == parts;
      FoldConcat(front + separator, last);
      FoldConcat(front, separator);
      assert Fold(front) + [] == Fold(front);
    }
  }

  lemma {:induction false} FoldOfTail(s: Text, n: nat)
    ensures IsSuffix(Fold(LastCharacters(s, n)), Fold(s))
  {
    if |s| > n {
      FoldOfTail(s[1..], n);
      SuffixConcat(s[0].fold, Fold(s[1..]));
      SuffixOfSuffix(Fold(LastCharacters(s, n)), Fold(s[1..]), Fold(s));
    }
  }

  lemma {:induction false} SeparatorsFold()
    ensures Fold([NEWLINE]) == [] && Fold([SPACE]) == []
  {
    FoldOne(NEWLINE);
    FoldOne(SPACE);
  }

  lemma {:induction false} FoldExtended(context: Text, text: Text)
    ensures Fold(context + [NEWLINE] + text) == Fold(context) + Fold(text)
  {
    SeparatorsFold();
    FoldConcat(context + [NEWLINE], text);
    FoldConcat(context, [NEWLINE]);
    assert Fold(context) + [] == Fold(context);
  }

  lemma {:induction false} ContextFolds(context: Text, text: Text)
    ensures IsSuffix(Fold(LStrip(LastCharacters(context + [NEWLINE] + text, CONTEXT_CHARACTERS))),
                     Fold(context) + Fold(text))
  {
    var extended := context + [NEWLINE] + text;
    FoldExtended(context, text);
    FoldOfTail(extended, CONTEXT_CHARACTERS);
    LStripFolds(LastCharacters(extended, CONTEXT_CHARACTERS));
  }

  lemma {:induction false} SuffixOfExtension(c: string, a: string, b: string, t: string)
    requires IsSuffix(a, b) && IsSuffix(c, a + t)
    ensures IsSuffix(c, b + t)
  {
    WithoutConcat(b, t, |b| - |a|);
    SuffixOfSuffix(c, a + t, b + t);
  }

  /** Adding a text appends its letters and digits, and keeps the context the end of the full text. */
  lemma {:induction false} AddTextFolds(st: TextState, text: Text)
    requires IsSuffix(Fold(st.context), Fold(Join([NEWLINE], st.parts)))
    ensures var r := AddText(st, text);
            && Fold(Join([NEWLINE], r.parts)) == Fold(Join([NEWLINE], st.parts)) + Fold(text)
            && IsSuffix(Fold(r.context), Fold(Join([NEWLINE], r.parts)))
  {
    var full := Fold(Join([NEWLINE], st.parts));
    if text == [] {
      assert full + [] == full;
    } else {
      SeparatorsFold();
      FoldJoin([NEWLINE], st.parts, text);
      ContextFolds(st.context, text);
      SuffixOfExtension(Fold(AddText(st, text).context), Fold(st.context), full, Fold(text));
    }
  }

  /** The text a chunk is compared with is always the end of the full text so far. */
  lemma {:induction false} ContextIsSuffix(results: seq<ChunkResult>, n: nat)
    requires n <= |results|
    ensures IsSuffix(Fold(Stitch(results, n).context), Assembled(results, n))
  {
    if n > 0 {
      ContextIsSuffix(results, n - 1);
      var st := Stitch(results, n - 1);
      AddTextFolds(st, Contribution(st, results[n - 1].fullText).text);
    } else {
      EmptySuffix([]);
    }
  }

  lemma {:induction false} ContributionFolds(st: TextState, fullText: Text)
    requires IsSuffix(Fold(st.context), Fold(Join([NEWLINE], st.parts)))
    ensures var c := Contribution(st, fullText);
            && c.removed <= |Fold(fullText)| == |Fold(Strip(fullText))|
            && IsSuffix(Fold(fullText)[..c.removed], Fold(Join([NEWLINE], st.parts)))
            && Fold(c.text) == After(Strip(fullText), c.removed)
            && Stripped(c.text)
  {
    var raw := Strip(fullText);
    StripFacts(fullText);
    if st.parts != [] {
      OverlappingFolds(st.context, raw);
      var matched := Fold(fullText)[..Contribution(st, fullText).removed];
      SuffixOfSuffix(matched, Fold(st.context), Fold(Join([NEWLINE], st.parts)));
    } else {
      EmptySuffix(Fold(Join([NEWLINE], st.parts)));
      assert Fold(fullText)[..0] == [];
    }
  }

  /** Chunk `i` adds exactly what follows its overlap with the text before it. */
  lemma {:induction false} ChunkAdds(results: seq<ChunkResult>, i: nat)
    requires i < |results|
    ensures var spoken, matched := Spoken(results[i]), Matched(results, i);
            && matched <= |spoken| && Fold(Strip(results[i].fullText)) == spoken
            && IsSuffix(spoken[..matched], Assembled(results, i))
            && Assembled(results, i + 1) == Assembled(results, i) + After(Strip(results[i].fullText), matched)
  {
    ContextIsSuffix(results, i);
    StripFacts(results[i].fullText);
    var st := Stitch(results, i);
    ContributionFolds(st, results[i].fullText);
    AddTextFolds(st, Contribution(st, results[i].fullText).text);
  }

  /** How many letters and digits of chunk `i` go missing because they share a source character with
      the end of its overlap. */
  ghost function Lost(results: seq<ChunkResult>, i: nat): nat
    requires i < |results|
  {
    ChunkAdds(results, i);
    Overshoot(Strip(results[i].fullText), Matched(results, i))
  }

  lemma {:induction false} ReplaceOverlap(before: string, spoken: string, matched: nat, taken: nat)
    requires matched <= taken <= |spoken| && IsSuffix(spoken[..matched], before)
    ensures var after := before + Without(spoken, taken);
            && (taken == matched <==> after == before[..|before| - matched] + spoken)
            && (taken == matched ==> IsSuffix(spoken, after))
  {
    var front := before[..|before| - matched];
    WithoutIsSlice(before, |before| - matched);
    WithoutIsSlice(spoken, matched);
    assert before == front + spoken[..matched];
    assert before + spoken[matched..] == front + spoken;
    SuffixConcat(front, spoken);
  }

  /** Chunk `i` replaces the overlap by its own whole text exactly when nothing is lost at the cut; then
      its folded text ends the full text. */
  lemma {:induction false} ChunkKept(results: seq<ChunkResult>, i: nat)
    requires i < |results|
    ensures var before, after := Assembled(results, i), Assembled(results, i + 1);
            var spoken, matched := Spoken(results[i]), Matched(results, i);
            && matched <= |before|
            && |after| == |before| + |spoken| - matched - Lost(results, i)
            && (Lost(results, i) == 0 <==> after == before[..|before| - matched] + spoken)
            && (Lost(results, i) == 0 ==> IsSuffix(spoken, after))
  {
    ChunkAdds(results, i);
    ReplaceOverlap(Assembled(results, i), Spoken(results[i]), Matched(results, i),
                   Matched(results, i) + Lost(results, i));
  }

  lemma {:induction false} SuffixSameEnd(a: string, b: string, t: string)
    ensures IsSuffix(a + t, b + t) <==> IsSuffix(a, b)
  {
    if IsSuffix(a, b) {
      WithoutConcat(b, t, |b| - |a|);
    } else if |a| <= |b| {
      WithoutConcat(b, t, |b| - |a|);
      assert (a + t)[..|a|] == a && (Without(b, |b| - |a|) + t)[..|a|] == Without(b, |b| - |a|);
    }
  }

  /** The letters and digits of chunk `i` that are not added: its overlap and those lost at the cut. */
  ghost function NotAdded(results: seq<ChunkResult>, i: nat): string
    requires i < |results|
  {
    ChunkAdds(results, i);
    Spoken(results[i])[..Matched(results, i) + Lost(results, i)]
  }

  /** The folded text of chunk `i` ends the full text if and only if the full text before it already ends
      with what is not added. */
  lemma {:induction false} ChunkEndsTextExactly(results: seq<ChunkResult>, i: nat)
    requires i < |results|
    ensures IsSuffix(Spoken(results[i]), Assembled(results, i + 1)) <==>
            IsSuffix(NotAdded(results, i), Assembled(results, i))
  {
    ChunkAdds(results, i);
    var spoken, taken := Spoken(results[i]), Matched(results, i) + Lost(results, i);
    WithoutIsSlice(spoken, taken);
    assert spoken == spoken[..taken] + spoken[taken..];
    SuffixSameEnd(spoken[..taken], Assembled(results, i), spoken[taken..]);
  }

  ghost predicate IsPrefix(a: string, b: string) {
    |a| <= |b| && b[..|a|] == a
  }

  lemma {:induction false} PrefixReflexive(a: string)
    ensures IsPrefix(a, a)
  {
    assert a[..|a|] == a;
  }

  lemma {:induction false} PrefixTransitive(a: string, b: string, c: string)
    requires IsPrefix(a, b) && IsPrefix(b, c)
    ensures IsPrefix(a, c)
  {
    assert c[..|b|][..|a|] == c[..|a|];
  }

  lemma {:induction false} AssembledStep(results: seq<ChunkResult>, n: nat)
    requires 0 < n <= |results|
    ensures IsPrefix(Assembled(results, n - 1), Assembled(results, n))
  {
    var i := n - 1;
    ChunkAdds(results, i);
    assert i + 1 == n;
  }

  lemma {:induction false} AssembledGrows(results: seq<ChunkResult>, i: nat, n: nat)
    requires i <= n <= |results|
    ensures IsPrefix(Assembled(results, i), Assembled(results, n))
    decreases n
  {
    if i == n {
      PrefixReflexive(Assembled(results, i));
    } else {
      var m := n - 1;
      AssembledGrows(results, i, m);
      AssembledStep(results, n);
      PrefixTransitive(Assembled(results, i), Assembled(results, m), Assembled(results, n));
    }
  }

  ghost predicate OccursAt(part: string, whole: string, at: int) {
    0 <= at <= |whole| - |part| && whole[at..at + |part|] == part
  }

  lemma {:induction false} SuffixOfPrefix(part: string, prefix: string, whole: string)
    requires IsSuffix(part, prefix) && IsPrefix(prefix, whole)
    ensures OccursAt(part, whole, |prefix| - |part|)
  {
    WithoutIsSlice(prefix, |prefix| - |part|);
    assert whole[|prefix| - |part|..|prefix|] == prefix[|prefix| - |part|..];
  }

  lemma {:induction false} SuffixStays(part: string, results: seq<ChunkResult>, n: nat)
    requires n <= |results| && IsSuffix(part, Assembled(results, n))
    ensures OccursAt(part, Assembled(results, |results|), |Assembled(results, n)| - |part|)
  {
    AssembledGrows(results, n, |results|);
    SuffixOfPrefix(part, Assembled(results, n), Assembled(results, |results|));
  }

  /** A chunk is found whole in the final full text, and in chunk order, when the full text before it ends
      with what is not added: its folded text ends where the text assembled up to it ends. */
  lemma {:induction false} ChunkFoundInFullText(results: seq<ChunkResult>, i: nat)
    requires i < |results| && IsSuffix(NotAdded(results, i), Assembled(results, i))
    ensures |Assembled(results, i)| <= |Assembled(results, i + 1)|
    ensures OccursAt(Spoken(results[i]), Assembled(results, |results|),
                     |Assembled(results, i + 1)| - |Spoken(results[i])|)
  {
    ChunkEndsTextExactly(results, i);
    var n := i + 1;
    AssembledGrows(results, i, n);
    SuffixStays(Spoken(results[i]), results, n);
  }

  lemma {:induction false} SimpleStrip(s: Text)
    requires Simple(s)
    ensures Simple(Strip(s))
  {
    var front, back := StripSplits(s);
    var r := Strip(s);
    forall i | 0 <= i < |r|
      ensures |r[i].fold| <= 1
    {
      assert s[|front| + i] == r[i];
    }
  }

  /** A chunk in which no character folds to more than one never loses a word. */
  lemma {:induction false} SimpleChunkLosesNothing(results: seq<ChunkResult>, i: nat)
    requires i < |results| && Simple(results[i].fullText)
    ensures IsSuffix(Spoken(results[i]), Assembled(results, i + 1))
    ensures exists at :: OccursAt(Spoken(results[i]), Assembled(results, |results|), at)
  {
    ChunkAdds(results, i);
    SimpleStrip(results[i].fullText);
    SimpleNeverOvershoots(Strip(results[i].fullText), Matched(results, i));
    ChunkKept(results, i);
    ChunkFoundInFullText(results, i);
  }

  // ---------------------------------------------------------------------------------------------
  // A chunk that does lose letters
  // ---------------------------------------------------------------------------------------------

  /** A character that folds to itself, and the unit sign that folds to two katakana. */
  const LONG: Character := Character('\U{9577}', ['\U{9577}'], false, false)
  const KI: Character := Character('\U{30AD}', ['\U{30AD}'], false, false)
  const KIRO: Character := Character('\U{3314}', ['\U{30AD}', '\U{30ED}'], false, false)

  lemma {:induction false} KiroTexts()
    ensures Fold([LONG, KI]) == [LONG.code, KI.code]
    ensures Fold([LONG, KIRO]) == [LONG.code, KI.code, '\U{30ED}']
    ensures Strip([LONG, KI]) == [LONG, KI] && Strip([LONG, KIRO]) == [LONG, KIRO]
    ensures AfterFolded([LONG, KIRO], 2) == [] && Overshoot([LONG, KIRO], 2) == 1
  {
    FoldConcat([LONG], [KI]);
    FoldConcat([LONG], [KIRO]);
    FoldOne(LONG);
    FoldOne(KI);
    FoldOne(KIRO);
    assert [LONG] + [KI] == [LONG, KI] && [LONG] + [KIRO] == [LONG, KIRO];
    StrippedUnchanged([LONG, KI]);
    StrippedUnchanged([LONG, KIRO]);
    assert [LONG, KIRO][1..] == [KIRO] && [KIRO][1..] == [];
  }

  lemma {:induction false} KiroOverlap()
    ensures Overlapping([LONG, KI], [LONG, KIRO]) == Trimmed([], 2, 3)
  {
    KiroTexts();
    var p, c := [LONG, KI], [LONG, KIRO];
    assert !IsAscii(Fold(c)[0]);
    assert Without(Fold(p), 0) == Fold(c)[..2];
    assert Admissible(p, c, 2);
    OverlapSizeIsLargest(p, c, 2);
    assert LStrip(SkipSeparators([])) == [];
  }

  /** Here the overlap ends inside the unit sign, the whole sign is removed, and its last letter is
      heard nowhere in the full text. */
  lemma {:induction false} LettersCanBeLost()
    ensures var results := [ChunkResult([LONG, KI], []), ChunkResult([LONG, KIRO], [])];
            && Lost(results, 1) == 1
            && forall at :: !OccursAt(Spoken(results[1]), Assembled(results, 2), at)
  {
    var results := [ChunkResult([LONG, KI], []), ChunkResult([LONG, KIRO], [])];
    KiroTexts();
    KiroOverlap();
    assert Stitch(results, 0) == TextState([], []);
    assert Contribution(Stitch(results, 0), [LONG, KI]).text == [LONG, KI];
    assert [] + [NEWLINE] + [LONG, KI] == [NEWLINE, LONG, KI];
    assert [NEWLINE, LONG, KI][1..] == [LONG, KI];
    assert Stitch(results, 1) == TextState([[LONG, KI]], [LONG, KI]);
    ChunkAdds(results, 1);
    assert Matched(results, 1) == 2;
    ChunkKept(results, 1);
    assert Assembled(results, 1) == [LONG.code, KI.code];
    assert |Assembled(results, 2)| == 2;
  }
}

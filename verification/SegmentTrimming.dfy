/** Trimming a chunk segment by segment does what trimming its joined text would do. */
module SegmentTrimming {
  import opened Prelude
  import opened Folding
  import opened Overlap
  import opened ChunkPlanner
  import opened Stitching
  import opened NoWordsLost

  /** The overlap still to be removed after `n` segments; timing plays no part in it. */
  function Remaining(segs: seq<ProviderSegment>, overlap: int, n: nat): int
    requires n <= |segs|
  {
    if n == 0 then overlap else
    var left := Remaining(segs, overlap, n - 1);
    left - TrimLeading(Strip(segs[n - 1].text), left).removed
  }

  /** The folded texts of the first `n` segments after trimming, joined. */
  function TrimmedFold(segs: seq<ProviderSegment>, overlap: int, n: nat): string
    requires n <= |segs|
  {
    if n == 0 then "" else
    var left := Remaining(segs, overlap, n - 1);
    TrimmedFold(segs, overlap, n - 1) + Fold(TrimLeading(Strip(segs[n - 1].text), left).text)
  }

  /** This is the overlap the merge carries from segment to segment. */
  lemma {:induction false} RemainingInMerge(c: Chunk, limit: real, overlap: int, segs: seq<ProviderSegment>, n: nat,
                                            before: seq<Segment>)
    requires n <= |segs|
    ensures AddSegments(c, limit, overlap, segs, n, before).remaining == Remaining(segs, overlap, n)
  {
    if n > 0 {
      RemainingInMerge(c, limit, overlap, segs, n - 1, before);
    }
  }

  // ---------------------------------------------------------------------------------------------
  // A cut depends only on the text around it
  // ---------------------------------------------------------------------------------------------

  lemma {:induction false} OvershootConcat(a: Text, b: Text, n: nat)
    requires n <= |Fold(a)| + |Fold(b)|
    ensures Fold(a + b) == Fold(a) + Fold(b)
    ensures Overshoot(a + b, n) == if n <= |Fold(a)| then Overshoot(a, n) else Overshoot(b, n - |Fold(a)|)
  {
    FoldConcat(a, b);
    var s := a + b;
    if a == [] {
      assert s == b;
    } else if n > |a[0].fold| {
      assert s[1..] == a[1..] + b && s[0] == a[0];
      OvershootConcat(a[1..], b, n - |a[0].fold|);
    }
  }

  lemma {:induction false} AfterInFront(a: Text, b: Text, n: nat)
    requires n <= |Fold(a)|
    ensures |Fold(a + b)| == |Fold(a)| + |Fold(b)|
    ensures After(a + b, n) == After(a, n) + Fold(b)
  {
    OvershootConcat(a, b, n);
    WithoutConcat(Fold(a), Fold(b), n + Overshoot(a, n));
  }

  lemma {:induction false} AfterInBack(a: Text, b: Text, total: nat, n: nat)
    requires total == |Fold(a)| && 0 < n <= |Fold(b)|
    ensures |Fold(a + b)| == total + |Fold(b)|
    ensures After(a + b, total + n) == After(b, n)
  {
    var k := n + Overshoot(b, n);
    OvershootConcat(a, b, total + n);
    WithoutPast(Fold(a), Fold(b), k);
    assert total + n + Overshoot(a + b, total + n) == total + k;
  }

  /** Text around it that folds to nothing does not change a cut. */
  lemma {:induction false} AfterPadded(front: Text, r: Text, back: Text, n: nat)
    requires Fold(front) == [] && Fold(back) == [] && n <= |Fold(r)|
    ensures |Fold(front + (r + back))| == |Fold(r)|
    ensures After(front + (r + back), n) == After(r, n)
  {
    AfterInFront(r, back, n);
    assert After(r, n) + [] == After(r, n);
    if n == 0 {
      AfterInFront(front, r + back, 0);
      assert [] + Fold(r + back) == Fold(r + back);
    } else {
      AfterInBack(front, r + back, 0, n);
    }
  }

  lemma {:induction false} AfterStripped(s: Text, n: nat)
    requires n <= |Fold(s)|
    ensures |Fold(Strip(s))| == |Fold(s)|
    ensures After(Strip(s), n) == After(s, n)
  {
    var front, back := StripSplits(s);
    FoldConcat(Strip(s), back);
    FoldConcat(front, Strip(s) + back);
    AfterPadded(front, Strip(s), back, n);
  }

  /** How much of an overlap a text can take, and what is left of it then, folded. */
  function CutLength(s: Text, overlap: nat): nat {
    MinI(overlap, |Fold(s)|)
  }

  function AfterCut(s: Text, overlap: nat): string {
    After(s, CutLength(s, overlap))
  }

  lemma {:induction false} CutDone(front: Text, text: Text, overlap: nat)
    requires overlap <= |Fold(front)|
    ensures CutLength(front, overlap) == CutLength(front + text, overlap) == overlap
    ensures AfterCut(front + text, overlap) == AfterCut(front, overlap) + Fold(text)
  {
    AfterInFront(front, text, overlap);
  }

  lemma {:induction false} CutGoesOn(front: Text, text: Text, overlap: nat, more: nat)
    requires |Fold(front)| + more == overlap && more > 0
    ensures CutLength(front, overlap) == overlap - more
    ensures CutLength(front + text, overlap) == overlap - more + CutLength(text, more)
    ensures AfterCut(front, overlap) == []
    ensures AfterCut(front + text, overlap) == AfterCut(text, more)
  {
    var n := CutLength(text, more);
    AfterAll(front);
    if n > 0 {
      AfterInBack(front, text, overlap - more, n);
    } else {
      assert Fold(text) == [];
      AfterInFront(front, text, |Fold(front)|);
    }
  }

  // ---------------------------------------------------------------------------------------------
  // Segment by segment
  // ---------------------------------------------------------------------------------------------

  /** The first `n` segments joined by spaces. */
  function Joined(segs: seq<ProviderSegment>, n: nat): Text
    requires n <= |segs|
    decreases n, 1
  {
    if n == 0 then []
    else Front(segs, n) + Strip(segs[n - 1].text)
  }

  /** What stands before segment `n - 1` in the joined text. */
  function Front(segs: seq<ProviderSegment>, n: nat): Text
    requires 0 < n <= |segs|
    decreases n, 0
  {
    if n == 1 then [] else Joined(segs, n - 1) + [SPACE]
  }

  lemma {:induction false} JoinedIsJoin(segs: seq<ProviderSegment>, texts: seq<Text>, n: nat)
    requires n <= |segs| == |texts|
    requires forall i :: 0 <= i < n ==> texts[i] == Strip(segs[i].text)
    ensures Joined(segs, n) == Join([SPACE], texts[..n])
  {
    if n == 0 {
    } else if n == 1 {
      assert [] + texts[0] == texts[0];
    } else {
      JoinedIsJoin(segs, texts, n - 1);
      JoinNext([SPACE], texts, n);
    }
  }

  lemma {:induction false} JoinNext(separator: Text, texts: seq<Text>, n: nat)
    requires 1 < n <= |texts|
    ensures Join(separator, texts[..n]) == Join(separator, texts[..n - 1]) + separator + texts[n - 1]
  {
    assert texts[..n][..n - 1] == texts[..n - 1];
  }

  lemma {:induction false} JoinedWhole(segs: seq<ProviderSegment>)
    ensures Joined(segs, |segs|) == Join([SPACE], StrippedTexts(segs))
  {
    var texts := StrippedTexts(segs);
    JoinedIsJoin(segs, texts, |segs|);
    assert texts[..|texts|] == texts;
  }

  lemma {:induction false} CutBeforeSpace(before: Text, overlap: nat)
    ensures CutLength(before + [SPACE], overlap) == CutLength(before, overlap)
    ensures AfterCut(before + [SPACE], overlap) == AfterCut(before, overlap)
  {
    SeparatorsFold();
    AfterInFront(before, [SPACE], CutLength(before, overlap));
    assert AfterCut(before, overlap) + [] == AfterCut(before, overlap);
  }

  lemma {:induction false} FrontCut(segs: seq<ProviderSegment>, n: nat, overlap: nat)
    requires 0 < n <= |segs|
    ensures CutLength(Front(segs, n), overlap) == CutLength(Joined(segs, n - 1), overlap)
    ensures AfterCut(Front(segs, n), overlap) == AfterCut(Joined(segs, n - 1), overlap)
  {
    if n > 1 {
      CutBeforeSpace(Joined(segs, n - 1), overlap);
    }
  }

  lemma {:induction false} TrimmedText(text: Text, count: nat)
    requires Stripped(text)
    ensures var r := TrimLeading(text, count);
            r.removed == CutLength(text, count) && Fold(r.text) == AfterCut(text, count)
  {
    StrippedUnchanged(text);
    TrimLeadingFolds(text, count);
  }

  /** Trimming one more segment. */
  lemma {:induction false} TrimStep(front: Text, text: Text, overlap: nat)
    requires Stripped(text)
    ensures var r := TrimLeading(text, overlap - CutLength(front, overlap));
            && CutLength(front, overlap) + r.removed == CutLength(front + text, overlap)
            && AfterCut(front, overlap) + Fold(r.text) == AfterCut(front + text, overlap)
  {
    var more := overlap - CutLength(front, overlap);
    TrimmedText(text, more);
    if more == 0 {
      CutDone(front, text, overlap);
      assert AfterCut(text, 0) == Fold(text);
    } else {
      CutGoesOn(front, text, overlap, more);
      assert [] + AfterCut(text, more) == AfterCut(text, more);
    }
  }

  ghost predicate TrimmedSoFar(segs: seq<ProviderSegment>, overlap: nat, n: nat)
    requires n <= |segs|
  {
    && Remaining(segs, overlap, n) == overlap - CutLength(Joined(segs, n), overlap)
    && TrimmedFold(segs, overlap, n) == AfterCut(Joined(segs, n), overlap)
  }

  lemma {:induction false} TrimNext(segs: seq<ProviderSegment>, overlap: nat, n: nat, front: Text, text: Text)
    requires 0 < n <= |segs| && front == Front(segs, n) && text == Strip(segs[n - 1].text)
    requires TrimmedSoFar(segs, overlap, n - 1)
    requires Stripped(text)
    ensures TrimmedSoFar(segs, overlap, n)
  {
    FrontCut(segs, n, overlap);
    TrimStep(front, text, overlap);
  }

  lemma {:induction false} TrimmedUpTo(segs: seq<ProviderSegment>, overlap: nat, n: nat)
    requires n <= |segs|
    ensures TrimmedSoFar(segs, overlap, n)
  {
    if n == 0 {
      assert Fold(Joined(segs, 0)) == [];
    } else {
      TrimmedUpTo(segs, overlap, n - 1);
      StripFacts(segs[n - 1].text);
      TrimNext(segs, overlap, n, Front(segs, n), Strip(segs[n - 1].text));
    }
  }

  lemma {:induction false} WholeTrimmed(previous: Text, joined: Text)
    ensures var r := Overlapping(previous, joined);
            CutLength(joined, r.removed) == r.removed && Fold(r.text) == AfterCut(joined, r.removed)
  {
    OverlappingFolds(previous, joined);
    AfterStripped(joined, Overlapping(previous, joined).removed);
  }

  /** However the provider split the chunk: the segments lose exactly the overlap found on their joined
      text, and what is left of them is, folded, what trimming the joined text leaves. */
  lemma {:induction false} SegmentwiseEqualsWhole(segs: seq<ProviderSegment>, previous: Text)
    ensures var whole := Overlapping(previous, Join([SPACE], StrippedTexts(segs)));
            && Remaining(segs, whole.removed, |segs|) == 0
            && TrimmedFold(segs, whole.removed, |segs|) == Fold(whole.text)
  {
    JoinedWhole(segs);
    WholeTrimmed(previous, Joined(segs, |segs|));
    TrimmedUpTo(segs, Overlapping(previous, Joined(segs, |segs|)).removed, |segs|);
  }
}

/** Removing the text that a chunk repeats from the chunk before it. */
module Overlap {
  import opened Prelude
  import opened Folding

  /** A text without its first `removed` folded characters, of `total`. */
  datatype Trimmed = Trimmed(text: Text, removed: nat, total: nat)

  /** `s` after the source character that yields folded character number `n`. */
  function AfterFolded(s: Text, n: nat): Text
    requires n <= |Fold(s)|
  {
    if n == 0 then s
    else if n <= |s[0].fold| then s[1..]
    else AfterFolded(s[1..], n - |s[0].fold|)
  }

  /** How many folded characters beyond the first `n` go with the source character they are cut in. */
  function Overshoot(s: Text, n: nat): (x: nat)
    requires n <= |Fold(s)|
    ensures n + x <= |Fold(s)|
  {
    if n == 0 then 0
    else if n <= |s[0].fold| then |s[0].fold| - n
    else Overshoot(s[1..], n - |s[0].fold|)
  }

  lemma {:induction false} AfterFoldedIsSuffix(s: Text, n: nat)
    requires 0 < n <= |Fold(s)|
    ensures AfterFolded(s, n) == s[SourceIndex(s, n - 1) + 1..]
  {
    var f := |s[0].fold|;
    if n > f {
      AfterFoldedIsSuffix(s[1..], n - f);
    }
  }

  /** A stripped text without its first `n` folded characters and the separators after them. */
  function Remainder(v: Text, n: nat): Text
    requires n <= |Fold(v)|
  {
    if n == 0 then v
    else if n == |Fold(v)| then []
    else LStrip(SkipSeparators(AfterFolded(v, n)))
  }

  function TrimLeading(value: Text, count: int): Trimmed {
    var v := Strip(value);
    var total := |Fold(v)|;
    var removed := MinI(if count < 0 then 0 else count, total);
    Trimmed(Remainder(v, removed), removed, total)
  }

  method TrimLeadingCharacters(value: Text, count: int) returns (r: Trimmed)
    ensures r == TrimLeading(value, count)
  {
    var v := Strip(value);
    var _, sourceIndexes := FoldAlphanumeric(v);
    var total := |sourceIndexes|;
    var removed := MinI(if count < 0 then 0 else count, total);
    if removed == 0 {
      return Trimmed(v, 0, total);
    }
    if removed == total {
      return Trimmed([], removed, total);
    }
    AfterFoldedIsSuffix(v, removed);
    var cut := sourceIndexes[removed - 1] + 1;
    while cut < |v|
      invariant cut <= |v|
      invariant SkipSeparators(v[cut..]) == SkipSeparators(AfterFolded(v, removed))
    {
      if !v[cut].space && !v[cut].punctuation {
        break;
      }
      assert v[cut..][1..] == v[cut + 1..];
      cut := cut + 1;
    }
    assert SkipSeparators(v[cut..]) == v[cut..];
    r := Trimmed(LStrip(v[cut..]), removed, total);
  }

  // ---------------------------------------------------------------------------------------------
  // Finding the overlap
  // ---------------------------------------------------------------------------------------------

  const MAXIMUM_OVERLAP := 2000

  predicate IsOverlapBoundary(previous: Text, current: Text, previousStart: nat, currentEnd: nat)
    requires previousStart < |previous| && currentEnd < |current|
  {
    && !(previousStart > 0
         && IsAsciiWord(previous[previousStart - 1].code) && IsAsciiWord(previous[previousStart].code))
    && !(currentEnd + 1 < |current|
         && IsAsciiWord(current[currentEnd].code) && IsAsciiWord(current[currentEnd + 1].code))
  }

  function OverlapLimit(previous: Text, current: Text): nat {
    MinI(MinI(|Fold(previous)|, |Fold(current)|), MAXIMUM_OVERLAP)
  }

  /** The last `size` folded characters of `previous` are the first `size` of `current`; there are
      enough of them to count, and neither end splits an ASCII word. */
  predicate Admissible(previous: Text, current: Text, size: nat) {
    var p, c := Fold(previous), Fold(current);
    && 2 <= size <= OverlapLimit(previous, current)
    && (size >= 4 || exists i :: 0 <= i < size && !IsAscii(c[i]))
    && Without(p, |p| - size) == c[..size]
    && IsOverlapBoundary(previous, current, SourceIndex(previous, |p| - size), SourceIndex(current, size - 1))
  }

  ghost predicate LargestOverlap(previous: Text, current: Text, size: nat) {
    && (size == 0 || Admissible(previous, current, size))
    && forall k :: size < k <= OverlapLimit(previous, current) ==> !Admissible(previous, current, k)
  }

  /** The largest admissible overlap of two stripped texts, 0 if there is none. */
  function OverlapSize(previous: Text, current: Text): nat {
    LargestFrom(previous, current, OverlapLimit(previous, current))
  }

  function LargestFrom(previous: Text, current: Text, limit: nat): nat {
    if limit < 2 then 0
    else if Admissible(previous, current, limit) then limit
    else LargestFrom(previous, current, limit - 1)
  }

  lemma {:induction false} LargestFromFacts(previous: Text, current: Text, limit: nat)
    ensures var size := LargestFrom(previous, current, limit);
            && (size == 0 || (size <= limit && Admissible(previous, current, size)))
            && forall k :: size < k <= limit ==> !Admissible(previous, current, k)
  {
    if limit >= 2 {
      LargestFromFacts(previous, current, limit - 1);
    }
  }

  /** The size found is the largest admissible one, and no other size is. */
  lemma {:induction false} OverlapSizeIsLargest(previous: Text, current: Text, size: nat)
    ensures LargestOverlap(previous, current, size) <==> size == OverlapSize(previous, current)
  {
    LargestFromFacts(previous, current, OverlapLimit(previous, current));
  }

  function Overlapping(previous: Text, current: Text): Trimmed {
    var p, c := Strip(previous), Strip(current);
    var size := OverlapSize(p, c);
    Trimmed(if size == 0 then c else TrimLeading(c, size).text, size, |Fold(c)|)
  }

  /** The tests that one candidate size has to pass. */
  method Matches(p: Text, c: Text, pf: string, pi: seq<nat>, cf: string, ci: seq<nat>, size: nat)
    returns (matches: bool)
    requires pf == Fold(p) && |pi| == |pf| && forall j :: 0 <= j < |pf| ==> pi[j] == SourceIndex(p, j)
    requires cf == Fold(c) && |ci| == |cf| && forall j :: 0 <= j < |cf| ==> ci[j] == SourceIndex(c, j)
    requires 2 <= size <= OverlapLimit(p, c)
    ensures matches <==> Admissible(p, c, size)
  {
    var matched := cf[..size];
    var containsNonAscii := exists i :: 0 <= i < size && !IsAscii(matched[i]);
    assert containsNonAscii <==> exists i :: 0 <= i < size && !IsAscii(cf[i]);
    var minimum := if containsNonAscii then 2 else 4;
    if size < minimum || (!containsNonAscii && size < 4) {
      return false;
    }
    WithoutIsSlice(pf, |pf| - size);
    if pf[|pf| - size..] != matched {
      return false;
    }
    return IsOverlapBoundary(p, c, pi[|pf| - size], ci[size - 1]);
  }

  method TrimOverlap(previous: Text, current: Text) returns (r: Trimmed)
    ensures r == Overlapping(previous, current)
  {
    var p, c := Strip(previous), Strip(current);
    var pf, pi := FoldAlphanumeric(p);
    var cf, ci := FoldAlphanumeric(c);
    var maximum := MinI(MinI(|pf|, |cf|), MAXIMUM_OVERLAP);
    var size := maximum;
    while size > 1
      invariant size <= maximum
      invariant forall k: nat :: size < k <= maximum ==> !Admissible(p, c, k)
    {
      var matches := Matches(p, c, pf, pi, cf, ci, size);
      if matches {
        OverlapSizeIsLargest(p, c, size);
        var trimmed := TrimLeadingCharacters(c, size);
        return Trimmed(trimmed.text, size, |cf|);
      }
      size := size - 1;
    }
    OverlapSizeIsLargest(p, c, 0);
    r := Trimmed(c, 0, |cf|);
  }

  // ---------------------------------------------------------------------------------------------
  // What trimming does to the folded text
  // ---------------------------------------------------------------------------------------------

  /** What is left of the folded text of `s` when its first `n` folded characters are cut off. */
  function After(s: Text, n: nat): string
    requires n <= |Fold(s)|
  {
    Without(Fold(s), n + Overshoot(s, n))
  }

  lemma {:induction false} AfterFoldedFolds(s: Text, n: nat)
    requires n <= |Fold(s)|
    ensures Fold(AfterFolded(s, n)) == After(s, n)
  {
    if n > 0 {
      var f := s[0].fold;
      if n > |f| {
        AfterFoldedFolds(s[1..], n - |f|);
        WithoutConcat(f, Fold(s[1..]), n + Overshoot(s, n));
      } else {
        WithoutConcat(f, Fold(s[1..]), |f|);
        assert [] + Fold(s[1..]) == Fold(s[1..]);
        assert Without(f, |f|) == [];
      }
    }
  }

  /** When no character folds to more than one, a cut never takes more than asked. */
  lemma {:induction false} SimpleNeverOvershoots(s: Text, n: nat)
    requires Simple(s) && n <= |Fold(s)|
    ensures Overshoot(s, n) == 0
  {
    if n > 0 && n > |s[0].fold| {
      SimpleNeverOvershoots(s[1..], n - |s[0].fold|);
    }
  }

  lemma {:induction false} AfterAll(s: Text)
    ensures After(s, |Fold(s)|) == []
  {
  }

  lemma {:induction false} RemainderFolds(v: Text, n: nat)
    requires Stripped(v) && n <= |Fold(v)|
    ensures Fold(Remainder(v, n)) == After(v, n)
    ensures Stripped(Remainder(v, n))
  {
    if n == 0 {
    } else if n == |Fold(v)| {
      AfterAll(v);
    } else {
      var rest := AfterFolded(v, n);
      AfterFoldedFolds(v, n);
      SkipSeparatorsFacts(rest);
      AfterFoldedIsSuffix(v, n);
      assert rest == [] || rest[|rest| - 1] == v[|v| - 1];
    }
  }

  /** Trimming drops the leading folded characters it was asked to drop, those that share the last
      source character with them, and nothing else. */
  lemma {:induction false} TrimLeadingFolds(value: Text, count: int)
    ensures var r := TrimLeading(value, count);
            && r.total == |Fold(value)| == |Fold(Strip(value))|
            && r.removed == MinI(if count < 0 then 0 else count, r.total)
            && Fold(r.text) == After(Strip(value), r.removed)
            && Stripped(r.text)
  {
    StripFacts(value);
    RemainderFolds(Strip(value), TrimLeading(value, count).removed);
  }

  /** The trimmed overlap is common to both texts, and the rest of the chunk is kept, except for what
      shares a source character with the end of the overlap. */
  lemma {:induction false} OverlappingFolds(previous: Text, current: Text)
    ensures var r := Overlapping(previous, current);
            && r.removed <= |Fold(current)| == |Fold(Strip(current))|
            && IsSuffix(Fold(current)[..r.removed], Fold(previous))
            && Fold(r.text) == After(Strip(current), r.removed)
            && Stripped(r.text)
  {
    var p, c := Strip(previous), Strip(current);
    StripFacts(previous);
    StripFacts(current);
    var size := OverlapSize(p, c);
    TrimLeadingFolds(c, size);
    CommonEnd(p, c, size);
  }

  lemma {:induction false} CommonEnd(p: Text, c: Text, size: nat)
    requires size == OverlapSize(p, c)
    ensures size <= |Fold(c)| && IsSuffix(Fold(c)[..size], Fold(p))
  {
    OverlapSizeIsLargest(p, c, size);
    if size == 0 {
      EmptySuffix(Fold(p));
      assert Fold(c)[..0] == [];
    }
  }
}

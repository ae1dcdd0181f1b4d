/** Text reduced to its folded letters and digits. */
module Folding {
  import opened Prelude

  /** A character with what the code asks Unicode about it: what compatibility normalisation and case
      folding leave of it once everything but letters and digits is removed, and whether it is white
      space or in a punctuation category. A character may fold to several. */
  datatype AnyCharacter = Character(code: char, fold: string, space: bool, punctuation: bool)

  /** White space and punctuation hold no letters or digits. */
  type Character = c: AnyCharacter | c.space || c.punctuation ==> c.fold == []
    witness Character(' ', "", true, false)

  type Text = seq<Character>

  const NEWLINE: Character := Character('\n', "", true, false)
  const SPACE: Character := Character(' ', "", true, false)

  /** No character of the text folds to more than one. */
  predicate Simple(s: Text) {
    forall i :: 0 <= i < |s| ==> |s[i].fold| <= 1
  }

  predicate IsAscii(c: char) {
    c as int < 128
  }

  predicate IsAsciiWord(c: char) {
    'a' <= c <= 'z' || 'A' <= c <= 'Z' || '0' <= c <= '9' || c == '_'
  }

  function Fold(s: Text): string {
    if s == [] then [] else s[0].fold + Fold(s[1..])
  }

  lemma {:induction false} FoldConcat(a: Text, b: Text)
    ensures Fold(a + b) == Fold(a) + Fold(b)
  {
    if a == [] {
      assert a + b == b;
      assert [] + Fold(b) == Fold(b);
    } else {
      FoldConcat(a[1..], b);
      var s := a + b;
      assert s[1..] == a[1..] + b;
      assert s[0] == a[0];
      ConcatAssociative(a[0].fold, Fold(a[1..]), Fold(b));
    }
  }

  lemma {:induction false} ConcatAssociative(a: string, b: string, c: string)
    ensures a + (b + c) == (a + b) + c
  {
  }

  lemma {:induction false} FoldOne(c: Character)
    ensures Fold([c]) == c.fold
  {
    assert [c][1..] == [];
    assert Fold([]) == [];
  }

  // ---------------------------------------------------------------------------------------------
  // Prefixes and suffixes of folded text
  // ---------------------------------------------------------------------------------------------

  /** A folded text without its first `n` characters. */
  function Without(s: string, n: nat): (r: string)
    requires n <= |s|
    ensures |r| == |s| - n
  {
    if n == 0 then s else Without(s[1..], n - 1)
  }

  lemma {:induction false} WithoutIsSlice(s: string, n: nat)
    requires n <= |s|
    ensures Without(s, n) == s[n..]
  {
    if n > 0 {
      WithoutIsSlice(s[1..], n - 1);
    }
  }

  lemma {:induction false} WithoutConcat(a: string, b: string, n: nat)
    requires n <= |a| + |b|
    ensures Without(a + b, n) == if n <= |a| then Without(a, n) + b else Without(b, n - |a|)
  {
    if a == [] {
      assert a + b == b;
      assert [] + b == b;
    } else if n > 0 {
      assert (a + b)[1..] == a[1..] + b;
      WithoutConcat(a[1..], b, n - 1);
    }
  }

  lemma {:induction false} WithoutPast(a: string, b: string, m: nat)
    requires m <= |b|
    ensures Without(a + b, |a| + m) == Without(b, m)
  {
    WithoutConcat(a, b, |a| + m);
    if m == 0 {
      assert Without(a, |a|) == [];
      assert [] + b == b;
    }
  }

  lemma {:induction false} WithoutTwice(s: string, m: nat, n: nat)
    requires m + n <= |s|
    ensures Without(Without(s, m), n) == Without(s, m + n)
  {
    if m > 0 {
      WithoutTwice(s[1..], m - 1, n);
    }
  }

  ghost predicate IsSuffix(a: string, b: string) {
    |a| <= |b| && Without(b, |b| - |a|) == a
  }

  lemma {:induction false} EmptySuffix(s: string)
    ensures IsSuffix([], s)
  {
    assert |Without(s, |s|)| == 0;
  }

  lemma {:induction false} SuffixConcat(a: string, b: string)
    ensures IsSuffix(b, a + b)
  {
    WithoutConcat(a, b, |a|);
    assert [] + b == b;
    assert Without(a, |a|) == [];
  }

  lemma {:induction false} SuffixOfSuffix(a: string, b: string, c: string)
    requires IsSuffix(a, b) && IsSuffix(b, c)
    ensures IsSuffix(a, c)
  {
    WithoutTwice(c, |c| - |b|, |b| - |a|);
  }

  // ---------------------------------------------------------------------------------------------
  // Source positions
  // ---------------------------------------------------------------------------------------------

  /** The source character that yields folded character `j`. */
  function SourceIndex(s: Text, j: nat): (i: nat)
    requires j < |Fold(s)|
    ensures i < |s|
  {
    var n := |s[0].fold|;
    if j < n then 0 else 1 + SourceIndex(s[1..], j - n)
  }

  /** `SourceIndex` is the one position whose prefix folds to at most `j` characters and, with that
      character, to more. */
  lemma {:induction false} SourceIndexCharacterised(s: Text, j: nat, i: nat)
    requires i < |s|
    ensures |Fold(s[..i])| <= j < |Fold(s[..i + 1])| <==> j < |Fold(s)| && SourceIndex(s, j) == i
  {
    var n := |s[0].fold|;
    assert s[..i + 1][1..] == s[1..][..i];
    if i > 0 {
      assert s[..i][1..] == s[1..][..i - 1];
      assert |Fold(s[..i])| == n + |Fold(s[1..][..i - 1])|;
      assert |Fold(s[..i + 1])| == n + |Fold(s[1..][..i])|;
      if j >= n {
        SourceIndexCharacterised(s[1..], j - n, i - 1);
      }
    } else {
      assert s[..0] == [];
      assert Fold(s[1..][..0]) == [];
      assert |Fold(s[..1])| == n;
    }
  }

  method FoldAlphanumeric(value: Text) returns (folded: string, indexes: seq<nat>)
    ensures folded == Fold(value)
    ensures |indexes| == |folded|
    ensures forall j :: 0 <= j < |folded| ==> indexes[j] == SourceIndex(value, j)
  {
    folded, indexes := [], [];
    for i := 0 to |value|
      invariant folded == Fold(value[..i])
      invariant |indexes| == |folded|
      invariant forall j :: 0 <= j < |folded| ==>
                  indexes[j] < i && |Fold(value[..indexes[j]])| <= j < |Fold(value[..indexes[j] + 1])|
    {
      var f := value[i].fold;
      FoldConcat(value[..i], [value[i]]);
      FoldOne(value[i]);
      assert value[..i] + [value[i]] == value[..i + 1];
      ghost var before := |folded|;
      for k := 0 to |f|
        invariant folded == Fold(value[..i]) + f[..k]
        invariant |indexes| == |folded|
        invariant forall j :: 0 <= j < before ==>
                    indexes[j] < i && |Fold(value[..indexes[j]])| <= j < |Fold(value[..indexes[j] + 1])|
        invariant forall j :: before <= j < |folded| ==> indexes[j] == i
      {
        folded := folded + [f[k]];
        indexes := indexes + [i];
      }
      assert f[..|f|] == f;
    }
    assert value[..|value|] == value;
    forall j | 0 <= j < |folded|
      ensures indexes[j] == SourceIndex(value, j)
    {
      SourceIndexCharacterised(value, j, indexes[j]);
    }
  }

  // ---------------------------------------------------------------------------------------------
  // Stripping
  // ---------------------------------------------------------------------------------------------

  /** White space, and punctuation if asked, is dropped at the front. */
  function DropLeading(s: Text, punctuation: bool): Text {
    if s == [] || !(s[0].space || (punctuation && s[0].punctuation)) then s
    else DropLeading(s[1..], punctuation)
  }

  function LStrip(s: Text): Text {
    DropLeading(s, false)
  }

  function RStrip(s: Text): Text {
    if s == [] || !s[|s| - 1].space then s else RStrip(s[..|s| - 1])
  }

  function Strip(s: Text): Text {
    RStrip(LStrip(s))
  }

  function SkipSeparators(s: Text): Text {
    DropLeading(s, true)
  }

  /** Neither end is white space. */
  predicate Stripped(s: Text) {
    s == [] || (!s[0].space && !s[|s| - 1].space)
  }

  lemma {:induction false} AddFirst(s: Text, front: Text, rest: Text)
    requires s != [] && s[1..] == front + rest
    ensures s == ([s[0]] + front) + rest
  {
  }

  lemma {:induction false} AddLast(s: Text, rest: Text, back: Text)
    requires s != [] && s[..|s| - 1] == rest + back
    ensures s == rest + (back + [s[|s| - 1]])
  {
  }

  lemma {:induction false} DropLeadingFacts(s: Text, punctuation: bool) returns (front: Text)
    ensures var r := DropLeading(s, punctuation);
            && s == front + r
            && Fold(front) == []
            && (r == [] || !(r[0].space || (punctuation && r[0].punctuation)))
            && forall i :: 0 <= i < |front| ==> front[i].space || (punctuation && front[i].punctuation)
  {
    if s != [] && (s[0].space || (punctuation && s[0].punctuation)) {
      var rest := DropLeadingFacts(s[1..], punctuation);
      front := [s[0]] + rest;
      assert front[1..] == rest;
      AddFirst(s, rest, DropLeading(s[1..], punctuation));
    } else {
      front := [];
      assert [] + s == s;
    }
  }

  lemma {:induction false} RStripFacts(s: Text) returns (back: Text)
    ensures var r := RStrip(s);
            && s == r + back
            && Fold(back) == []
            && (r == [] || !r[|r| - 1].space)
            && forall i :: 0 <= i < |back| ==> back[i].space
  {
    if s != [] && s[|s| - 1].space {
      var n := |s| - 1;
      var rest := RStripFacts(s[..n]);
      back := rest + [s[n]];
      FoldConcat(rest, [s[n]]);
      FoldOne(s[n]);
      AddLast(s, RStrip(s[..n]), rest);
    } else {
      back := [];
      assert s + [] == s;
    }
  }

  /** Stripping takes white space off both ends and nothing else. */
  lemma {:induction false} StripSplits(s: Text) returns (front: Text, back: Text)
    ensures s == front + (Strip(s) + back)
    ensures Fold(front) == [] && Fold(back) == []
    ensures forall i :: 0 <= i < |front| ==> front[i].space
    ensures forall i :: 0 <= i < |back| ==> back[i].space
    ensures Stripped(Strip(s))
  {
    front := DropLeadingFacts(s, false);
    back := RStripFacts(LStrip(s));
    var r := Strip(s);
    assert r != [] ==> r[0] == LStrip(s)[0];
  }

  lemma {:induction false} StrippedUnchanged(s: Text)
    requires Stripped(s)
    ensures Strip(s) == s
  {
  }

  /** Stripping keeps the folded text, and empties only white space. */
  lemma {:induction false} StripFacts(s: Text)
    ensures Fold(Strip(s)) == Fold(s)
    ensures Stripped(Strip(s)) && Strip(Strip(s)) == Strip(s)
    ensures Strip(s) == [] <==> forall i :: 0 <= i < |s| ==> s[i].space
  {
    var front, back := StripSplits(s);
    var r := Strip(s);
    FoldConcat(r, back);
    FoldConcat(front, r + back);
    assert Fold(r) + [] == Fold(r) && [] + Fold(r) == Fold(r);
    StrippedUnchanged(r);
    assert r != [] ==> s[|front|] == r[0];
  }

  lemma {:induction false} SkipSeparatorsFacts(s: Text)
    ensures Fold(LStrip(SkipSeparators(s))) == Fold(s)
    ensures s == [] || !s[|s| - 1].space ==> Stripped(LStrip(SkipSeparators(s)))
  {
    var t := SkipSeparators(s);
    var front := DropLeadingFacts(s, true);
    var more := DropLeadingFacts(t, false);
    FoldConcat(front, t);
    FoldConcat(more, LStrip(t));
    assert [] + Fold(t) == Fold(t);
    assert [] + Fold(LStrip(t)) == Fold(LStrip(t));
    var r := LStrip(t);
    assert r != [] ==> r[|r| - 1] == s[|s| - 1];
  }

  lemma {:induction false} LStripFolds(s: Text)
    ensures Fold(LStrip(s)) == Fold(s)
  {
    var front := DropLeadingFacts(s, false);
    FoldConcat(front, LStrip(s));
    assert [] + Fold(LStrip(s)) == Fold(LStrip(s));
  }
}

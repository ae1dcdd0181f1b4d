/** Escaping a search text for LIKE, judged by the matcher that reads the pattern. */
module LikeSearch {
  import opened Prelude

  const ESCAPE: char := '\\'

  // ---------------------------------------------------------------------------------------------
  // The pattern as it is built
  // ---------------------------------------------------------------------------------------------

  function ReplaceOne(x: char, c: char, with: string): string {
    if x == c then with else [x]
  }

  /** Replaces every `c`. */
  function Replace(s: string, c: char, with: string): string {
    if s == "" then "" else ReplaceOne(s[0], c, with) + Replace(s[1..], c, with)
  }

  function EscapeLikeQuery(value: string): string {
    Replace(Replace(Replace(value, '\\', "\\\\"), '%', "\\%"), '_', "\\_")
  }

  function LikePattern(q: string): string {
    "%" + EscapeLikeQuery(q) + "%"
  }

  // ---------------------------------------------------------------------------------------------
  // The reader
  // ---------------------------------------------------------------------------------------------

  /** Letters of ASCII match in either case. */
  function Lower(c: char): char {
    if 'A' <= c <= 'Z' then c - 'A' + 'a' else c
  }

  predicate SameText(a: string, b: string) {
    |a| == |b| && forall i :: 0 <= i < |a| ==> Lower(a[i]) == Lower(b[i])
  }

  /** The same character, or the same letter from A to Z in the other case. */
  predicate SameLetter(a: char, b: char) {
    || a == b
    || ('A' <= a <= 'Z' && b as int == a as int + 32)
    || ('A' <= b <= 'Z' && a as int == b as int + 32)
  }

  lemma SameTextExactly(a: string, b: string)
    ensures SameText(a, b) <==> |a| == |b| && forall i :: 0 <= i < |a| ==> SameLetter(a[i], b[i])
  {
    assert forall i :: 0 <= i < |a| && i < |b| ==> (Lower(a[i]) == Lower(b[i]) <==> SameLetter(a[i], b[i]));
  }

  /** LIKE with an escape character: the character after it stands for itself, `%` for any text, `_` for
      any character; a pattern that ends in the escape character matches nothing. */
  predicate Like(pattern: string, s: string)
    decreases |pattern| + |s|
  {
    if pattern == "" then s == ""
    else if pattern[0] == ESCAPE then
      |pattern| > 1 && s != "" && Lower(pattern[1]) == Lower(s[0]) && Like(pattern[2..], s[1..])
    else if pattern[0] == '%' then Like(pattern[1..], s) || (s != "" && Like(pattern, s[1..]))
    else if pattern[0] == '_' then s != "" && Like(pattern[1..], s[1..])
    else s != "" && Lower(pattern[0]) == Lower(s[0]) && Like(pattern[1..], s[1..])
  }

  /** What the database does with pattern and text. */
  predicate Finds(q: string, s: string) {
    Like(UpToNul(LikePattern(q)), UpToNul(s))
  }

  predicate OccursAt(q: string, s: string, i: int) {
    0 <= i <= |s| - |q| && SameText(q, s[i..i + |q|])
  }

  ghost predicate OccursIn(q: string, s: string) {
    exists i :: OccursAt(q, s, i)
  }

  // ---------------------------------------------------------------------------------------------
  // Three replacements are one encoding
  // ---------------------------------------------------------------------------------------------

  function EncodeOne(c: char): string {
    if c == '\\' || c == '%' || c == '_' then [ESCAPE, c] else [c]
  }

  function Encode(s: string): string {
    if s == "" then "" else EncodeOne(s[0]) + Encode(s[1..])
  }

  lemma {:induction false} Cons(c: char, s: string)
    ensures ([c] + s)[0] == c && ([c] + s)[1..] == s
  {
  }

  lemma {:induction false} Associative(a: string, b: string, c: string)
    ensures (a + b) + c == a + (b + c)
  {
  }

  lemma {:induction false} ReplaceCons(x: char, s: string, c: char, with: string)
    ensures Replace([x] + s, c, with) == ReplaceOne(x, c, with) + Replace(s, c, with)
  {
    Cons(x, s);
  }

  lemma {:induction false} ReplacePair(x: char, y: char, s: string, c: char, with: string)
    requires x != c
    ensures Replace([x, y] + s, c, with) == [x] + (ReplaceOne(y, c, with) + Replace(s, c, with))
  {
    Associative([x], [y], s);
    assert [x, y] == [x] + [y];
    ReplaceCons(x, [y] + s, c, with);
    ReplaceCons(y, s, c, with);
  }

  /** The three replacements in their order amount to escaping every special character once. */
  lemma {:induction false} EscapeIsEncode(s: string)
    ensures EscapeLikeQuery(s) == Encode(s)
  {
    if s == "" {
    } else {
      EscapeIsEncode(s[1..]);
      EscapeHead(s[0], s[1..]);
      assert s == [s[0]] + s[1..];
    }
  }

  lemma {:induction false} EscapeHead(c: char, s: string)
    ensures EscapeLikeQuery([c] + s) == EncodeOne(c) + EscapeLikeQuery(s)
  {
    ReplaceCons(c, s, '\\', "\\\\");
    var once := Replace(s, '\\', "\\\\");
    var twice := Replace(once, '%', "\\%");
    var thrice := Replace(twice, '_', "\\_");
    if c == '\\' {
      ReplacePair(c, c, once, '%', "\\%");
      Associative([c], [c], twice);
      ReplacePair(c, c, twice, '_', "\\_");
      Associative([c], [c], thrice);
      assert [c] + [c] == [c, c];
    } else {
      ReplaceCons(c, once, '%', "\\%");
      if c == '%' {
        ReplacePair('\\', c, twice, '_', "\\_");
        Associative(['\\'], [c], thrice);
        assert ['\\'] + [c] == ['\\', c];
      } else {
        ReplaceCons(c, twice, '_', "\\_");
      }
    }
  }

  // ---------------------------------------------------------------------------------------------
  // What the pattern matches
  // ---------------------------------------------------------------------------------------------

  lemma {:induction false} LikeHead(c: char, rest: string, s: string)
    ensures Like(EncodeOne(c) + rest, s) <==> s != "" && Lower(c) == Lower(s[0]) && Like(rest, s[1..])
  {
    var pattern := EncodeOne(c) + rest;
    assert pattern[|EncodeOne(c)|..] == rest;
  }

  /** An escaped text matches that text at the front, letter case aside, and nothing else. */
  lemma {:induction false} LikeEncoded(q: string, rest: string, s: string)
    ensures Like(Encode(q) + rest, s) <==>
            |q| <= |s| && SameText(q, s[..|q|]) && Like(rest, s[|q|..])
  {
    if q == "" {
      assert Encode(q) + rest == rest;
      assert s[0..] == s;
    } else {
      Associative(EncodeOne(q[0]), Encode(q[1..]), rest);
      LikeHead(q[0], Encode(q[1..]) + rest, s);
      if s != "" {
        LikeEncoded(q[1..], rest, s[1..]);
        PrefixStep(q, s);
      }
    }
  }

  lemma PrefixStep(q: string, s: string)
    requires q != "" && s != ""
    ensures |q| <= |s| ==>
              && s[1..][|q[1..]|..] == s[|q|..]
              && (SameText(q, s[..|q|]) <==> Lower(q[0]) == Lower(s[0]) && SameText(q[1..], s[1..][..|q[1..]|]))
  {
    if |q| <= |s| {
      assert s[1..][..|q| - 1] == s[..|q|][1..];
      SameTextStep(q, s[..|q|]);
    }
  }

  lemma SameTextStep(a: string, b: string)
    requires |a| == |b| > 0
    ensures SameText(a, b) <==> Lower(a[0]) == Lower(b[0]) && SameText(a[1..], b[1..])
  {
    if Lower(a[0]) == Lower(b[0]) && SameText(a[1..], b[1..]) {
      forall i | 0 <= i < |a|
        ensures Lower(a[i]) == Lower(b[i])
      {
        assert i > 0 ==> a[1..][i - 1] == a[i] && b[1..][i - 1] == b[i];
      }
    }
  }

  lemma {:induction false} LikeMany(rest: string, s: string)
    ensures Like("%" + rest, s) <==> exists i :: 0 <= i <= |s| && Like(rest, s[i..])
  {
    var pattern := "%" + rest;
    assert pattern[1..] == rest;
    assert s[0..] == s;
    if s != "" {
      LikeMany(rest, s[1..]);
      assert forall i :: 0 <= i <= |s| - 1 ==> s[1..][i..] == s[i + 1..];
      if i :| 0 <= i <= |s| && Like(rest, s[i..]) && i > 0 {
        assert s[1..][i - 1..] == s[i..];
      }
    }
  }

  /** The whole escaped pattern matches a text exactly when the query occurs in it. */
  lemma LikeContains(q: string, s: string)
    ensures Like(LikePattern(q), s) <==> OccursIn(q, s)
  {
    EscapeIsEncode(q);
    var rest := Encode(q) + "%";
    assert LikePattern(q) == "%" + rest;
    LikeMany(rest, s);
    forall i | 0 <= i <= |s|
      ensures Like(rest, s[i..]) <==> OccursAt(q, s, i)
    {
      LikeAt(q, s, i);
    }
    if i :| OccursAt(q, s, i) {
      assert Like(rest, s[i..]);
    }
  }

  lemma LikeAt(q: string, s: string, i: nat)
    requires i <= |s|
    ensures Like(Encode(q) + "%", s[i..]) <==> OccursAt(q, s, i)
  {
    var t := s[i..];
    LikeEncoded(q, "%", t);
    if |q| <= |t| {
      assert t[..|q|] == s[i..i + |q|];
      LikeMany("", t[|q|..]);
      assert t[|q|..][|t| - |q|..] == "";
      assert "%" + "" == "%";
    }
  }

  // ---------------------------------------------------------------------------------------------
  // Texts with a NUL character
  // ---------------------------------------------------------------------------------------------

  lemma {:induction false} EncodeUpToNul(q: string)
    ensures UpToNul(Encode(q)) == Encode(UpToNul(q))
    ensures HasNul(Encode(q)) <==> HasNul(q)
  {
    if q == "" {
    } else {
      EncodeUpToNul(q[1..]);
      UpToNulConcat(EncodeOne(q[0]), Encode(q[1..]));
      assert q == [q[0]] + q[1..];
      if q[0] != '\0' {
        assert ([q[0]] + UpToNul(q[1..]))[1..] == UpToNul(q[1..]);
      }
    }
  }

  /** A pattern cut off before its last `%` matches what ends with the query. */
  lemma {:induction false} LikeEnds(q: string, s: string)
    ensures Like("%" + Encode(q), s) <==> OccursAt(q, s, |s| - |q|)
  {
    LikeMany(Encode(q), s);
    forall i | 0 <= i <= |s|
      ensures Like(Encode(q), s[i..]) <==> i == |s| - |q| && OccursAt(q, s, i)
    {
      LikeEncoded(q, "", s[i..]);
      assert Encode(q) + "" == Encode(q);
      if |q| <= |s[i..]| {
        assert s[i..][..|q|] == s[i..i + |q|];
      }
    }
    if OccursAt(q, s, |s| - |q|) {
      assert Like(Encode(q), s[|s| - |q|..]);
    }
  }

  lemma {:induction false} PatternUpToNul(q: string)
    ensures UpToNul(LikePattern(q)) == if HasNul(q) then "%" + Encode(UpToNul(q)) else LikePattern(q)
  {
    EscapeIsEncode(q);
    EncodeUpToNul(q);
    var rest := Encode(q) + "%";
    UpToNulConcat("%", rest);
    UpToNulConcat(Encode(q), "%");
    UpToNulWhole("%");
    Associative("%", Encode(q), "%");
  }

  /** A query is found in a text if and only if it occurs in what the database reads of the text, whatever
      other characters either has; a query with a NUL character is cut off there, and found only where
      what the database reads of the text ends with what it reads of the query. */
  lemma {:induction false} LikeFindsLiterally(q: string, s: string)
    ensures Finds(q, s) <==>
            if HasNul(q) then OccursAt(UpToNul(q), UpToNul(s), |UpToNul(s)| - |UpToNul(q)|)
            else OccursIn(q, UpToNul(s))
    ensures !HasNul(q) && !HasNul(s) ==> (Finds(q, s) <==> OccursIn(q, s))
  {
    PatternUpToNul(q);
    if HasNul(q) {
      LikeEnds(UpToNul(q), UpToNul(s));
    } else {
      LikeContains(q, UpToNul(s));
      if !HasNul(s) {
        UpToNulWhole(s);
      }
    }
  }

  /** A query that begins with a NUL character is found in every text, also where it does not occur. */
  lemma NulQueryFindsAll(q: string, s: string)
    requires q != "" && q[0] == '\0'
    ensures Finds(q, s) && (OccursIn(q, s) ==> HasNul(s))
  {
    LikeFindsLiterally(q, s);
    assert UpToNul(s)[|UpToNul(s)|..] == "";
    if i :| OccursAt(q, s, i) {
      assert Lower(q[0]) == Lower(s[i..i + |q|][0]) == Lower(s[i]);
    }
  }
}

/** Turning a search text into a full-text query, judged by the parser that reads it. */
module PhraseQuery {
  import opened Prelude
  import opened Whitespace

  // ---------------------------------------------------------------------------------------------
  // Words of the input
  // ---------------------------------------------------------------------------------------------

  predicate IsWord(w: string) {
    w != "" && forall i :: 0 <= i < |w| ==> !IsSpace(w[i])
  }

  /** The length of the run of characters before the first white space. */
  function Run(s: string): (n: nat)
    ensures n <= |s|
    ensures forall i :: 0 <= i < n ==> !IsSpace(s[i])
    ensures n < |s| ==> IsSpace(s[n])
  {
    if s == "" || IsSpace(s[0]) then 0 else 1 + Run(s[1..])
  }

  /** Python's `str.split()`. */
  function Split(s: string): seq<string>
    decreases |s|
  {
    if s == "" then []
    else if IsSpace(s[0]) then Split(s[1..])
    else [s[..Run(s)]] + Split(s[Run(s)..])
  }

  function Stripped(words: seq<string>): seq<string> {
    if words == [] then [] else
    (if Strip(words[0]) != "" then [Strip(words[0])] else []) + Stripped(words[1..])
  }

  function Tokens(q: string): seq<string> {
    Stripped(Split(Strip(q)))
  }

  /** After white space only, the word `w` stands at position `n`, up to white space or the end. */
  predicate StandsAt(s: string, w: string, n: nat) {
    && n + |w| <= |s| && IsBlank(s[..n]) && IsWord(w) && s[n..n + |w|] == w
    && (n + |w| < |s| ==> IsSpace(s[n + |w|]))
  }

  /** The text is the words in their order, with white space between, before and after them. */
  ghost predicate Spells(s: string, words: seq<string>)
    decreases |words|
  {
    if words == [] then IsBlank(s)
    else exists n: nat :: StandsAt(s, words[0], n) && Spells(s[n + |words[0]|..], words[1..])
  }

  lemma {:induction false} SplitSkips(s: string, n: nat)
    requires n <= |s| && IsBlank(s[..n])
    ensures Split(s) == Split(s[n..])
  {
    if n == 0 {
      assert s[0..] == s;
    } else {
      var t := s[1..];
      assert s[0] == s[..n][0];
      assert t[..n - 1] == s[..n][1..];
      SplitSkips(t, n - 1);
      assert t[n - 1..] == s[n..];
    }
  }

  lemma {:induction false} RunOfWord(s: string, w: string)
    requires StandsAt(s, w, 0)
    ensures Run(s) == |w|
  {
    assert s[0..0 + |w|] == s[..|w|];
    assert forall i :: 0 <= i < |w| ==> s[i] == w[i];
  }

  lemma {:induction false} SplitWord(s: string, w: string, n: nat)
    requires StandsAt(s, w, n)
    ensures Split(s) == [w] + Split(s[n + |w|..])
  {
    SplitSkips(s, n);
    var t := s[n..];
    assert t[..|w|] == w;
    assert t[0..0 + |w|] == w && IsBlank(t[..0]);
    RunOfWord(t, w);
    assert t[0] == w[0];
    assert t[|w|..] == s[n + |w|..];
  }

  lemma {:induction false} SpellsSplit(s: string, words: seq<string>)
    requires Spells(s, words)
    ensures words == Split(s)
    decreases |words|
  {
    if words == [] {
      assert s[..|s|] == s;
      SplitSkips(s, |s|);
    } else {
      var n: nat :| StandsAt(s, words[0], n) && Spells(s[n + |words[0]|..], words[1..]);
      var w, rest := words[0], words[1..];
      HeadAndTail(words);
      SplitWord(s, w, n);
      SpellsSplit(s[n + |w|..], rest);
    }
  }

  lemma {:induction false} HeadAndTail(words: seq<string>)
    requires words != []
    ensures words == [words[0]] + words[1..]
  {
  }

  lemma {:induction false} StandsLater(s: string, w: string, n: nat)
    requires s != "" && IsSpace(s[0]) && StandsAt(s[1..], w, n)
    ensures StandsAt(s, w, n + 1) && s[n + 1 + |w|..] == s[1..][n + |w|..]
  {
    var t := s[1..];
    assert s[..n + 1] == [s[0]] + t[..n];
    assert s[n + 1..n + 1 + |w|] == t[n..n + |w|];
  }

  lemma {:induction false} SpellsLater(s: string, words: seq<string>)
    requires s != "" && IsSpace(s[0]) && Spells(s[1..], words)
    ensures Spells(s, words)
  {
    if words == [] {
      assert s == [s[0]] + s[1..];
    } else {
      var n: nat :| StandsAt(s[1..], words[0], n) && Spells(s[1..][n + |words[0]|..], words[1..]);
      StandsLater(s, words[0], n);
    }
  }

  lemma {:induction false} SpellsFirst(s: string, w: string, words: seq<string>)
    requires StandsAt(s, w, 0) && Spells(s[|w|..], words)
    ensures Spells(s, [w] + words)
  {
    assert ([w] + words)[0] == w && ([w] + words)[1..] == words;
    assert s[0 + |w|..] == s[|w|..];
  }

  lemma {:induction false} SplitIsSpelled(s: string)
    ensures Spells(s, Split(s))
    decreases |s|
  {
    if s == "" {
    } else if IsSpace(s[0]) {
      SplitIsSpelled(s[1..]);
      SpellsLater(s, Split(s[1..]));
    } else {
      var n := Run(s);
      SplitIsSpelled(s[n..]);
      assert s[0..0 + n] == s[..n];
      SpellsFirst(s, s[..n], Split(s[n..]));
    }
  }

  /** Splitting gives the one list of words that spells the text. */
  lemma SplitExactly(s: string, words: seq<string>)
    ensures Spells(s, words) <==> words == Split(s)
  {
    if Spells(s, words) {
      SpellsSplit(s, words);
    }
    SplitIsSpelled(s);
  }

  lemma {:induction false} SplitWords(s: string)
    ensures forall k :: 0 <= k < |Split(s)| ==> IsWord(Split(s)[k])
    decreases |s|
  {
    if s == "" {
    } else if IsSpace(s[0]) {
      SplitWords(s[1..]);
    } else {
      SplitWords(s[Run(s)..]);
    }
  }

  lemma {:induction false} LStripSplit(s: string)
    ensures Split(LStrip(s)) == Split(s)
  {
    if s != "" && IsSpace(s[0]) {
      LStripSplit(s[1..]);
    }
  }

  /** A trailing white space adds no word. */
  lemma {:induction false} SplitTrailing(s: string, c: char)
    requires IsSpace(c)
    ensures Split(s + [c]) == Split(s)
    decreases |s|
  {
    var t := s + [c];
    if s == "" {
      assert t[1..] == "";
    } else if IsSpace(s[0]) {
      assert t[1..] == s[1..] + [c];
      SplitTrailing(s[1..], c);
    } else {
      var n := Run(s);
      assert t[..n] == s[..n];
      assert n < |s| ==> t[n] == s[n];
      assert t[0..0 + n] == s[..n] && StandsAt(t, s[..n], 0);
      RunOfWord(t, s[..n]);
      assert t[n..] == s[n..] + [c];
      SplitTrailing(s[n..], c);
    }
  }

  lemma {:induction false} RStripSplit(s: string)
    ensures Split(RStrip(s)) == Split(s)
  {
    if s != "" && IsSpace(s[|s| - 1]) {
      RStripSplit(s[..|s| - 1]);
      SplitTrailing(s[..|s| - 1], s[|s| - 1]);
      assert s == s[..|s| - 1] + [s[|s| - 1]];
    }
  }

  lemma {:induction false} WordsStripped(words: seq<string>)
    requires forall k :: 0 <= k < |words| ==> IsWord(words[k])
    ensures Stripped(words) == words
  {
    if words == [] {
    } else {
      assert IsWord(words[0]);
      assert Strip(words[0]) == words[0];
      WordsStripped(words[1..]);
    }
  }

  lemma TokensAreWords(q: string)
    ensures Tokens(q) == Split(q)
    ensures forall k :: 0 <= k < |Tokens(q)| ==> IsWord(Tokens(q)[k])
  {
    LStripSplit(q);
    RStripSplit(LStrip(q));
    SplitWords(Strip(q));
    WordsStripped(Split(Strip(q)));
  }

  // ---------------------------------------------------------------------------------------------
  // The query as it is built
  // ---------------------------------------------------------------------------------------------

  /** Doubles every quote. */
  function Doubled(s: string): string {
    if s == "" then "" else (if s[0] == '"' then "\"\"" else [s[0]]) + Doubled(s[1..])
  }

  function EscapePhrase(s: string): string {
    "\"" + Doubled(s) + "\""
  }

  function JoinPhrases(tokens: seq<string>): string {
    if tokens == [] then ""
    else if |tokens| == 1 then EscapePhrase(tokens[0])
    else EscapePhrase(tokens[0]) + " AND " + JoinPhrases(tokens[1..])
  }

  function BuildQuery(q: string): string {
    JoinPhrases(Tokens(q))
  }

  // ---------------------------------------------------------------------------------------------
  // The reader
  // ---------------------------------------------------------------------------------------------

  /** A string after its opening quote: up to a quote that is not doubled. */
  function ReadString(s: string): (r: Option<(string, string)>)
    ensures r.Some? ==> |r.value.1| < |s|
  {
    if s == "" then None
    else if s[0] == '"' then
      if |s| > 1 && s[1] == '"' then
        var rest := ReadString(s[2..]);
        if rest.None? then None else Some(("\"" + rest.value.0, rest.value.1))
      else Some(("", s[1..]))
    else
      var rest := ReadString(s[1..]);
      if rest.None? then None else Some(([s[0]] + rest.value.0, rest.value.1))
  }

  predicate IsBareword(c: char) {
    'a' <= c <= 'z' || 'A' <= c <= 'Z' || '0' <= c <= '9' || c == '_' || c as int >= 128 || c as int == 26
  }

  function BarewordLength(s: string): (n: nat)
    ensures n <= |s|
  {
    if s == "" || !IsBareword(s[0]) then 0 else 1 + BarewordLength(s[1..])
  }

  predicate IsGap(c: char) {
    c == ' ' || c == '\t' || c == '\n' || c == '\r'
  }

  datatype Lexeme = Quoted(text: string) | Bare(text: string)

  /** The query as quoted strings and barewords; nothing for an unfinished string or another sign. */
  function Lex(s: string): Option<seq<Lexeme>>
    decreases |s|
  {
    if s == "" then Some([])
    else if IsGap(s[0]) then Lex(s[1..])
    else if s[0] == '"' then
      var r := ReadString(s[1..]);
      if r.None? then None else
      var rest := Lex(r.value.1);
      if rest.None? then None else Some([Quoted(r.value.0)] + rest.value)
    else
      var n := BarewordLength(s);
      if n == 0 then None else
      var rest := Lex(s[n..]);
      if rest.None? then None else Some([Bare(s[..n])] + rest.value)
  }

  /** Phrases joined by the AND operator; a bareword in a phrase's place is a phrase of itself. */
  function Conjuncts(ls: seq<Lexeme>): Option<seq<string>> {
    if ls == [] || ls[0] == Bare("AND") then None
    else if |ls| == 1 then Some([ls[0].text])
    else if ls[1] != Bare("AND") then None
    else
      var rest := Conjuncts(ls[2..]);
      if rest.None? then None else Some([ls[0].text] + rest.value)
  }

  function ParseQuery(s: string): Option<seq<string>> {
    var ls := Lex(s);
    if ls.None? then None else Conjuncts(ls.value)
  }

  // ---------------------------------------------------------------------------------------------
  // Round trip
  // ---------------------------------------------------------------------------------------------

  lemma {:induction false} ReadDoubled(t: string, rest: string)
    requires rest == "" || rest[0] != '"'
    ensures ReadString(Doubled(t) + "\"" + rest) == Some((t, rest))
  {
    var s := Doubled(t) + "\"" + rest;
    if t == "" {
      assert s == "\"" + rest;
      assert s[1..] == rest;
      assert |s| > 1 ==> s[1] == rest[0];
    } else {
      ReadDoubled(t[1..], rest);
      var tail := Doubled(t[1..]) + "\"" + rest;
      var head := if t[0] == '"' then "\"\"" else [t[0]];
      assert s == head + tail;
      assert s[|head|..] == tail;
      assert t == [t[0]] + t[1..];
    }
  }

  lemma {:induction false} LexPhrase(t: string, rest: string)
    requires rest == "" || rest[0] != '"'
    ensures Lex(EscapePhrase(t) + rest) ==
            if Lex(rest).None? then None else Some([Quoted(t)] + Lex(rest).value)
  {
    var s := EscapePhrase(t) + rest;
    ReadDoubled(t, rest);
    assert s[1..] == Doubled(t) + "\"" + rest;
  }

  lemma {:induction false} LexGap(rest: string)
    ensures Lex([' '] + rest) == Lex(rest)
  {
    assert ([' '] + rest)[1..] == rest;
  }

  lemma {:induction false} AndLength(rest: string)
    ensures BarewordLength(['A', 'N', 'D', ' '] + rest) == 3
  {
    var t := ['A', 'N', 'D', ' '] + rest;
    assert t[1..] == ['N', 'D', ' '] + rest;
    assert t[1..][1..] == ['D', ' '] + rest;
    assert t[1..][1..][1..] == [' '] + rest;
    assert BarewordLength(t[1..][1..][1..]) == 0;
    assert BarewordLength(t[1..][1..]) == 1;
  }

  lemma {:induction false} LexAnd(rest: string)
    ensures Lex(" AND " + rest) ==
            if Lex(rest).None? then None else Some([Bare("AND")] + Lex(rest).value)
  {
    var t := ['A', 'N', 'D', ' '] + rest;
    assert " AND " + rest == [' '] + t;
    LexGap(t);
    AndLength(rest);
    assert t[..3] == "AND" && t[3..] == [' '] + rest;
    LexGap(rest);
  }

  function Lexemes(tokens: seq<string>): seq<Lexeme> {
    if tokens == [] then []
    else if |tokens| == 1 then [Quoted(tokens[0])]
    else [Quoted(tokens[0]), Bare("AND")] + Lexemes(tokens[1..])
  }

  lemma {:induction false} LexJoined(tokens: seq<string>)
    ensures Lex(JoinPhrases(tokens)) == Some(Lexemes(tokens))
  {
    if tokens == [] {
    } else if |tokens| == 1 {
      LexPhrase(tokens[0], "");
      assert EscapePhrase(tokens[0]) + "" == EscapePhrase(tokens[0]);
      assert [Quoted(tokens[0])] + [] == [Quoted(tokens[0])];
    } else {
      var rest := JoinPhrases(tokens[1..]);
      LexJoined(tokens[1..]);
      LexAnd(rest);
      LexPhrase(tokens[0], " AND " + rest);
      assert JoinPhrases(tokens) == EscapePhrase(tokens[0]) + (" AND " + rest);
      assert [Quoted(tokens[0])] + ([Bare("AND")] + Lexemes(tokens[1..])) == Lexemes(tokens);
    }
  }

  lemma {:induction false} ConjunctsOfLexemes(tokens: seq<string>)
    requires tokens != []
    ensures Conjuncts(Lexemes(tokens)) == Some(tokens)
  {
    if |tokens| == 1 {
      assert tokens == [tokens[0]];
    } else {
      ConjunctsOfLexemes(tokens[1..]);
      var ls := Lexemes(tokens);
      assert ls[2..] == Lexemes(tokens[1..]) && ls[1] == Bare("AND");
      assert tokens == [tokens[0]] + tokens[1..];
    }
  }

  // ---------------------------------------------------------------------------------------------
  // Words with a NUL character
  // ---------------------------------------------------------------------------------------------

  lemma {:induction false} DoubledUpToNul(t: string)
    ensures UpToNul(Doubled(t)) == Doubled(UpToNul(t))
    ensures HasNul(Doubled(t)) <==> HasNul(t)
  {
    if t == "" {
    } else {
      var head := if t[0] == '"' then "\"\"" else [t[0]];
      DoubledUpToNul(t[1..]);
      UpToNulConcat(head, Doubled(t[1..]));
      assert t == [t[0]] + t[1..];
      if t[0] != '\0' {
        assert ([t[0]] + UpToNul(t[1..]))[1..] == UpToNul(t[1..]);
      }
    }
  }

  lemma {:induction false} ReadUnfinished(t: string)
    ensures ReadString(Doubled(t)) == None
  {
    if t != "" {
      ReadUnfinished(t[1..]);
      var head := if t[0] == '"' then "\"\"" else [t[0]];
      assert Doubled(t)[|head|..] == Doubled(t[1..]);
    }
  }

  lemma {:induction false} PhraseUpToNul(t: string, rest: string)
    ensures UpToNul(EscapePhrase(t) + rest) ==
            if HasNul(t) then "\"" + Doubled(UpToNul(t)) else EscapePhrase(t) + UpToNul(rest)
  {
    DoubledUpToNul(t);
    assert EscapePhrase(t) + rest == "\"" + (Doubled(t) + ("\"" + rest));
    assert EscapePhrase(t) + UpToNul(rest) == "\"" + (Doubled(t) + ("\"" + UpToNul(rest)));
    UpToNulConcat("\"", Doubled(t) + ("\"" + rest));
    UpToNulConcat(Doubled(t), "\"" + rest);
    UpToNulConcat("\"", rest);
  }

  /** What follows the first phrase of a query. */
  function RestOfQuery(tokens: seq<string>): string
    requires tokens != []
  {
    if |tokens| == 1 then "" else " AND " + JoinPhrases(tokens[1..])
  }

  lemma {:induction false} FirstPhrase(tokens: seq<string>)
    requires tokens != []
    ensures JoinPhrases(tokens) == EscapePhrase(tokens[0]) + RestOfQuery(tokens)
  {
  }

  lemma {:induction false} AndUpToNul(s: string)
    ensures UpToNul(" AND " + s) == " AND " + UpToNul(s)
  {
    UpToNulConcat(" AND ", s);
  }

  /** A query cut off at a NUL character ends in an unfinished string. */
  lemma {:induction false} LexCutOff(tokens: seq<string>, k: nat)
    requires k < |tokens| && HasNul(tokens[k])
    ensures Lex(UpToNul(JoinPhrases(tokens))) == None
  {
    var t := tokens[0];
    FirstPhrase(tokens);
    PhraseUpToNul(t, RestOfQuery(tokens));
    if HasNul(t) {
      ReadUnfinished(UpToNul(t));
      assert ("\"" + Doubled(UpToNul(t)))[1..] == Doubled(UpToNul(t));
    } else {
      LexCutOff(tokens[1..], k - 1);
      AndUpToNul(JoinPhrases(tokens[1..]));
      var cut := UpToNul(JoinPhrases(tokens[1..]));
      LexAnd(cut);
      LexPhrase(t, " AND " + cut);
    }
  }

  ghost predicate SomeHasNul(words: seq<string>) {
    exists k: nat :: k < |words| && HasNul(words[k])
  }

  lemma {:induction false} NulInWords(s: string)
    ensures HasNul(s) <==> SomeHasNul(Split(s))
    decreases |s|
  {
    if s == "" {
    } else if IsSpace(s[0]) {
      NulInWords(s[1..]);
      assert s == [s[0]] + s[1..] && s[0] != '\0';
    } else {
      var w, rest := s[..Run(s)], s[Run(s)..];
      NulInWords(rest);
      assert s == w + rest;
      NulInFirst(w, Split(rest));
    }
  }

  lemma {:induction false} NulInFirst(w: string, words: seq<string>)
    ensures SomeHasNul([w] + words) <==> HasNul(w) || SomeHasNul(words)
  {
    var all := [w] + words;
    assert all[0] == w && forall k: nat :: k < |words| ==> all[k + 1] == words[k];
    if SomeHasNul(words) {
      var k: nat :| k < |words| && HasNul(words[k]);
      assert HasNul(all[k + 1]);
    }
  }

  lemma {:induction false} NoNulInQuery(tokens: seq<string>)
    requires forall k :: 0 <= k < |tokens| ==> !HasNul(tokens[k])
    ensures UpToNul(JoinPhrases(tokens)) == JoinPhrases(tokens)
  {
    if tokens != [] {
      FirstPhrase(tokens);
      PhraseUpToNul(tokens[0], RestOfQuery(tokens));
      if |tokens| > 1 {
        NoNulInQuery(tokens[1..]);
        AndUpToNul(JoinPhrases(tokens[1..]));
      }
    }
  }

  /** What the database makes of the built query: exactly the words of the input, whatever they contain but
      NUL; a NUL character cuts the query off inside a phrase and makes it an error. There is no query
      exactly when the input has no word. */
  lemma QueryRoundTrip(q: string)
    ensures BuildQuery(q) == "" <==> IsBlank(q)
    ensures !IsBlank(q) ==> ParseQuery(UpToNul(BuildQuery(q))) == if HasNul(q) then None else Some(Split(q))
  {
    TokensAreWords(q);
    SplitExactly(q, []);
    NulInWords(q);
    if Tokens(q) != [] {
      LexJoined(Tokens(q));
      ConjunctsOfLexemes(Tokens(q));
      if HasNul(q) {
        var k: nat :| k < |Split(q)| && HasNul(Split(q)[k]);
        LexCutOff(Tokens(q), k);
      } else {
        NoNulInQuery(Tokens(q));
      }
    }
  }

  /** One word with a NUL character makes the whole query an error. */
  lemma NulBreaksQuery(q: string, r: string)
    requires HasNul(r)
    ensures ParseQuery(UpToNul(BuildQuery(q + r))) == None
  {
    var s := q + r;
    assert HasNul(s) by {
      var i :| 0 <= i < |r| && r[i] == '\0';
      assert s[|q| + i] == '\0';
    }
    var i :| 0 <= i < |s| && s[i] == '\0';
    assert !IsSpace('\0') && !IsBlank(s);
    QueryRoundTrip(s);
  }
}

/** Python's white space, and the string method that strips it. */
module Whitespace {

  /** The characters for which `str.isspace` holds. */
  predicate IsSpace(c: char) {
    var n := c as int;
    || 0x09 <= n <= 0x0d || 0x1c <= n <= 0x20 || n == 0x85 || n == 0xa0 || n == 0x1680
    || 0x2000 <= n <= 0x200a || n == 0x2028 || n == 0x2029 || n == 0x202f || n == 0x205f || n == 0x3000
  }

  /** They are these and no others: the separators from tab to return, from file to unit and the space; next
      line and the no-break space; the Ogham mark; the spaces from en quad to hair space; the line and the
      paragraph separator; the narrow, the mathematical and the ideographic space. */
  lemma SpacesExactly(c: char)
    ensures IsSpace(c) <==>
            c in "\t\n\U{0b}\U{0c}\r\U{1c}\U{1d}\U{1e}\U{1f} \U{85}\U{a0}\U{1680}\U{2000}\U{2001}\U{2002}\U{2003}"
              + "\U{2004}\U{2005}\U{2006}\U{2007}\U{2008}\U{2009}\U{200a}\U{2028}\U{2029}\U{202f}\U{205f}\U{3000}"
  {
  }

  predicate IsBlank(s: string) {
    forall i :: 0 <= i < |s| ==> IsSpace(s[i])
  }

  function LStrip(s: string): string {
    if s != "" && IsSpace(s[0]) then LStrip(s[1..]) else s
  }

  function RStrip(s: string): string {
    if s != "" && IsSpace(s[|s| - 1]) then RStrip(s[..|s| - 1]) else s
  }

  function Strip(s: string): string {
    RStrip(LStrip(s))
  }

  lemma {:induction false} LStripEmpties(s: string)
    ensures LStrip(s) == "" <==> IsBlank(s)
    ensures LStrip(s) != "" ==> !IsSpace(LStrip(s)[0])
  {
    if s != "" && IsSpace(s[0]) {
      LStripEmpties(s[1..]);
      assert forall i :: 1 <= i < |s| ==> s[i] == s[1..][i - 1];
    }
  }

  lemma {:induction false} RStripKeepsFirst(s: string)
    requires s != "" && !IsSpace(s[0])
    ensures RStrip(s) != "" && RStrip(s)[0] == s[0]
  {
    if IsSpace(s[|s| - 1]) {
      RStripKeepsFirst(s[..|s| - 1]);
    }
  }

  lemma StripEmpties(s: string)
    ensures Strip(s) == "" <==> IsBlank(s)
    ensures Strip(s) != "" ==> !IsSpace(Strip(s)[0])
  {
    LStripEmpties(s);
    if LStrip(s) != "" {
      RStripKeepsFirst(LStrip(s));
    }
  }

  /** No white space at either end. */
  predicate Trim(s: string) {
    s == "" || (!IsSpace(s[0]) && !IsSpace(s[|s| - 1]))
  }

  lemma {:induction false} LStripSplits(s: string) returns (front: string)
    ensures s == front + LStrip(s) && IsBlank(front)
    ensures s == "" || !IsSpace(s[0]) ==> front == ""
  {
    if s != "" && IsSpace(s[0]) {
      var rest := LStripSplits(s[1..]);
      front := [s[0]] + rest;
      assert s == [s[0]] + s[1..];
    } else {
      front := "";
    }
  }

  lemma {:induction false} Associative(a: string, b: string, c: string)
    ensures (a + b) + c == a + (b + c)
  {
  }

  lemma {:induction false} RStripSplits(s: string) returns (back: string)
    ensures s == RStrip(s) + back && IsBlank(back)
    ensures RStrip(s) != "" ==> !IsSpace(RStrip(s)[|RStrip(s)| - 1])
  {
    if s != "" && IsSpace(s[|s| - 1]) {
      var t, c := s[..|s| - 1], s[|s| - 1];
      var rest := RStripSplits(t);
      back := rest + [c];
      Associative(RStrip(t), rest, [c]);
      assert s == t + [c];
    } else {
      back := "";
    }
  }

  /** Stripping removes white space from both ends, all of it and nothing else. */
  lemma {:induction false} StripSplits(s: string) returns (front: string, back: string)
    ensures s == front + Strip(s) + back && IsBlank(front) && IsBlank(back) && Trim(Strip(s))
    ensures s == "" || !IsSpace(s[0]) ==> front == ""
  {
    front := LStripSplits(s);
    back := RStripSplits(LStrip(s));
    Associative(front, Strip(s), back);
    StripEmpties(s);
  }
}

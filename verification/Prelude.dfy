/** Shared value types and real-number helpers. */
module Prelude {

  datatype Option<+T> = None | Some(value: T)

  datatype Result<+T, +E> = Ok(value: T) | Err(error: E)

  /** A stretch of audio in seconds. */
  datatype Interval = Interval(start: real, end: real)

  function MaxR(a: real, b: real): real {
    if a >= b then a else b
  }

  function MinR(a: real, b: real): real {
    if a <= b then a else b
  }

  function MinI(a: int, b: int): int {
    if a <= b then a else b
  }

  /** What SQLite reads of a text: what stands before its first NUL character. */
  function UpToNul(s: string): string {
    if s == "" || s[0] == '\0' then "" else [s[0]] + UpToNul(s[1..])
  }

  predicate HasNul(s: string) {
    '\0' in s
  }

  /** It is the whole text, or what stands before a NUL character that is the first one. */
  lemma {:induction false} UpToNulExactly(s: string)
    ensures UpToNul(s) <= s && !HasNul(UpToNul(s))
    ensures |UpToNul(s)| < |s| ==> s[|UpToNul(s)|] == '\0'
  {
    if s == "" || s[0] == '\0' {
    } else {
      UpToNulExactly(s[1..]);
      assert s == [s[0]] + s[1..];
    }
  }

  lemma {:induction false} UpToNulWhole(s: string)
    requires !HasNul(s)
    ensures UpToNul(s) == s
  {
    if s == "" {
    } else {
      UpToNulWhole(s[1..]);
      assert s == [s[0]] + s[1..];
    }
  }

  lemma {:induction false} UpToNulConcat(a: string, b: string)
    ensures UpToNul(a + b) == if HasNul(a) then UpToNul(a) else a + UpToNul(b)
  {
    if a == "" {
      assert a + b == b;
    } else {
      var c, rest := a[0], a[1..];
      assert (a + b)[0] == c && (a + b)[1..] == rest + b;
      UpToNulConcat(rest, b);
      assert HasNul(a) <==> c == '\0' || HasNul(rest);
      assert a + UpToNul(b) == [c] + (rest + UpToNul(b));
    }
  }
}

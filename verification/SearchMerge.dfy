/** Merging full-text and LIKE results into one list of ids. */
module SearchMerge {
  import opened Prelude
  import Whitespace

  /** The ids in the order of their first occurrence. */
  function Distinct(ids: seq<int>): seq<int> {
    if ids == [] then [] else
    var front := Distinct(ids[..|ids| - 1]);
    if ids[|ids| - 1] in front then front else front + [ids[|ids| - 1]]
  }

  /** At most `limit` of them, and room for one at least. */
  function Cut(ids: seq<int>, limit: Option<int>): (r: seq<int>)
    ensures r <= ids
  {
    if limit.Some? && |ids| > Window(limit.value) then ids[..Window(limit.value)] else ids
  }

  function Window(limit: int): (w: nat)
    ensures w > 0
  {
    if limit > 1 then limit else 1
  }

  /** The ids a query found, or none when it raised an error. */
  function Rows(found: Option<seq<int>>): seq<int> {
    if found.None? then [] else found.value
  }

  function Merged(q: string, fts: Option<seq<int>>, like: Option<seq<int>>, limit: Option<int>): seq<int> {
    if Whitespace.IsBlank(q) then [] else Cut(Distinct(Rows(fts) + Rows(like)), limit)
  }

  lemma {:induction false} DistinctElements(ids: seq<int>)
    ensures forall x :: x in Distinct(ids) <==> x in ids
    ensures forall i, j :: 0 <= i < j < |Distinct(ids)| ==> Distinct(ids)[i] != Distinct(ids)[j]
  {
    if ids == [] {
    } else {
      DistinctElements(ids[..|ids| - 1]);
      assert ids == ids[..|ids| - 1] + [ids[|ids| - 1]];
    }
  }

  lemma {:induction false} DistinctGrows(ids: seq<int>, x: int)
    ensures Distinct(ids + [x]) == if x in Distinct(ids) then Distinct(ids) else Distinct(ids) + [x]
  {
    assert (ids + [x])[..|ids|] == ids;
  }

  lemma {:induction false} DistinctPrefix(a: seq<int>, b: seq<int>)
    ensures Distinct(a) <= Distinct(a + b)
  {
    if b == [] {
      assert a + b == a;
    } else {
      DistinctPrefix(a, b[..|b| - 1]);
      assert a + b == a + b[..|b| - 1] + [b[|b| - 1]];
      DistinctGrows(a + b[..|b| - 1], b[|b| - 1]);
    }
  }

  /** Id `a` is found, and `b` not up to where it is found first. */
  ghost predicate FoundBefore(found: seq<int>, a: int, b: int) {
    exists m :: 0 <= m < |found| && found[m] == a && forall k :: 0 <= k <= m ==> found[k] != b
  }

  lemma {:induction false} FoundStays(found: seq<int>, x: int, a: int, b: int)
    requires FoundBefore(found, a, b)
    ensures FoundBefore(found + [x], a, b)
  {
    var m :| 0 <= m < |found| && found[m] == a && forall k :: 0 <= k <= m ==> found[k] != b;
    assert (found + [x])[m] == a;
  }

  lemma {:induction false} NewIdLast(found: seq<int>, x: int, a: int)
    requires a in found && x !in found
    ensures FoundBefore(found + [x], a, x)
  {
    var m :| 0 <= m < |found| && found[m] == a;
    assert (found + [x])[m] == a;
  }

  lemma {:induction false} DistinctInOrder(ids: seq<int>)
    ensures forall i, j :: 0 <= i < j < |Distinct(ids)| ==> FoundBefore(ids, Distinct(ids)[i], Distinct(ids)[j])
  {
    if ids == [] {
    } else {
      var front, x := ids[..|ids| - 1], ids[|ids| - 1];
      var before, all := Distinct(front), Distinct(ids);
      DistinctInOrder(front);
      DistinctElements(front);
      assert ids == front + [x];
      forall i, j | 0 <= i < j < |all|
        ensures FoundBefore(ids, all[i], all[j])
      {
        assert all[i] == before[i] && before[i] in front;
        if j < |before| {
          FoundStays(front, x, before[i], before[j]);
        } else {
          NewIdLast(front, x, before[i]);
        }
      }
    }
  }

  /** A blank query finds nothing. Otherwise the ids are those found, each once, in the order in which they are
      found first: all of them, or as many as the window has room for, which is one at least; so the ones the
      full-text query ranked come first. */
  lemma {:induction false} MergedExactly(q: string, fts: Option<seq<int>>, like: Option<seq<int>>, limit: Option<int>)
    ensures var ids := Merged(q, fts, like, limit);
            var found := Rows(fts) + Rows(like);
            && (Whitespace.IsBlank(q) ==> ids == [])
            && (forall x :: x in ids ==> x in found)
            && (forall i, j :: 0 <= i < j < |ids| ==> ids[i] != ids[j] && FoundBefore(found, ids[i], ids[j]))
            && (forall x, y :: y in ids && FoundBefore(found, x, y) ==> x in ids)
            && (limit.Some? ==> |ids| <= if limit.value > 1 then limit.value else 1)
            && (!Whitespace.IsBlank(q) && (limit.None? || |ids| < if limit.value > 1 then limit.value else 1) ==>
                  forall x :: x in found ==> x in ids)
            && (Distinct(Rows(fts)) <= ids || ids <= Distinct(Rows(fts)))
  {
    var found := Rows(fts) + Rows(like);
    DistinctElements(found);
    DistinctPrefix(Rows(fts), Rows(like));
    DistinctInOrder(found);
    if !Whitespace.IsBlank(q) {
      EarlierKept(found, Merged(q, fts, like, limit));
    }
  }

  /** An id found before one that is kept is kept. */
  lemma {:induction false} EarlierKept(found: seq<int>, ids: seq<int>)
    requires ids <= Distinct(found)
    ensures forall x, y :: y in ids && FoundBefore(found, x, y) ==> x in ids
  {
    var all := Distinct(found);
    DistinctElements(found);
    DistinctInOrder(found);
    forall x, y | y in ids && x in found && x !in ids
      ensures FoundBefore(found, y, x)
    {
      var i :| 0 <= i < |all| && all[i] == x;
      var j :| 0 <= j < |ids| && ids[j] == y;
      assert all[j] == y && FoundBefore(found, all[j], all[i]);
    }
  }

  predicate Full(r: seq<int>, limit: Option<int>) {
    limit.Some? && |r| >= Window(limit.value)
  }

  /** One more id: it is added unless it is there already or the window is full. */
  lemma CutGrows(ids: seq<int>, x: int, limit: Option<int>)
    ensures var r := Cut(Distinct(ids), limit);
            Cut(Distinct(ids + [x]), limit) == if x in r || Full(r, limit) then r else r + [x]
  {
    DistinctGrows(ids, x);
  }

  lemma {:induction false} FullStays(ids: seq<int>, more: seq<int>, limit: Option<int>)
    requires Full(Cut(Distinct(ids), limit), limit)
    ensures Cut(Distinct(ids + more), limit) == Cut(Distinct(ids), limit)
  {
    DistinctPrefix(ids, more);
  }

  lemma {:induction false} TakeOne(base: seq<int>, more: seq<int>, k: nat)
    requires k < |more|
    ensures base + more[..k + 1] == base + more[..k] + [more[k]]
    ensures base + more == base + more[..k] + more[k..]
  {
  }

  method AddIds(result: seq<int>, more: seq<int>, limit: Option<int>, ghost base: seq<int>) returns (r: seq<int>)
    requires result == Cut(Distinct(base), limit)
    ensures r == Cut(Distinct(base + more), limit)
  {
    r := result;
    assert base + more[..0] == base;
    for k := 0 to |more|
      invariant r == Cut(Distinct(base + more[..k]), limit)
    {
      TakeOne(base, more, k);
      CutGrows(base + more[..k], more[k], limit);
      if more[k] !in r {
        if limit.Some? && |r| >= Window(limit.value) {
          FullStays(base + more[..k], more[k..], limit);
          return;
        }
        r := r + [more[k]];
      }
    }
    assert more[..|more|] == more;
  }

  method SearchAudioIds(q: string, fts: Option<seq<int>>, like: Option<seq<int>>, limit: Option<int>)
    returns (ids: seq<int>)
    ensures ids == Merged(q, fts, like, limit)
  {
    if Whitespace.IsBlank(q) {
      return [];
    }
    ids := [];
    if fts.Some? {
      ids := AddIds(ids, fts.value, limit, []);
      assert [] + fts.value == fts.value;
    }
    ghost var found := Rows(fts);
    if limit.None? || |ids| < Window(limit.value) {
      if like.Some? {
        ids := AddIds(ids, like.value, limit, found);
      } else {
        assert found + [] == found;
      }
    } else {
      FullStays(found, Rows(like), limit);
    }
  }
}
